/** Replacing a scalar by a different scalar of the same kind. */
module Scalars {
  import opened Bytes
  import opened Frames
  import opened Generator
  import Draws

  const BANG: byte := 33

  /** The two frames use the same constructor. */
  predicate SameKind(f: Frame, g: Frame) {
    Prefix(f) == Prefix(g) && f.NullBulk? == g.NullBulk? && f.NullArray? == g.NullArray?
  }

  /** The scalars whose value an overflow can push to an extreme. */
  predicate CanOverflow(f: Frame) {
    f.SimpleString? || f.SimpleError? || f.Integer? || f.BulkString? || f.Double? || f.BigNumber? || f.BulkError?
    || f.VerbatimString?
  }

  predicate IsScalar(f: Frame) { CanOverflow(f) || f.Boolean? || f.Inline? }

  predicate IsExtremeText(s: bytes) { s == Decimal(I64_MAX) || s == Decimal(U64_MAX) }

  /** What an overflow leaves behind. A double or a big number comes from its corpus
      of extremes, or is the 0 or 1 that differs from the original; it may also be
      malformed, but only when violations are on. */
  predicate IsExtreme(violations: bool, f: Frame) {
    match f
    case Integer(number) => number == I64_MAX || number == I64_MIN
    case SimpleString(text) => IsExtremeText(text)
    case SimpleError(text) => IsExtremeText(text)
    case BulkString(body) => IsExtremeText(body)
    case BulkError(body) => IsExtremeText(body)
    case VerbatimString(body) => |body| >= 4 && body[..4] == Generator.Ascii("txt:") && IsExtremeText(body[4..])
    case Double(text) => IsDoubleBoundary(text) || (violations && IsMalformedDouble(text))
    case BigNumber(text) => IsBigBoundary(text) || text == [49] || (violations && IsMalformedBig(text))
    case _ => !CanOverflow(f)
  }

  lemma ZeroAndOne()
    ensures IsDoubleBoundary([48]) && IsDoubleBoundary([49]) && IsBigBoundary([48])
  {
    assert DoubleText(0) == [48] && DoubleText(2) == [49] by {
      assert "0"[1..] == "" && "1"[1..] == "";
    }
    assert BIG_NUMBERS[0] == 0 && Decimal(0) == [48];
  }

  /** A malformed number is no extreme: with violations on, an overflow need not
      leave one. */
  lemma MalformedIsNoExtreme()
    ensures var text := Generator.Ascii("1e"); IsMalformedDouble(text) && !IsExtreme(false, Double(text))
  {
    var text := Generator.Ascii("1e");
    assert DoubleText(12) == text;
    assert text[0] == 49 && |text| == 2;
    forall k | 0 <= k < 11 ensures DoubleText(k) != text {
      assert |DoubleText(k)| == 2 ==> DoubleText(k)[0] == 45;
    }
  }

  function FlipLowestBit(b: byte): (r: byte) { if b % 2 == 0 then b + 1 else b - 1 }

  /** `next`, changed when it equals `current`: one byte longer if it has no byte
      after the prefix, otherwise with one bit flipped there. */
  function MakeDifferent(next: bytes, current: bytes, prefix: nat): (r: bytes)
    ensures r != current
    ensures next != current ==> r == next
    ensures |next| <= |r| <= |next| + 1
    ensures forall i :: 0 <= i < prefix && i < |next| ==> r[i] == next[i]
  {
    if next != current then next
    else if |next| <= prefix then next + [120]
    else
      var r := next[prefix := FlipLowestBit(next[prefix])];
      assert r[prefix] != current[prefix];
      r
  }

  function DifferentNumber(next: bytes, current: bytes): (r: bytes)
    requires Printable(next)
    ensures r != current && Printable(r)
    ensures r == next || (next == current && (r == [48] || r == [49]))
  {
    if next != current then next else if current == [48] then [49] else [48]
  }

  lemma ExtremesDiffer()
    ensures Decimal(I64_MAX) != Decimal(U64_MAX)
    ensures Printable(Decimal(I64_MAX)) && Printable(Decimal(U64_MAX))
    ensures |Decimal(I64_MAX)| <= 20 && |Decimal(U64_MAX)| <= 20
  {
    if Decimal(I64_MAX) == Decimal(U64_MAX) { DecimalInjective(I64_MAX, U64_MAX); }
    DecimalIsPrintable(I64_MAX);
    DecimalIsPrintable(U64_MAX);
    Pow10Sum(10, 10);
    assert Pow10(10) == 10_000_000_000;
    hide Pow10;
    DigitsLength(I64_MAX, 20);
    DigitsLength(U64_MAX, 20);
  }

  /** Whatever the draws and the current text, an overflow leaves a number of the
      corpus, or the 0 or 1 that differs from it, */
  ghost predicate AlwaysExtremeDouble(config: Config) {
    forall d: NumberDraws, current :: AreDraws(d) ==> DrawsExtremeDouble(config, d, current)
  }

  ghost predicate DrawsExtremeDouble(config: Config, d: NumberDraws, current: bytes)
    requires AreDraws(d)
  {
    IsExtreme(false, Double(DifferentNumber(ListedDouble(config, true, d).value, current)))
  }

  ghost predicate AlwaysExtremeBigNumber(config: Config) {
    forall d: NumberDraws, current :: AreDraws(d) ==> DrawsExtremeBigNumber(config, d, current)
  }

  ghost predicate DrawsExtremeBigNumber(config: Config, d: NumberDraws, current: bytes)
    requires AreDraws(d)
  {
    IsExtreme(false, BigNumber(DifferentNumber(ListedBigNumber(config, true, d).value, current)))
  }

  /** exactly while violations are off. */
  lemma OverflowIsExtremeExactly(config: Config)
    ensures AlwaysExtremeDouble(config) <==> !config.violations
    ensures AlwaysExtremeBigNumber(config) <==> !config.violations
  {
    if config.violations {
      OverflowMayBeMalformed(config);
    } else {
      hide DrawsExtremeDouble, DrawsExtremeBigNumber, AreDraws;
      forall d: NumberDraws, current | AreDraws(d)
        ensures DrawsExtremeDouble(config, d, current) && DrawsExtremeBigNumber(config, d, current)
      {
        OverflowIsExtremeDouble(config, d, current);
        OverflowIsExtremeBigNumber(config, d, current);
      }
    }
  }

  lemma OverflowIsExtremeDouble(config: Config, d: NumberDraws, current: bytes)
    requires !config.violations && AreDraws(d)
    ensures DrawsExtremeDouble(config, d, current)
  {
    ZeroAndOne();
    hide DoubleText, Decimal, Printable;
    assert IsDoubleBoundary(ListedDouble(config, true, d).value);
    hide IsDoubleBoundary, ListedDouble;
  }

  lemma OverflowIsExtremeBigNumber(config: Config, d: NumberDraws, current: bytes)
    requires !config.violations && AreDraws(d)
    ensures DrawsExtremeBigNumber(config, d, current)
  {
    ZeroAndOne();
    hide DoubleText, Decimal, Printable;
    assert IsBigBoundary(ListedBigNumber(config, true, d).value);
    hide IsBigBoundary, ListedBigNumber;
  }

  const MALFORMED_DRAWS: NumberDraws := NumberDraws(true, false, n => if n > 1 then 1 else 0, n => 0)

  /** `1e` over a current text other than it, and `12x`. */
  lemma OverflowMayBeMalformed(config: Config)
    requires config.violations
    ensures AreDraws(MALFORMED_DRAWS)
    ensures !DrawsExtremeDouble(config, MALFORMED_DRAWS, []) && !DrawsExtremeBigNumber(config, MALFORMED_DRAWS, [])
  {
    MalformedIsNoExtreme();
    MalformedBigIsNoExtreme();
    assert ListedDouble(config, true, MALFORMED_DRAWS).value == Generator.Ascii("1e");
    assert ListedBigNumber(config, true, MALFORMED_DRAWS).value == Generator.Ascii("12x");
  }

  lemma MalformedBigIsNoExtreme()
    ensures var text := Generator.Ascii("12x"); IsMalformedBig(text) && !IsExtreme(false, BigNumber(text))
  {
    var text := Generator.Ascii("12x");
    assert BadBigNumber(1) == text;
    assert text[2] == 120 by { assert "12x"[1..][1..] == "x"; }
    hide Generator.Ascii, Decimal;
  }

  method OverflowText(current: bytes) returns (s: bytes)
    ensures IsExtremeText(s) && s != current && Printable(s) && |s| <= 20
  {
    hide Decimal, Printable;
    ExtremesDiffer();
    var values := [Decimal(I64_MAX), Decimal(U64_MAX)];
    var draw := Draws.Flip();
    var index := if draw then 1 else 0;
    s := if values[index] == current then values[1 - index] else values[index];
  }

  method DifferentInteger(config: Config, current: int, overflow: bool) returns (n: int)
    requires IsI64(current)
    ensures n != current && IsI64(n)
    ensures overflow ==> n == I64_MAX || n == I64_MIN
  {
    var next;
    if overflow {
      var draw := Draws.Flip();
      next := if draw then I64_MAX else I64_MIN;
    } else {
      next := RandomInteger(config);
    }
    n := if next != current then next
         else if overflow then -next - 1
         else if current == I64_MAX then I64_MIN else current + 1;
  }

  method DifferentText(config: Config, current: bytes, overflow: bool) returns (s: bytes)
    ensures s != current && Printable(s)
    ensures overflow ==> IsExtremeText(s)
  {
    if overflow { s := OverflowText(current); } else { s := RandomLine(config); }
    if s == current { s := s + [BANG]; }
  }

  method DifferentBlob(config: Config, f: Frame, overflow: bool) returns (s: bytes)
    requires IsBlob(f)
    ensures s != f.body && |s| <= MAX_BLOB_BYTES + 1
    ensures overflow && !f.VerbatimString? ==> IsExtremeText(s)
    ensures overflow && f.VerbatimString? ==> IsExtreme(config.violations, VerbatimString(s))
  {
    hide Decimal, IsExtremeText;
    var next;
    var prefix := if f.VerbatimString? then 4 else 0;
    if overflow {
      var tail := OverflowText(if f.VerbatimString? then (if |f.body| >= 4 then f.body[4..] else []) else f.body);
      next := if f.VerbatimString? then Generator.Ascii("txt:") + tail else tail;
      if f.VerbatimString? { assert next[4..] == tail && next[..4] == Generator.Ascii("txt:"); }
      assert next != f.body;
    } else if f.BulkString? {
      next := RandomBlob(config);
    } else if f.BulkError? {
      next := RandomBulkError(config);
    } else {
      next := RandomVerbatim(config);
    }
    s := MakeDifferent(next, f.body, prefix);
  }

  /** A different scalar of the same kind, printable unless it is inline. */
  ghost predicate Varied(config: Config, f: Frame, g: Frame, overflow: bool) {
    IsScalar(f) && SameKind(f, g) && g != f && (g.Inline? || PlainNode(g))
    && (overflow ==> IsExtreme(config.violations, g))
  }

  lemma VariedInteger(config: Config, f: Frame, g: Frame, overflow: bool)
    requires f.Integer? && g.Integer? && g.number != f.number && IsI64(g.number)
    requires overflow ==> g.number == I64_MAX || g.number == I64_MIN
    ensures Varied(config, f, g, overflow)
  {}

  lemma VariedOther(config: Config, f: Frame, g: Frame, overflow: bool)
    requires g != f && ((f.Boolean? && g.Boolean?) || (f.Inline? && g.Inline?))
    ensures Varied(config, f, g, overflow)
  {}

  lemma VariedBlob(config: Config, f: Frame, g: Frame, overflow: bool)
    requires (f.BulkString? && g.BulkString?) || (f.BulkError? && g.BulkError?) || (f.VerbatimString? && g.VerbatimString?)
    requires g.body != f.body && |g.body| <= MAX_BLOB_BYTES + 1
    requires overflow && !f.VerbatimString? ==> IsExtremeText(g.body)
    requires overflow && f.VerbatimString? ==> IsExtreme(config.violations, g)
    ensures Varied(config, f, g, overflow)
  {
    hide IsExtremeText, Generator.Ascii;
  }

  lemma VariedText(config: Config, f: Frame, g: Frame, overflow: bool)
    requires Prefix(f) == Prefix(g) && CanOverflow(f) && g != f && (overflow ==> IsExtreme(config.violations, g))
    requires (g.SimpleString? || g.SimpleError? || g.Double? || g.BigNumber?) && Printable(g.text)
    ensures Varied(config, f, g, overflow)
  {
    PrintableIsText(g.text);
    hide IsText, Printable, IsExtreme;
  }

  /** The number as the draws say, unless it is random. */
  ghost predicate AsDrawn(config: Config, f: Frame, g: Frame, overflow: bool, d: NumberDraws)
    requires AreDraws(d)
  {
    match f
    case Double(text) =>
      var next := ListedDouble(config, overflow, d); next.Some? ==> g == Double(DifferentNumber(next.value, text))
    case BigNumber(text) =>
      var next := ListedBigNumber(config, overflow, d); next.Some? ==> g == BigNumber(DifferentNumber(next.value, text))
    case _ => true
  }

  method MutateScalar(config: Config, f: Frame, overflow: bool, d: NumberDraws) returns (g: Frame)
    requires IsScalar(f) && (f.Integer? ==> IsI64(f.number)) && AreDraws(d)
    ensures Varied(config, f, g, overflow) && AsDrawn(config, f, g, overflow, d)
  {
    hide IsExtremeText, IsText, Printable, Generator.Ascii, Words, Decimal, DoubleText;
    hide IsDoubleBoundary, IsBigBoundary, IsMalformedDouble, IsMalformedBig;
    hide ListedDouble, ListedBigNumber, Varied, PlainNode, SameKind;
    ZeroAndOne();
    match f {
      case Integer(number) =>
        var n := DifferentInteger(config, number, overflow);
        g := Integer(n);
        VariedInteger(config, f, g, overflow);
      case SimpleString(text) =>
        var s := DifferentText(config, text, overflow);
        g := SimpleString(s);
        VariedText(config, f, g, overflow);
      case SimpleError(text) =>
        var s := DifferentText(config, text, overflow);
        g := SimpleError(s);
        VariedText(config, f, g, overflow);
      case Double(text) =>
        var next := RandomDouble(config, overflow, d);
        g := Double(DifferentNumber(next, text));
        VariedText(config, f, g, overflow);
      case BigNumber(text) =>
        var next := RandomBigNumber(config, overflow, d);
        g := BigNumber(DifferentNumber(next, text));
        VariedText(config, f, g, overflow);
      case Boolean(flag) =>
        g := Boolean(!flag);
        VariedOther(config, f, g, overflow);
      case Inline(parts) =>
        var first := RandomText(8, 0x21, 0x7e);
        var second := RandomText(8, 0x21, 0x7e);
        g := Inline(if [first, second] == parts then [first, second, [120]] else [first, second]);
        if [first, second] == parts { assert |g.parts| == 3; }
        VariedOther(config, f, g, overflow);
      case _ =>
        var s := DifferentBlob(config, f, overflow);
        g := if f.BulkString? then BulkString(s) else if f.BulkError? then BulkError(s) else VerbatimString(s);
        VariedBlob(config, f, g, overflow);
    }
  }
}
