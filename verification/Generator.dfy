/** Bounded generation of frames and replacement of scalars. Every draw is
    arbitrary within its range, so each property holds for all seeds. */
module Generator {
  import opened Bytes
  import opened Frames
  import Draws

  const MAX_DEPTH: nat := 3
  const MAX_ITEMS: nat := 4
  const MAX_BLOB_BYTES: nat := 4097

  datatype Protocol = Resp2 | Resp3

  datatype Config = Config(protocol: Protocol, boundary: bool, violations: bool)

  // ------------------------------------------------------------ printable text

  predicate IsPrintable(b: byte) { 0x20 <= b <= 0x7e }

  predicate Printable(s: bytes) { forall i :: 0 <= i < |s| ==> IsPrintable(s[i]) }

  lemma PrintableIsText(s: bytes)
    requires Printable(s)
    ensures IsText(s)
  {
    AsciiIsUtf8(s);
  }

  function Ascii(s: string): (b: bytes)
    requires forall i :: 0 <= i < |s| ==> ' ' <= s[i] <= '~'
    ensures |b| == |s| && Printable(b)
  {
    if s == [] then [] else [s[0] as int] + Ascii(s[1..])
  }

  const INTEGERS: seq<int> := [
    I64_MIN, I64_MIN + 1, -2147483649, -2147483648, -2147483647, -1, 0, 1, 2147483646, 2147483647,
    2147483648, 4294967295, 4294967296, I64_MAX - 1, I64_MAX]
  const SIZES: seq<nat> := [0, 1, 31, 32, 33, 255, 256, 257, 4095, 4096, 4097]
  const PATTERNS: seq<bytes> := [[0], [255], [13, 10, 0, 36, 42], [97]]

  const LINE_NUMBERS: seq<int> := [0, -1, 2147483648, I64_MAX, 18446744073709551616]
  const BIG_NUMBERS: seq<int> := [
    0, -1, I64_MAX, I64_MAX + 1, I64_MIN - 1, 18446744073709551615, 18446744073709551616,
    340282366920938463463374607431768211455, -340282366920938463463374607431768211455]

  /** The numbers of `DOUBLES`, then the malformed ones used as violations. */
  function DoubleText(k: nat): (s: bytes)
    ensures Printable(s)
  {
    match k
    case 0 => Ascii("0")
    case 1 => Ascii("-0")
    case 2 => Ascii("1")
    case 3 => Ascii("-1")
    case 4 => Ascii("4.9406564584124654e-324")
    case 5 => Ascii("2.2250738585072014e-308")
    case 6 => Ascii("1.7976931348623157e308")
    case 7 => Ascii("-1.7976931348623157e308")
    case 8 => Ascii("inf")
    case 9 => Ascii("-inf")
    case 10 => Ascii("nan")
    case 11 => Ascii("not-a-number")
    case 12 => Ascii("1e")
    case _ => Ascii("1.2.3")
  }

  function BadBigNumber(k: nat): (s: bytes)
    ensures Printable(s)
  {
    match k
    case 0 => []
    case 1 => Ascii("12x")
    case 2 => Ascii("--1")
    case _ => Ascii("1.5")
  }

  /** One of the `DOUBLES`. */
  predicate IsDoubleBoundary(s: bytes) { exists k :: 0 <= k < 11 && s == DoubleText(k) }

  predicate IsMalformedDouble(s: bytes) { exists k :: 11 <= k < 14 && s == DoubleText(k) }

  /** One of the `BIG_NUMBERS`. */
  predicate IsBigBoundary(s: bytes) { exists k :: 0 <= k < |BIG_NUMBERS| && s == Decimal(BIG_NUMBERS[k]) }

  predicate IsMalformedBig(s: bytes) { exists k :: 0 <= k < 4 && s == BadBigNumber(k) }

  /** A 128-bit magnitude with an optional minus. */
  ghost predicate IsBigNumber(s: bytes) {
    exists n: nat :: n < TWO_128 && (s == Decimal(n) || s == [MINUS] + Decimal(n))
  }

  const TWO_128: nat := 0x1_0000_0000_0000_0000_0000_0000_0000_0000

  lemma BoundaryIsBigNumber(k: nat)
    requires k < |BIG_NUMBERS|
    ensures IsBigNumber(Decimal(BIG_NUMBERS[k]))
  {
    hide Digits;
    var n: int := BIG_NUMBERS[k];
    if n < 0 {
      assert Decimal(n) == [MINUS] + Decimal(-n) && -n < TWO_128;
    } else {
      assert n < TWO_128;
    }
  }

  lemma DecimalIsPrintable(n: int)
    ensures Printable(Decimal(n))
  {}

  lemma {:induction false} DigitsLength(n: nat, k: nat)
    requires n < Pow10(k) && k > 0
    ensures |Digits(n)| <= k
  {
    if n >= 10 { DigitsLength(n / 10, k - 1); }
  }

  function Pow10(k: nat): (n: nat) { if k == 0 then 1 else 10 * Pow10(k - 1) }

  /** Up to `max` characters from `low` to `high`. */
  method RandomText(max: nat, low: byte, high: byte) returns (s: bytes)
    requires 0x20 <= low <= high <= 0x7e
    ensures Printable(s) && |s| <= max
  {
    var len := Draws.Below(max + 1);
    s := [];
    while |s| < len
      invariant |s| <= len && Printable(s)
    {
      var c := Draws.Below(high - low + 1);
      s := s + [low + c];
    }
  }

  method RandomBytes(len: nat) returns (s: bytes)
    ensures |s| == len
  {
    s := [];
    while |s| < len
      invariant |s| <= len
    {
      var c := Draws.Below(256);
      s := s + [c];
    }
  }

  // -------------------------------------------------------------- what is drawn

  /** At most four items or entries, values within their ranges, sets and map
      keys without duplicates. */
  predicate BoundedNode(f: Frame) {
    && PlainNode(f)
    && (IsBlob(f) ==> |f.body| <= MAX_BLOB_BYTES)
    && (f.Array? || f.Set? || f.Push? ==> |f.items| <= MAX_ITEMS)
    && (HasEntries(f) ==> |f.entries| <= MAX_ITEMS)
    && (f.Set? ==> forall i, j :: 0 <= i < j < |f.items| ==> f.items[i] != f.items[j])
    && (f.Map? ==> forall i, j :: 0 <= i < j < |f.entries| ==> f.entries[i].key != f.entries[j].key)
  }

  predicate Resp2Node(f: Frame) {
    BoundedNode(f) &&
    (f.SimpleString? || f.SimpleError? || f.Integer? || f.BulkString? || f.NullBulk? || f.NullArray? || f.Array?)
  }

  predicate Resp3Node(f: Frame) {
    BoundedNode(f) && !f.NullBulk? && !f.NullArray? && !f.Push? && !f.Attribute?
  }

  /** The nodes that the settings allow. */
  predicate Allowed(config: Config, f: Frame) {
    if config.violations then Every(f, BoundedNode)
    else if config.protocol.Resp2? then Every(f, Resp2Node)
    else Every(f, Resp3Node)
  }

  predicate AllowedAll(config: Config, fs: seq<Frame>) {
    if config.violations then EveryAll(fs, BoundedNode)
    else if config.protocol.Resp2? then EveryAll(fs, Resp2Node)
    else EveryAll(fs, Resp3Node)
  }

  predicate AllowedNode(config: Config, f: Frame) {
    if config.violations then BoundedNode(f) else if config.protocol.Resp2? then Resp2Node(f) else Resp3Node(f)
  }

  function NodeBound(depth: nat): (n: nat) {
    if depth <= 1 then 41 else if depth == 2 then 9 else 1
  }

  ghost predicate Generated(config: Config, f: Frame, depth: nat) {
    1 <= depth <= MAX_DEPTH && Allowed(config, f) && Depth(f) <= MAX_DEPTH + 1 - depth && Nodes(f) <= NodeBound(depth)
  }

  lemma GeneratedScalar(config: Config, f: Frame, depth: nat)
    requires 1 <= depth <= MAX_DEPTH && AllowedNode(config, f) && !IsAggregate(f)
    ensures Generated(config, f, depth)
  {
    assert Children(f) == [];
    EveryLeaf(f, BoundedNode);
    EveryLeaf(f, Resp2Node);
    EveryLeaf(f, Resp3Node);
    NodesOfChildren(f);
    assert Depth(f) == 1;
    hide Every;
  }

  lemma AggregateParts(config: Config, f: Frame, depth: nat)
    requires 1 <= depth < MAX_DEPTH && AllowedNode(config, f)
    requires AllowedAll(config, Children(f)) && DepthAll(Children(f)) <= MAX_DEPTH - depth
    requires NodesAll(Children(f)) <= if depth == 1 then 40 else 8
    ensures Allowed(config, f) && Depth(f) <= MAX_DEPTH + 1 - depth && Nodes(f) <= NodeBound(depth)
  {
    NodesOfChildren(f);
  }

  lemma GeneratedAggregate(config: Config, f: Frame, depth: nat)
    requires 1 <= depth < MAX_DEPTH && AllowedNode(config, f)
    requires AllowedAll(config, Children(f)) && DepthAll(Children(f)) <= MAX_DEPTH - depth
    requires NodesAll(Children(f)) <= if depth == 1 then 40 else 8
    ensures Generated(config, f, depth)
  {
    hide Allowed, Generated, Depth, Nodes;
    AggregateParts(config, f, depth);
    GeneratedParts(config, f, depth);
  }

  lemma GeneratedParts(config: Config, f: Frame, depth: nat)
    requires 1 <= depth <= MAX_DEPTH
    ensures Allowed(config, f) && Depth(f) <= MAX_DEPTH + 1 - depth && Nodes(f) <= NodeBound(depth)
            ==> Generated(config, f, depth)
  {}

  // ------------------------------------------------------------------- in numbers

  predicate SmallNode(f: Frame) {
    && (f.BulkString? || f.BulkError? || f.VerbatimString? ==> |f.body| <= 4097)
    && (f.Array? || f.Set? || f.Push? ==> |f.items| <= 4) && (f.Map? || f.Attribute? ==> |f.entries| <= 4)
    && (f.Set? ==> forall i, j :: 0 <= i < j < |f.items| ==> f.items[i] != f.items[j])
    && (f.Map? ==> forall i, j :: 0 <= i < j < |f.entries| ==> f.entries[i].key != f.entries[j].key)
  }

  predicate Resp2Kind(f: Frame) {
    f.SimpleString? || f.SimpleError? || f.Integer? || f.BulkString? || f.NullBulk? || f.NullArray? || f.Array?
  }

  predicate Resp3Kind(f: Frame) {
    || f.SimpleString? || f.SimpleError? || f.Integer? || f.BulkString? || f.Array? || f.Null? || f.Boolean?
    || f.Double? || f.BigNumber? || f.BulkError? || f.VerbatimString? || f.Map? || f.Set? || f.Inline?
  }

  /** The bounds of a generated frame, in numbers and kinds. */
  lemma GeneratedIsSmall(config: Config, f: Frame)
    requires Generated(config, f, 1)
    ensures Depth(f) <= 3 && Nodes(f) <= 41 && Every(f, SmallNode)
    ensures !config.violations && config.protocol.Resp2? ==> Every(f, Resp2Kind)
    ensures !config.violations && config.protocol.Resp3? ==> Every(f, Resp3Kind) && Every(f, IsNoInline)
  {
    hide Every, Depth, Nodes, PlainNode;
    if config.violations {
      EveryWeaken(f, BoundedNode, SmallNode);
    } else if config.protocol.Resp2? {
      EveryWeaken(f, Resp2Node, SmallNode);
      EveryWeaken(f, Resp2Node, Resp2Kind);
    } else {
      EveryWeaken(f, Resp3Node, SmallNode);
      EveryWeaken(f, Resp3Node, Resp3Kind);
      InlineIsNotPlain();
      EveryWeaken(f, Resp3Node, IsNoInline);
    }
  }

  predicate IsNoInline(f: Frame) { !f.Inline? }

  lemma InlineIsNotPlain()
    ensures forall f :: Resp3Node(f) ==> !f.Inline?
  {}

  /** The corpus of big numbers. */
  lemma BigNumbersSpelled(s: bytes)
    ensures IsBigBoundary(s) <==>
      || s == Decimal(0) || s == Decimal(-1) || s == Decimal(9223372036854775807) || s == Decimal(9223372036854775808)
      || s == Decimal(-9223372036854775809) || s == Decimal(18446744073709551615) || s == Decimal(18446744073709551616)
      || s == Decimal(340282366920938463463374607431768211455) || s == Decimal(-340282366920938463463374607431768211455)
  {
    hide Decimal;
    var n := BIG_NUMBERS;
    var k := if s == Decimal(n[0]) then 0 else if s == Decimal(n[1]) then 1 else if s == Decimal(n[2]) then 2
             else if s == Decimal(n[3]) then 3 else if s == Decimal(n[4]) then 4 else if s == Decimal(n[5]) then 5
             else if s == Decimal(n[6]) then 6 else if s == Decimal(n[7]) then 7 else 8;
    assert s == Decimal(n[k]) ==> IsBigBoundary(s);
  }

  // -------------------------------------------------------------------- scalars

  method Boundary(config: Config) returns (b: bool)
    ensures b ==> config.boundary
  {
    b := Draws.ShouldApply(config.boundary);
  }

  method Violate(config: Config) returns (b: bool)
    ensures b ==> config.violations
  {
    b := Draws.ShouldApply(config.violations);
  }

  method Count(config: Config) returns (n: nat)
    ensures n <= MAX_ITEMS
  {
    var boundary := Boundary(config);
    if boundary {
      var k := Draws.Below(3);
      n := [0, 1, MAX_ITEMS][k];
    } else {
      n := Draws.Below(MAX_ITEMS + 1);
    }
  }

  method RandomInteger(config: Config) returns (n: int)
    ensures IsI64(n)
  {
    var boundary := Boundary(config);
    if boundary {
      var k := Draws.Below(|INTEGERS|);
      n := INTEGERS[k];
    } else {
      var k := Draws.Below(I64_MAX - I64_MIN + 1);
      n := I64_MIN + k;
    }
  }

  method RandomLine(config: Config) returns (s: bytes)
    ensures Printable(s)
  {
    var boundary := Boundary(config);
    if boundary {
      var k := Draws.Below(|LINE_NUMBERS| + 1);
      if k == 0 { return []; }
      DecimalIsPrintable(LINE_NUMBERS[k - 1]);
      s := Decimal(LINE_NUMBERS[k - 1]);
    } else {
      s := RandomText(24, 0x21, 0x7e);
    }
  }

  method RandomBlob(config: Config) returns (s: bytes)
    ensures |s| <= MAX_BLOB_BYTES
  {
    hide Decimal;
    var boundary := Boundary(config);
    if !boundary {
      var len := Draws.Below(257);
      s := RandomBytes(len);
      return;
    }
    var numeric := Draws.Flip();
    if numeric {
      var k := Draws.Below(|BIG_NUMBERS|);
      BigNumberLength(BIG_NUMBERS[k]);
      s := Decimal(BIG_NUMBERS[k]);
      return;
    }
    var k := Draws.Below(|SIZES|);
    var p := Draws.Below(|PATTERNS|);
    s := Repeated(SIZES[k], PATTERNS[p]);
  }

  function Repeated(len: nat, pattern: bytes): (s: bytes)
    requires pattern != []
    ensures |s| == len
  {
    seq(len, i requires 0 <= i < len => pattern[i % |pattern|])
  }

  const TEN_39: int := 10_000_000_000_000 * 10_000_000_000_000 * 10_000_000_000_000

  lemma {:induction false} Pow10Sum(m: nat, n: nat)
    ensures Pow10(m + n) == Pow10(m) * Pow10(n)
  {
    if m > 0 { Pow10Sum(m - 1, n); }
  }

  lemma BigNumberLength(n: int)
    requires -TEN_39 < n < TEN_39
    ensures |Decimal(n)| <= 40
  {
    Pow10Sum(13, 13);
    Pow10Sum(26, 13);
    assert Pow10(13) == 10_000_000_000_000;
    DigitsLength(if n < 0 then -n else n, 39);
    hide Digits, Pow10;
  }

  /** The draws for a number: the coins for a violation and for the corpus, and the
      places in the malformed texts and in the corpus. */
  datatype NumberDraws = NumberDraws(violate: bool, boundary: bool, malformed: nat -> nat, corpus: nat -> nat)

  ghost predicate AreDraws(d: NumberDraws) { Draws.IsDraw(d.malformed) && Draws.IsDraw(d.corpus) }

  method AnyNumberDraws() returns (d: NumberDraws)
    ensures AreDraws(d)
  {
    var violate := Draws.Flip();
    var boundary := Draws.Flip();
    var malformed := Draws.AnyDraw();
    var corpus := Draws.AnyDraw();
    d := NumberDraws(violate, boundary, malformed, corpus);
  }

  /** The listed double that the draws give; a violation comes first, and only a
      number that is neither one nor from the corpus is random. */
  function ListedDouble(config: Config, overflow: bool, d: NumberDraws): (r: Option<bytes>)
    ensures r.Some? ==> Printable(r.value)
  {
    if config.violations && d.violate then Some(DoubleText(11 + d.malformed(3)))
    else if overflow || (config.boundary && d.boundary) then Some(DoubleText(d.corpus(11)))
    else None
  }

  function ListedBigNumber(config: Config, overflow: bool, d: NumberDraws): (r: Option<bytes>)
    requires d.corpus(|BIG_NUMBERS|) < |BIG_NUMBERS|
    ensures r.Some? ==> Printable(r.value)
  {
    if config.violations && d.violate then Some(BadBigNumber(d.malformed(4)))
    else if overflow || (config.boundary && d.boundary) then
      var n: int := BIG_NUMBERS[d.corpus(|BIG_NUMBERS|)];
      DecimalIsPrintable(n);
      Some(Decimal(n))
    else None
  }

  method RandomDouble(config: Config, overflow: bool, d: NumberDraws) returns (s: bytes)
    requires AreDraws(d)
    ensures Printable(s)
    ensures ListedDouble(config, overflow, d).Some? ==> s == ListedDouble(config, overflow, d).value
    ensures overflow ==> IsDoubleBoundary(s) || (config.violations && IsMalformedDouble(s))
  {
    hide DoubleText, Ascii;
    if config.violations && d.violate { return DoubleText(11 + d.malformed(3)); }
    if overflow || (config.boundary && d.boundary) {
      s := DoubleText(d.corpus(11));
    } else {
      // A finite double prints as a sign, digits and a point.
      s := RandomText(400, 0x2d, 0x39);
    }
  }

  method RandomBigNumber(config: Config, overflow: bool, d: NumberDraws) returns (s: bytes)
    requires AreDraws(d)
    ensures Printable(s)
    ensures ListedBigNumber(config, overflow, d).Some? ==> s == ListedBigNumber(config, overflow, d).value
    ensures IsBigNumber(s) || (config.violations && IsMalformedBig(s))
    ensures overflow ==> IsBigBoundary(s) || (config.violations && IsMalformedBig(s))
  {
    hide BadBigNumber, Ascii, Decimal;
    if config.violations && d.violate { return BadBigNumber(d.malformed(4)); }
    if overflow || (config.boundary && d.boundary) {
      var k := d.corpus(|BIG_NUMBERS|);
      DecimalIsPrintable(BIG_NUMBERS[k]);
      BoundaryIsBigNumber(k);
      s := Decimal(BIG_NUMBERS[k]);
    } else {
      var negative := Draws.Flip();
      var n := Draws.Below(TWO_128);
      DecimalIsPrintable(n);
      s := if negative then [MINUS] + Decimal(n) else Decimal(n);
    }
  }

  function Truncated(s: bytes, max: nat): (r: bytes) { if |s| > max then s[..max] else s }

  method RandomBulkError(config: Config) returns (s: bytes)
    ensures |s| <= MAX_BLOB_BYTES && Ascii("ERR ") <= s
  {
    var blob := RandomBlob(config);
    s := Truncated(Ascii("ERR ") + blob, MAX_BLOB_BYTES);
  }

  method RandomVerbatim(config: Config) returns (s: bytes)
    ensures |s| <= MAX_BLOB_BYTES
    ensures !config.violations ==> Ascii("txt:") <= s
  {
    var violate := Violate(config);
    if violate { return Ascii("bad"); }
    var blob := RandomBlob(config);
    s := Truncated(Ascii("txt:") + blob, MAX_BLOB_BYTES);
  }

  // --------------------------------------------------------------------- frames

  lemma {:induction false} AllowedAppend(config: Config, fs: seq<Frame>, g: Frame)
    requires AllowedAll(config, fs) && Allowed(config, g)
    ensures AllowedAll(config, fs + [g])
    ensures DepthAll(fs + [g]) == Max(DepthAll(fs), Depth(g))
    ensures NodesAll(fs + [g]) == NodesAll(fs) + Nodes(g)
  {
    if fs == [] {
      assert [] + [g] == [g] && [g][1..] == [];
    } else {
      hide Every, Depth, Nodes;
      assert (fs + [g])[1..] == fs[1..] + [g];
      AllowedAppend(config, fs[1..], g);
    }
  }

  datatype Kind =
    | StringKind | ErrorKind | IntegerKind | BlobKind | NullBlobKind | NullArrayKind | ArrayKind | NullKind
    | BooleanKind | DoubleKind | BigNumberKind | BulkErrorKind | VerbatimKind | MapKind | SetKind

  const RESP2_KINDS: seq<Kind> := [StringKind, ErrorKind, IntegerKind, BlobKind, NullBlobKind, NullArrayKind, ArrayKind]
  const RESP3_KINDS: seq<Kind> := [
    StringKind, ErrorKind, IntegerKind, BlobKind, NullKind, BooleanKind, DoubleKind, BigNumberKind, BulkErrorKind,
    VerbatimKind, ArrayKind, MapKind, SetKind]

  predicate IsContainer(kind: Kind) { kind.ArrayKind? || kind.MapKind? || kind.SetKind? }

  predicate KindAllowed(config: Config, kind: Kind) {
    if config.protocol.Resp2? then
      kind.StringKind? || kind.ErrorKind? || kind.IntegerKind? || kind.BlobKind? || kind.NullBlobKind?
      || kind.NullArrayKind? || kind.ArrayKind?
    else !kind.NullBlobKind? && !kind.NullArrayKind?
  }

  method RandomFrame(config: Config) returns (f: Frame)
    ensures Generated(config, f, 1)
  {
    f := FrameAtDepth(config, 1);
  }

  method FrameAtDepth(config: Config, depth: nat) returns (f: Frame)
    requires 1 <= depth <= MAX_DEPTH
    ensures Generated(config, f, depth)
    decreases MAX_DEPTH - depth, 2
  {
    hide Generated;
    var violate := Violate(config);
    if violate {
      f := Violation(config, depth);
      return;
    }
    var kinds := if config.protocol.Resp2? then RESP2_KINDS else RESP3_KINDS;
    var available := if depth == MAX_DEPTH then |kinds| - (if config.protocol.Resp2? then 1 else 3) else |kinds|;
    var k := Draws.Below(available);
    if IsContainer(kinds[k]) {
      f := BuildContainer(config, kinds[k], depth);
    } else {
      f := BuildScalar(config, kinds[k]);
      GeneratedScalar(config, f, depth);
    }
  }

  predicate Builds(kind: Kind, f: Frame) {
    match kind
    case StringKind => f.SimpleString? && Printable(f.text)
    case ErrorKind => f.SimpleError? && Printable(f.text) && Ascii("ERR ") <= f.text
    case IntegerKind => f.Integer? && IsI64(f.number)
    case BlobKind => f.BulkString? && |f.body| <= MAX_BLOB_BYTES
    case NullBlobKind => f.NullBulk?
    case NullArrayKind => f.NullArray?
    case NullKind => f.Null?
    case BooleanKind => f.Boolean?
    case DoubleKind => f.Double? && Printable(f.text)
    case BigNumberKind => f.BigNumber? && Printable(f.text)
    case BulkErrorKind => f.BulkError? && |f.body| <= MAX_BLOB_BYTES && Ascii("ERR ") <= f.body
    case VerbatimKind => f.VerbatimString? && |f.body| <= MAX_BLOB_BYTES
    case _ => false
  }

  lemma BuiltScalar(config: Config, kind: Kind, f: Frame)
    requires KindAllowed(config, kind) && Builds(kind, f)
    ensures AllowedNode(config, f) && !IsAggregate(f)
  {
    BuiltIsBounded(kind, f);
    hide BoundedNode, IsText, Printable, Ascii;
  }

  lemma BuiltIsBounded(kind: Kind, f: Frame)
    requires Builds(kind, f)
    ensures BoundedNode(f) && !IsAggregate(f)
  {
    BuiltIsPlain(kind, f);
    hide PlainNode, Printable, Ascii;
  }

  lemma BuiltIsPlain(kind: Kind, f: Frame)
    requires Builds(kind, f)
    ensures PlainNode(f)
  {
    hide IsText, Printable, Ascii;
    if f.SimpleString? || f.SimpleError? || f.Double? || f.BigNumber? { PrintableIsText(f.text); }
  }

  method BuildScalar(config: Config, kind: Kind) returns (f: Frame)
    requires KindAllowed(config, kind) && !IsContainer(kind)
    ensures Builds(kind, f) && AllowedNode(config, f) && !IsAggregate(f)
  {
    hide Ascii, AllowedNode, KindAllowed;
    match kind {
      case StringKind => var s := RandomLine(config); f := SimpleString(s);
      case ErrorKind => var s := RandomLine(config); f := SimpleError(Ascii("ERR ") + s);
      case IntegerKind => var n := RandomInteger(config); f := Integer(n);
      case BlobKind => var s := RandomBlob(config); f := BulkString(s);
      case NullBlobKind => f := NullBulk;
      case NullArrayKind => f := NullArray;
      case NullKind => f := Null;
      case BooleanKind => var b := Draws.Flip(); f := Boolean(b);
      case DoubleKind =>
        var d := AnyNumberDraws();
        var s := RandomDouble(config, false, d);
        f := Double(s);
      case BigNumberKind =>
        var d := AnyNumberDraws();
        var s := RandomBigNumber(config, false, d);
        f := BigNumber(s);
      case BulkErrorKind => var s := RandomBulkError(config); f := BulkError(s);
      case VerbatimKind => var s := RandomVerbatim(config); f := VerbatimString(s);
    }
    BuiltScalar(config, kind, f);
  }

  /** Malformed and sideband frames, only on request. */
  method Violation(config: Config, depth: nat) returns (f: Frame)
    requires config.violations && 1 <= depth <= MAX_DEPTH
    ensures Generated(config, f, depth)
  {
    hide Ascii, BoundedNode, Generated;
    var sideband := depth < MAX_DEPTH;
    var kinds := (if sideband then 5 else 3) + (if config.protocol.Resp2? then 1 else 0);
    var k := Draws.Below(kinds);
    if k == 3 && sideband {
      f := Push([BulkString(Ascii("message"))]);
    } else if k == 4 && sideband {
      f := Attribute([Entry(SimpleString(Ascii("meta")), Integer(1))]);
    } else {
      f := if k == 0 then Double(Ascii("1e")) else if k == 1 then BigNumber(Ascii("12x"))
           else if k == 2 then VerbatimString(Ascii("bad")) else Boolean(true);
    }
    ViolationsFit(config, f, depth);
  }

  lemma ViolationsFit(config: Config, f: Frame, depth: nat)
    requires config.violations && 1 <= depth <= MAX_DEPTH
    requires
      || (f.Double? && Printable(f.text)) || (f.BigNumber? && Printable(f.text))
      || (f.VerbatimString? && |f.body| == 3) || f.Boolean?
      || (depth < MAX_DEPTH && f.Push? && |f.items| == 1 && f.items[0].BulkString? && |f.items[0].body| <= 7)
      || (depth < MAX_DEPTH && f.Attribute? && |f.entries| == 1 && f.entries[0].value == Integer(1)
          && f.entries[0].key.SimpleString? && Printable(f.entries[0].key.text))
    ensures Generated(config, f, depth)
  {
    if f.Push? {
      hide Generated, IsText;
      GeneratedSideband(config, f, depth);
    } else if f.Attribute? {
      PrintableIsText(f.entries[0].key.text);
      hide Generated, IsText;
      assert Children(f) == [f.entries[0].key, f.entries[0].value];
      GeneratedSideband(config, f, depth);
    } else {
      if f.Double? || f.BigNumber? { PrintableIsText(f.text); }
      hide Generated, IsText;
      GeneratedScalar(config, f, depth);
    }
  }

  lemma GeneratedSideband(config: Config, f: Frame, depth: nat)
    requires config.violations && 1 <= depth < MAX_DEPTH && BoundedNode(f)
    requires |Children(f)| <= 2 && forall i :: 0 <= i < |Children(f)| ==> BoundedNode(Children(f)[i]) && !IsAggregate(Children(f)[i])
    ensures Generated(config, f, depth)
  {
    var fs := Children(f);
    hide Children, BoundedNode, IsAggregate;
    ScalarsAllowed(config, fs);
    GeneratedAggregate(config, f, depth);
  }

  lemma {:induction false} ScalarsAllowed(config: Config, fs: seq<Frame>)
    requires config.violations
    requires forall i :: 0 <= i < |fs| ==> BoundedNode(fs[i]) && !IsAggregate(fs[i])
    ensures AllowedAll(config, fs) && DepthAll(fs) <= 1 && NodesAll(fs) == |fs|
  {
    if fs != [] {
      assert Children(fs[0]) == [];
      EveryLeaf(fs[0], BoundedNode);
      NodesOfChildren(fs[0]);
      assert Depth(fs[0]) == 1;
      hide Every, Depth;
      ScalarsAllowed(config, fs[1..]);
    }
  }

  // ----------------------------------------------------------------- containers

  method BuildContainer(config: Config, kind: Kind, depth: nat) returns (f: Frame)
    requires 1 <= depth < MAX_DEPTH && KindAllowed(config, kind) && IsContainer(kind)
    ensures Generated(config, f, depth)
    ensures (kind.ArrayKind? ==> f.Array?) && (kind.SetKind? ==> f.Set?) && (kind.MapKind? ==> f.Map?)
    decreases MAX_DEPTH - depth, 1
  {
    hide Generated, AllowedAll, DepthAll, NodesAll;
    var count := Count(config);
    match kind
    case ArrayKind =>
      var items := BuildItems(config, count, depth);
      f := Array(items);
      GeneratedAggregate(config, f, depth);
    case SetKind =>
      var items := BuildSet(config, count, depth);
      f := Set(items);
      GeneratedAggregate(config, f, depth);
    case MapKind =>
      var entries := BuildEntries(config, count, depth);
      f := Map(entries);
      GeneratedAggregate(config, f, depth);
  }

  /** Children that fit below a container at `depth`. */
  ghost predicate Fitting(config: Config, fs: seq<Frame>, depth: nat) {
    AllowedAll(config, fs) && DepthAll(fs) <= MAX_DEPTH - depth
  }

  lemma FittingNone(config: Config, depth: nat)
    requires depth <= MAX_DEPTH
    ensures Fitting(config, [], depth) && NodesAll([]) == 0
  {}

  lemma FittingAppend(config: Config, fs: seq<Frame>, g: Frame, depth: nat)
    requires depth < MAX_DEPTH && Fitting(config, fs, depth) && Generated(config, g, depth + 1)
    ensures Fitting(config, fs + [g], depth) && NodesAll(fs + [g]) <= NodesAll(fs) + NodeBound(depth + 1)
  {
    hide AllowedAll, Allowed, DepthAll, NodesAll, Depth, Nodes;
    AllowedAppend(config, fs, g);
  }

  method BuildItems(config: Config, count: nat, depth: nat) returns (items: seq<Frame>)
    requires 1 <= depth < MAX_DEPTH && count <= MAX_ITEMS
    ensures |items| == count && AllowedAll(config, items) && DepthAll(items) <= MAX_DEPTH - depth
    ensures NodesAll(items) <= if depth == 1 then 40 else 8
    decreases MAX_DEPTH - depth, 0
  {
    hide Generated, AllowedAll, DepthAll, NodesAll;
    items := [];
    FittingNone(config, depth);
    while |items| < count
      invariant |items| <= count && Fitting(config, items, depth)
      invariant NodesAll(items) <= |items| * NodeBound(depth + 1)
    {
      var item := FrameAtDepth(config, depth + 1);
      FittingAppend(config, items, item, depth);
      items := items + [item];
    }
  }

  /** How many items are integers no smaller than `n`. */
  function IntegersFrom(items: seq<Frame>, n: int): (c: nat)
    ensures c <= |items|
  {
    if items == [] then 0
    else (if items[0].Integer? && items[0].number >= n then 1 else 0) + IntegersFrom(items[1..], n)
  }

  lemma {:induction false} IntegersFromStep(items: seq<Frame>, n: int)
    ensures IntegersFrom(items, n + 1) <= IntegersFrom(items, n)
    ensures Integer(n) in items ==> IntegersFrom(items, n + 1) < IntegersFrom(items, n)
  {
    if items != [] {
      IntegersFromStep(items[1..], n);
      assert Integer(n) in items ==> items[0] == Integer(n) || Integer(n) in items[1..];
    }
  }

  /** Duplicates are replaced by counting integers. The loop ends because every
      collision uses up an integer that is already a member. */
  method BuildSet(config: Config, count: nat, depth: nat) returns (items: seq<Frame>)
    requires 1 <= depth < MAX_DEPTH && count <= MAX_ITEMS
    ensures |items| == count && AllowedAll(config, items) && DepthAll(items) <= MAX_DEPTH - depth
    ensures NodesAll(items) <= if depth == 1 then 40 else 8
    ensures forall i, j :: 0 <= i < j < |items| ==> items[i] != items[j]
    decreases MAX_DEPTH - depth, 0
  {
    hide Generated, AllowedAll, DepthAll, NodesAll;
    items := [];
    FittingNone(config, depth);
    while |items| < count
      invariant |items| <= count && Fitting(config, items, depth)
      invariant NodesAll(items) <= |items| * NodeBound(depth + 1)
      invariant forall i, j :: 0 <= i < j < |items| ==> items[i] != items[j]
    {
      var item := FrameAtDepth(config, depth + 1);
      var fallback := |items|;
      ghost var first := true;
      while item in items
        invariant |items| <= fallback && (first ==> fallback == |items|)
        invariant !first ==> item == Integer(fallback - 1)
        invariant !first ==> IntegersFrom(items, fallback - 1) + (fallback - |items|) <= |items| + 1
        invariant Generated(config, item, depth + 1)
        decreases first, IntegersFrom(items, fallback - 1)
      {
        IntegersFromStep(items, fallback - 1);
        assert IsI64(fallback);
        item := Integer(fallback);
        fallback := fallback + 1;
        first := false;
        GeneratedScalar(config, item, depth + 1);
      }
      FittingAppend(config, items, item, depth);
      items := items + [item];
    }
  }

  lemma {:induction false} FlattenAppend(entries: seq<Entry>, e: Entry)
    ensures Flatten(entries + [e]) == Flatten(entries) + [e.key] + [e.value]
  {
    if entries == [] {
      assert [] + [e] == [e] && [e][1..] == [];
    } else {
      assert (entries + [e])[1..] == entries[1..] + [e];
      FlattenAppend(entries[1..], e);
    }
  }

  function MapKey(i: nat): (s: bytes)
    ensures |s| == 4 + |Decimal(i)|
  {
    Ascii("key:") + Decimal(i)
  }

  lemma MapKeysDiffer(i: nat, j: nat)
    requires i != j
    ensures MapKey(i) != MapKey(j)
  {
    if MapKey(i) == MapKey(j) {
      hide Decimal;
      assert Decimal(i) == MapKey(i)[4..] && Decimal(j) == MapKey(j)[4..];
      DecimalInjective(i, j);
    }
  }

  method BuildEntries(config: Config, count: nat, depth: nat) returns (entries: seq<Entry>)
    requires 1 <= depth < MAX_DEPTH && count <= MAX_ITEMS && config.protocol.Resp3?
    ensures |entries| == count && AllowedAll(config, Flatten(entries)) && DepthAll(Flatten(entries)) <= MAX_DEPTH - depth
    ensures NodesAll(Flatten(entries)) <= if depth == 1 then 40 else 8
    ensures forall i, j :: 0 <= i < j < |entries| ==> entries[i].key != entries[j].key
    decreases MAX_DEPTH - depth, 0
  {
    hide Generated, AllowedAll, DepthAll, NodesAll, Flatten, MapKey;
    entries := [];
    FittingNone(config, depth);
    assert Flatten([]) == [] by { FlattenNone(); }
    while |entries| < count
      invariant |entries| <= count && Fitting(config, Flatten(entries), depth)
      invariant NodesAll(Flatten(entries)) <= |entries| * (1 + NodeBound(depth + 1))
      invariant forall i :: 0 <= i < |entries| ==> entries[i].key == BulkString(MapKey(i))
    {
      var i := |entries|;
      var value := FrameAtDepth(config, depth + 1);
      var entry := Entry(BulkString(MapKey(i)), value);
      KeyFits(config, Flatten(entries), i, depth);
      FittingAppend(config, Flatten(entries) + [entry.key], value, depth);
      FlattenAppend(entries, entry);
      entries := entries + [entry];
    }
    forall i, j | 0 <= i < j < |entries| ensures entries[i].key != entries[j].key { MapKeysDiffer(i, j); }
  }

  lemma FlattenNone()
    ensures Flatten([]) == []
  {}

  lemma KeyFits(config: Config, fs: seq<Frame>, i: nat, depth: nat)
    requires 1 <= depth < MAX_DEPTH && Fitting(config, fs, depth) && i < MAX_ITEMS && config.protocol.Resp3?
    ensures var key := BulkString(MapKey(i));
      Fitting(config, fs + [key], depth) && NodesAll(fs + [key]) == NodesAll(fs) + 1
  {
    var key := BulkString(MapKey(i));
    assert |Decimal(i)| == 1;
    GeneratedScalar(config, key, depth + 1);
    NodesOfChildren(key);
    hide AllowedAll, Allowed, DepthAll, NodesAll, Depth, MapKey, Decimal;
    AllowedAppend(config, fs, key);
  }
}
