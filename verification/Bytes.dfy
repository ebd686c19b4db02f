/** Bytes, decimal numbers and CRLF-terminated lines: the lexical level of the
    Redis serialization protocol. */
module Bytes {
  type byte = b: int | 0 <= b < 256
  type bytes = seq<byte>

  datatype Option<+T> = None | Some(value: T)

  const CR: byte := 13
  const LF: byte := 10
  const MINUS: byte := 45
  const PLUS: byte := 43
  const CRLF: bytes := [CR, LF]
  const I64_MAX: int := 0x7fff_ffff_ffff_ffff
  const U64_MAX: int := 0xffff_ffff_ffff_ffff
  const I64_MIN: int := -0x8000_0000_0000_0000

  predicate IsI64(n: int) { I64_MIN <= n <= I64_MAX }

  lemma Assoc<T>(a: seq<T>, b: seq<T>, c: seq<T>)
    ensures (a + b) + c == a + (b + c)
  {}

  // ---------------------------------------------------------------- decimals

  predicate IsDigit(b: byte) { 48 <= b <= 57 }

  predicate AllDigits(s: bytes) { forall i :: 0 <= i < |s| ==> IsDigit(s[i]) }

  function Digits(n: nat): (s: bytes)
    ensures s != [] && AllDigits(s)
  {
    if n < 10 then [48 + n] else Digits(n / 10) + [48 + n % 10]
  }

  /** Rust's `to_string` on an integer. */
  function Decimal(n: int): (s: bytes)
    ensures s != []
    ensures forall i :: 0 <= i < |s| ==> IsDigit(s[i]) || s[i] == MINUS
  {
    if n < 0 then [MINUS] + Digits(-n) else Digits(n)
  }

  function DigitsValue(s: bytes): (n: nat)
    requires AllDigits(s)
  {
    if s == [] then 0
    else DigitsValue(s[..|s| - 1]) * 10 + (s[|s| - 1] - 48)
  }

  /** Rust's `str::parse::<i64>`: one optional sign, at least one digit, and a
      value in range. Leading zeros are accepted. */
  function ParseI64(s: bytes): (r: Option<int>)
    ensures r.Some? ==> IsI64(r.value)
    ensures r.Some? ==> forall i :: 0 <= i < |s| ==> IsDigit(s[i]) || s[i] == MINUS || s[i] == PLUS
  {
    if s == [] then None
    else
      var signed := s[0] == MINUS || s[0] == PLUS;
      var digits := if signed then s[1..] else s;
      if digits == [] || !AllDigits(digits) then None
      else
        assert forall i :: 0 <= i < |s| ==> i == 0 || s[i] == s[1..][i - 1];
        var magnitude: int := DigitsValue(digits);
        var value := if s[0] == MINUS then -magnitude else magnitude;
        if IsI64(value) then Some(value) else None
  }

  lemma {:induction false} DigitsRoundTrip(n: nat)
    ensures DigitsValue(Digits(n)) == n
  {
    if n >= 10 {
      DigitsRoundTrip(n / 10);
      assert Digits(n)[..|Digits(n)| - 1] == Digits(n / 10);
    } else {
      assert Digits(n)[..0] == [];
    }
  }

  lemma DecimalRoundTrip(n: int)
    requires IsI64(n)
    ensures ParseI64(Decimal(n)) == Some(n)
  {
    if n < 0 {
      DigitsRoundTrip(-n);
      assert Decimal(n)[1..] == Digits(-n);
    } else {
      DigitsRoundTrip(n);
      assert IsDigit(Digits(n)[0]);
    }
  }

  lemma DecimalInjective(m: int, n: int)
    requires Decimal(m) == Decimal(n)
    ensures m == n
  {
    DigitsRoundTrip(if m < 0 then -m else m);
    DigitsRoundTrip(if n < 0 then -n else n);
    assert (Decimal(m)[0] == MINUS) == (m < 0) && (Decimal(n)[0] == MINUS) == (n < 0) by {
      assert m >= 0 ==> IsDigit(Digits(m)[0]);
      assert n >= 0 ==> IsDigit(Digits(n)[0]);
    }
    if m < 0 {
      assert Decimal(m)[1..] == Digits(-m) && Decimal(n)[1..] == Digits(-n);
    }
  }

  // ------------------------------------------------------------------- UTF-8

  predicate Continuation(b: byte) { 0x80 <= b <= 0xbf }

  /** Length of the well-formed UTF-8 sequence that starts `s` (RFC 3629,
      section 4), or zero. */
  function Utf8Head(s: bytes): (n: nat)
    requires s != []
    ensures n <= |s|
  {
    if s[0] < 0x80 then 1
    else if |s| >= 2 && 0xc2 <= s[0] <= 0xdf && Continuation(s[1]) then 2
    else if |s| >= 3 && 0xe0 <= s[0] <= 0xef && Continuation(s[1]) && Continuation(s[2])
            && (s[0] == 0xe0 ==> 0xa0 <= s[1]) && (s[0] == 0xed ==> s[1] <= 0x9f) then 3
    else if |s| >= 4 && 0xf0 <= s[0] <= 0xf4 && Continuation(s[1]) && Continuation(s[2]) && Continuation(s[3])
            && (s[0] == 0xf0 ==> 0x90 <= s[1]) && (s[0] == 0xf4 ==> s[1] <= 0x8f) then 4
    else 0
  }

  predicate ValidUtf8(s: bytes)
    decreases |s|
  {
    s == [] || (Utf8Head(s) > 0 && ValidUtf8(s[Utf8Head(s)..]))
  }

  predicate Ascii(s: bytes) { forall i :: 0 <= i < |s| ==> s[i] < 0x80 }

  lemma {:induction false} AsciiIsUtf8(s: bytes)
    requires Ascii(s)
    ensures ValidUtf8(s)
  {
    if s != [] { AsciiIsUtf8(s[1..]); }
  }

  // ------------------------------------------------------------------- lines

  predicate CrlfAt(s: bytes, i: int) { 0 <= i && i + 1 < |s| && s[i] == CR && s[i + 1] == LF }

  predicate CrlfFree(s: bytes) { forall i :: 0 <= i < |s| ==> !CrlfAt(s, i) }

  /** The text before the first CRLF, if there is one. */
  function TakeLine(s: bytes): (r: Option<bytes>)
    ensures r.Some? ==> |r.value| + 2 <= |s| && r.value == s[..|r.value|] && CrlfAt(s, |r.value|)
    ensures r.Some? ==> forall i :: 0 <= i < |r.value| ==> !CrlfAt(s, i)
    ensures r.None? <==> CrlfFree(s)
    decreases |s|
  {
    if |s| < 2 then None
    else if CrlfAt(s, 0) then Some([])
    else
      assert forall i :: 1 <= i ==> CrlfAt(s, i) == CrlfAt(s[1..], i - 1);
      var r := TakeLine(s[1..]);
      if r.None? then
        assert forall i :: CrlfAt(s, i) ==> i == 0 || CrlfAt(s[1..], i - 1);
        None
      else
        var text := [s[0]] + r.value;
        assert CrlfAt(s, |text|);
        Some(text)
  }

  lemma {:induction false} TakeLineOfLine(text: bytes, rest: bytes)
    requires CrlfFree(text)
    ensures TakeLine(text + CRLF + rest) == Some(text)
    ensures (text + CRLF + rest)[|text| + 2..] == rest
  {
    var s := text + CRLF + rest;
    assert CrlfAt(s, |text|);
    forall i | 0 <= i < |text| ensures !CrlfAt(s, i) {
      if i + 1 < |text| {
        assert CrlfAt(s, i) ==> CrlfAt(text, i);
      }
    }
    var r := TakeLine(s);
    assert |r.value| == |text|;
    assert s[..|text|] == text;
  }

  lemma DecimalIsPlain(n: int)
    ensures CrlfFree(Decimal(n)) && ValidUtf8(Decimal(n))
  {
    AsciiIsUtf8(Decimal(n));
  }
}
