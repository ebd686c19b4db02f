/** The UTF-8 predicate means what it should: valid bytes are exactly the encodings
    of sequences of Unicode scalar values (RFC 3629, section 3). */
module Unicode {
  import opened Bytes

  predicate IsScalar(c: nat) { c < 0xd800 || 0xe000 <= c < 0x11_0000 }

  function Utf8Of(c: nat): (s: bytes)
    requires IsScalar(c)
    ensures 1 <= |s| <= 4
  {
    if c < 0x80 then [c]
    else if c < 0x800 then [0xc0 + c / 0x40, 0x80 + c % 0x40]
    else if c < 0x1_0000 then [0xe0 + c / 0x1000, 0x80 + c / 0x40 % 0x40, 0x80 + c % 0x40]
    else [0xf0 + c / 0x4_0000, 0x80 + c / 0x1000 % 0x40, 0x80 + c / 0x40 % 0x40, 0x80 + c % 0x40]
  }

  predicate AreScalars(cs: seq<nat>) { forall i :: 0 <= i < |cs| ==> IsScalar(cs[i]) }

  function Utf8OfAll(cs: seq<nat>): (s: bytes)
    requires AreScalars(cs)
  {
    if cs == [] then [] else Utf8Of(cs[0]) + Utf8OfAll(cs[1..])
  }

  lemma HeadOfScalar(c: nat, rest: bytes)
    requires IsScalar(c)
    ensures Utf8Head(Utf8Of(c) + rest) == |Utf8Of(c)|
  {
    var head := Utf8Of(c);
    var s := head + rest;
    assert |s| >= |head| && forall i :: 0 <= i < |head| ==> s[i] == head[i];
    ScalarRanges(c);
    hide Utf8Of;
    HeadLength(s, |head|);
  }

  /** The bytes of a head of `n` bytes. */
  predicate InRanges(s: bytes, n: nat) {
    && 1 <= n <= 4 && n <= |s| && (forall i :: 1 <= i < n ==> 0x80 <= s[i] < 0xc0)
    && (n == 1 ==> s[0] < 0x80) && (n == 2 ==> 0xc2 <= s[0] <= 0xdf)
    && (n == 3 ==> 0xe0 <= s[0] <= 0xef && (s[0] == 0xe0 ==> s[1] >= 0xa0) && (s[0] == 0xed ==> s[1] < 0xa0))
    && (n == 4 ==> 0xf0 <= s[0] <= 0xf4 && (s[0] == 0xf0 ==> s[1] >= 0x90) && (s[0] == 0xf4 ==> s[1] < 0x90))
  }

  lemma HeadLength(s: bytes, n: nat)
    requires InRanges(s, n)
    ensures Utf8Head(s) == n
  {}

  lemma ScalarRanges(c: nat)
    requires IsScalar(c)
    ensures InRanges(Utf8Of(c), |Utf8Of(c)|)
  {
    if c >= 0x1_0000 {
      FourBytes(c);
    } else if c >= 0x800 {
      ThreeBytes(c);
    }
  }

  lemma ThreeBytes(c: nat)
    requires 0x800 <= c < 0x1_0000 && IsScalar(c)
    ensures var a, b := c / 0x1000, c / 0x40 % 0x40; a < 0x10 && (a == 0 ==> b >= 0x20) && (a == 13 ==> b < 0x20)
  {
    assert c / 0x40 % 0x40 == c / 0x40 - 0x40 * (c / 0x1000);
  }

  lemma FourBytes(c: nat)
    requires 0x1_0000 <= c < 0x11_0000
    ensures var a, b := c / 0x4_0000, c / 0x1000 % 0x40; a <= 4 && (a == 0 ==> b >= 0x10) && (a == 4 ==> b < 0x10)
  {
    assert c / 0x1000 % 0x40 == c / 0x1000 - 0x40 * (c / 0x4_0000);
  }

  /** The scalar value that the first bytes encode. */
  function ScalarAt(s: bytes): (c: nat)
    requires s != [] && Utf8Head(s) > 0
  {
    var n := Utf8Head(s);
    if n == 1 then s[0]
    else if n == 2 then Two(s[0] - 0xc0, s[1] - 0x80)
    else if n == 3 then Three(s[0] - 0xe0, s[1] - 0x80, s[2] - 0x80)
    else Four(s[0] - 0xf0, s[1] - 0x80, s[2] - 0x80, s[3] - 0x80)
  }

  function Two(a: nat, b: nat): (c: nat) { a * 0x40 + b }

  function Three(a: nat, b: nat, c: nat): (d: nat) { a * 0x1000 + b * 0x40 + c }

  function Four(a: nat, b: nat, c: nat, d: nat): (e: nat) { a * 0x4_0000 + b * 0x1000 + c * 0x40 + d }

  lemma HeadIsScalar(s: bytes)
    requires s != [] && Utf8Head(s) > 0
    ensures IsScalar(ScalarAt(s)) && Utf8Of(ScalarAt(s)) == s[..Utf8Head(s)]
  {
    hide Utf8Head, Two, Three, Four, Utf8Of, IsScalar;
    var n := Utf8Head(s);
    HeadRanges(s);
    if n == 1 {
      OneIs(s[0]);
      assert s[..1] == [s[0]];
    } else if n == 2 {
      TwoIs(s[0] - 0xc0, s[1] - 0x80);
      assert s[..2] == [s[0], s[1]];
    } else if n == 3 {
      ThreeIs(s[0] - 0xe0, s[1] - 0x80, s[2] - 0x80);
      assert s[..3] == [s[0], s[1], s[2]];
    } else {
      FourIs(s[0] - 0xf0, s[1] - 0x80, s[2] - 0x80, s[3] - 0x80);
      assert s[..4] == [s[0], s[1], s[2], s[3]];
    }
  }

  /** What a head of each length may hold. */
  lemma HeadRanges(s: bytes)
    requires s != [] && Utf8Head(s) > 0
    ensures InRanges(s, Utf8Head(s))
  {}

  lemma OneIs(a: byte)
    requires a < 0x80
    ensures IsScalar(a) && Utf8Of(a) == [a]
  {}

  lemma TwoIs(a: nat, b: nat)
    requires 2 <= a < 0x20 && b < 0x40
    ensures IsScalar(Two(a, b)) && Utf8Of(Two(a, b)) == [0xc0 + a, 0x80 + b]
  {
    Digits2(a, b);
  }

  lemma ThreeIs(a: nat, b: nat, c: nat)
    requires a < 0x10 && b < 0x40 && c < 0x40 && (a == 0 ==> b >= 0x20) && (a == 13 ==> b < 0x20)
    ensures IsScalar(Three(a, b, c)) && Utf8Of(Three(a, b, c)) == [0xe0 + a, 0x80 + b, 0x80 + c]
  {
    Digits3(a, b, c);
    ThreeRange(a, b, c);
    hide Three;
  }

  lemma FourIs(a: nat, b: nat, c: nat, d: nat)
    requires a <= 4 && b < 0x40 && c < 0x40 && d < 0x40 && (a == 0 ==> b >= 0x10) && (a == 4 ==> b < 0x10)
    ensures IsScalar(Four(a, b, c, d)) && Utf8Of(Four(a, b, c, d)) == [0xf0 + a, 0x80 + b, 0x80 + c, 0x80 + d]
  {
    Digits4(a, b, c, d);
    FourRange(a, b, c, d);
    hide Four;
  }

  lemma ThreeRange(a: nat, b: nat, c: nat)
    requires a < 0x10 && b < 0x40 && c < 0x40 && (a == 0 ==> b >= 0x20) && (a == 13 ==> b < 0x20)
    ensures var d := Three(a, b, c); 0x800 <= d < 0x1_0000 && IsScalar(d)
  {}

  lemma FourRange(a: nat, b: nat, c: nat, d: nat)
    requires a <= 4 && b < 0x40 && c < 0x40 && d < 0x40 && (a == 0 ==> b >= 0x10) && (a == 4 ==> b < 0x10)
    ensures var e := Four(a, b, c, d); 0x1_0000 <= e < 0x11_0000
  {}

  lemma Digits2(a: nat, b: nat)
    requires b < 0x40
    ensures var c := Two(a, b); c / 0x40 == a && c % 0x40 == b
  {}

  lemma Digits3(a: nat, b: nat, c: nat)
    requires b < 0x40 && c < 0x40
    ensures var d := Three(a, b, c); d / 0x1000 == a && d / 0x40 % 0x40 == b && d % 0x40 == c
  {
    var d := a * 0x1000 + b * 0x40 + c;
    assert d == (a * 0x40 + b) * 0x40 + c;
    assert d / 0x40 == a * 0x40 + b;
  }

  lemma Digits4(a: nat, b: nat, c: nat, d: nat)
    requires b < 0x40 && c < 0x40 && d < 0x40
    ensures var e := Four(a, b, c, d);
      e / 0x4_0000 == a && e / 0x1000 % 0x40 == b && e / 0x40 % 0x40 == c && e % 0x40 == d
  {
    var e := a * 0x4_0000 + b * 0x1000 + c * 0x40 + d;
    Digits3(a, b, c);
    var f := a * 0x1000 + b * 0x40 + c;
    assert e == f * 0x40 + d && e / 0x40 == f;
    assert e / 0x1000 == a * 0x40 + b;
  }

  lemma {:induction false} ScalarsAreValid(cs: seq<nat>)
    requires AreScalars(cs)
    ensures ValidUtf8(Utf8OfAll(cs))
  {
    if cs != [] {
      var head, rest := Utf8Of(cs[0]), Utf8OfAll(cs[1..]);
      HeadOfScalar(cs[0], rest);
      ScalarsAreValid(cs[1..]);
      assert (head + rest)[|head|..] == rest;
      hide Utf8Head, Utf8Of;
    }
  }

  lemma {:induction false} ValidIsScalars(s: bytes) returns (cs: seq<nat>)
    requires ValidUtf8(s)
    ensures AreScalars(cs) && Utf8OfAll(cs) == s
    decreases |s|
  {
    hide Utf8Head, Utf8Of, ScalarAt;
    if s == [] {
      cs := [];
    } else {
      var n := Utf8Head(s);
      HeadIsScalar(s);
      var rest := ValidIsScalars(s[n..]);
      cs := [ScalarAt(s)] + rest;
      assert cs[1..] == rest && s == s[..n] + s[n..];
    }
  }

  /** Bytes are valid exactly when they encode some sequence of scalar values: neither
      overlong forms, nor surrogates, nor values past the last one. */
  lemma ValidUtf8IsExact(s: bytes)
    ensures ValidUtf8(s) <==> exists cs: seq<nat> :: AreScalars(cs) && Utf8OfAll(cs) == s
  {
    if ValidUtf8(s) { var cs := ValidIsScalars(s); }
    forall cs: seq<nat> | AreScalars(cs) && Utf8OfAll(cs) == s ensures ValidUtf8(s) { ScalarsAreValid(cs); }
  }
}
