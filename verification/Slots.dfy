/** Key slots of a cluster: CRC-16 of the hash tag, modulo 16384. */
module Slots {
  import opened Polynomials
  import Draws

  const SLOT_COUNT: nat := 16384

  // ------------------------------------------------------------------ the CRC

  const EXPONENTS: set<nat> := {0, 1, 2, 3, 4, 5, 6, 7, 8, 9, 10, 11, 12, 13, 14, 15}

  function Mask(i: nat): (r: bv16) {
    match i
    case 0 => 0x1
    case 1 => 0x2
    case 2 => 0x4
    case 3 => 0x8
    case 4 => 0x10
    case 5 => 0x20
    case 6 => 0x40
    case 7 => 0x80
    case 8 => 0x100
    case 9 => 0x200
    case 10 => 0x400
    case 11 => 0x800
    case 12 => 0x1000
    case 13 => 0x2000
    case 14 => 0x4000
    case 15 => 0x8000
    case _ => 0
  }

  function Sum(a: bv16, b: bv16): (r: bv16) { a ^ b }

  function Doubled(c: bv16): (r: bv16) { c << 1 }

  predicate Overflows(c: bv16) { c & 0x8000 != 0 }

  predicate Has(c: bv16, m: bv16) { c & m != 0 }

  predicate Bit(c: bv16, i: nat) { Has(c, Mask(i)) }

  predicate SingleBit(m: bv16) { m != 0 && m & (m - 1) == 0 }

  lemma MaskFacts(i: nat)
    ensures i < 16 ==> SingleBit(Mask(i))
    ensures i >= 16 ==> Mask(i) == 0
    ensures i < 15 ==> Mask(i + 1) == Doubled(Mask(i)) && !Overflows(Mask(i))
    ensures Mask(0) == 1 && Mask(15) == 0x8000
  {}

  lemma HasSum(a: bv16, b: bv16, m: bv16)
    requires SingleBit(m)
    ensures Has(Sum(a, b), m) == (Has(a, m) != Has(b, m))
  {
    OnlyBit(a, m);
    OnlyBit(b, m);
    SumMasked(a, b, m);
  }

  lemma OnlyBit(a: bv16, m: bv16)
    requires SingleBit(m)
    ensures a & m == 0 || a & m == m
  {}

  lemma SumMasked(a: bv16, b: bv16, m: bv16)
    ensures Sum(a, b) & m == (a & m) ^ (b & m)
  {}

  lemma HasDoubled(c: bv16, m: bv16)
    requires !Overflows(m)
    ensures Has(Doubled(c), Doubled(m)) == Has(c, m)
  {}

  lemma HasNone(c: bv16)
    ensures !Has(c, 0) && !Has(Doubled(c), 1)
    ensures Has(c, 0x8000) == Overflows(c)
  {}

  /** The polynomial whose coefficients are the bits of the register. */
  function PolyOf(c: bv16): (p: Poly) { set i: nat | i in EXPONENTS && Bit(c, i) }

  lemma Coefficient(c: bv16, i: nat)
    ensures i in PolyOf(c) <==> Bit(c, i)
    ensures Bit(c, i) ==> i < 16
  {
    hide Mask, Has;
    MaskFacts(i);
    HasNone(c);
    assert i < 16 ==> i in EXPONENTS;
  }

  lemma PolyOfIsSmall(c: bv16)
    ensures DegreeBelow(PolyOf(c), 16)
  {
    hide Bit;
  }

  lemma CoefficientOfSum(a: bv16, b: bv16, i: nat)
    ensures i in PolyOf(Sum(a, b)) <==> i in Add(PolyOf(a), PolyOf(b))
  {
    hide Mask, PolyOf, SingleBit, Has, Sum, Doubled, Overflows;
    Coefficient(a, i);
    Coefficient(b, i);
    Coefficient(Sum(a, b), i);
    MaskFacts(i);
    if i < 16 { HasSum(a, b, Mask(i)); }
  }

  lemma PolyOfSum(a: bv16, b: bv16)
    ensures PolyOf(Sum(a, b)) == Add(PolyOf(a), PolyOf(b))
  {
    hide *;
    forall i: nat ensures i in PolyOf(Sum(a, b)) <==> i in Add(PolyOf(a), PolyOf(b)) { CoefficientOfSum(a, b, i); }
  }

  lemma BitsDecide(a: bv16, b: bv16)
    requires Has(a, 0x1) == Has(b, 0x1) && Has(a, 0x2) == Has(b, 0x2)
    requires Has(a, 0x4) == Has(b, 0x4) && Has(a, 0x8) == Has(b, 0x8)
    requires Has(a, 0x10) == Has(b, 0x10) && Has(a, 0x20) == Has(b, 0x20)
    requires Has(a, 0x40) == Has(b, 0x40) && Has(a, 0x80) == Has(b, 0x80)
    requires Has(a, 0x100) == Has(b, 0x100) && Has(a, 0x200) == Has(b, 0x200)
    requires Has(a, 0x400) == Has(b, 0x400) && Has(a, 0x800) == Has(b, 0x800)
    requires Has(a, 0x1000) == Has(b, 0x1000) && Has(a, 0x2000) == Has(b, 0x2000)
    requires Has(a, 0x4000) == Has(b, 0x4000) && Has(a, 0x8000) == Has(b, 0x8000)
    ensures a == b
  {}

  lemma SameBit(a: bv16, b: bv16, i: nat)
    requires PolyOf(a) == PolyOf(b)
    ensures Has(a, Mask(i)) == Has(b, Mask(i))
  {
    hide Mask, PolyOf, Has;
    Coefficient(a, i);
    Coefficient(b, i);
  }

  lemma PolyOfInjective(a: bv16, b: bv16)
    requires PolyOf(a) == PolyOf(b)
    ensures a == b
  {
    hide PolyOf, Has;
    SameBit(a, b, 0); SameBit(a, b, 1); SameBit(a, b, 2); SameBit(a, b, 3);
    SameBit(a, b, 4); SameBit(a, b, 5); SameBit(a, b, 6); SameBit(a, b, 7);
    SameBit(a, b, 8); SameBit(a, b, 9); SameBit(a, b, 10); SameBit(a, b, 11);
    SameBit(a, b, 12); SameBit(a, b, 13); SameBit(a, b, 14); SameBit(a, b, 15);
    BitsDecide(a, b);
  }

  /** One step of the register. */
  function Step(c: bv16): (r: bv16) { if Overflows(c) then Sum(Doubled(c), 0x1021) else Doubled(c) }

  lemma CoefficientOfDoubled(c: bv16, i: nat)
    ensures i in PolyOf(Doubled(c)) <==> i < 16 && i in Shift(PolyOf(c), 1)
  {
    hide PolyOf, SingleBit, Mask, Has, Doubled, Overflows;
    Coefficient(Doubled(c), i);
    if i == 0 {
      MaskFacts(0);
      HasNone(c);
    } else {
      var j: nat := i - 1;
      Coefficient(c, j);
      MaskFacts(j);
      if j < 15 { HasDoubled(c, Mask(j)); }
    }
  }

  lemma PolyOfDoubled(c: bv16)
    ensures forall i: nat :: i in PolyOf(Doubled(c)) <==> i < 16 && i in Shift(PolyOf(c), 1)
    ensures Overflows(c) <==> 15 in PolyOf(c)
  {
    hide Add, PolyOf, Has, Doubled, Overflows;
    forall i: nat ensures i in PolyOf(Doubled(c)) <==> i < 16 && i in Shift(PolyOf(c), 1) { CoefficientOfDoubled(c, i); }
    Coefficient(c, 15);
    MaskFacts(15);
    HasNone(c);
  }

  lemma GeneratorBits()
    ensures PolyOf(0x1021) == {12, 5, 0}
  {
    forall i: nat ensures i in PolyOf(0x1021) <==> i in {12, 5, 0} { GeneratorBit(i); }
    hide PolyOf;
  }

  lemma GeneratorBit(i: nat)
    ensures i in PolyOf(0x1021) <==> i in {12, 5, 0}
  {
    Coefficient(0x1021, i);
    hide PolyOf;
  }

  lemma TimesOne()
    ensures TimesGenerator({0}) == {16, 12, 5, 0}
  {
    assert Shift({0}, 16) == {16} && Shift({0}, 12) == {12} && Shift({0}, 5) == {5};
  }

  lemma ReducedPoly(p: Poly, d: Poly)
    requires DegreeBelow(p, 16) && 15 in p && forall i: nat :: i in d <==> i < 16 && i in Shift(p, 1)
    ensures Add(Add(d, {12, 5, 0}), Shift(p, 1)) == {16, 12, 5, 0}
  {
    forall i: nat ensures i in Add(d, Shift(p, 1)) <==> i == 16 {}
    assert Add(Add(d, {12, 5, 0}), Shift(p, 1)) == Add({12, 5, 0}, Add(d, Shift(p, 1)));
  }

  /** A step multiplies by x, modulo the generator. */
  lemma StepIsCongruent(c: bv16)
    ensures Congruent(PolyOf(Step(c)), Shift(PolyOf(c), 1))
  {
    hide PolyOf, Sum, Doubled, Overflows, Congruent;
    var p := PolyOf(c);
    PolyOfDoubled(c);
    PolyOfIsSmall(c);
    if Overflows(c) {
      GeneratorBits();
      TimesOne();
      PolyOfSum(Doubled(c), 0x1021);
      ReducedPoly(p, PolyOf(Doubled(c)));
      hide TimesGenerator, Add, Shift;
      IsMultiple(PolyOf(Sum(Doubled(c), 0x1021)), Shift(p, 1), {0});
    } else {
      assert PolyOf(Step(c)) == Shift(p, 1);
      CongruentSelf(Shift(p, 1));
    }
  }

  lemma IsMultiple(a: Poly, b: Poly, q: Poly)
    requires Add(a, b) == TimesGenerator(q)
    ensures Congruent(a, b)
  {}

  function Steps(c: bv16, n: nat): (r: bv16) { if n == 0 then c else Step(Steps(c, n - 1)) }

  lemma NextIsCongruent(c: bv16, previous: bv16, n: nat)
    requires Congruent(PolyOf(previous), Shift(PolyOf(c), n))
    ensures Congruent(PolyOf(Step(previous)), Shift(PolyOf(c), n + 1))
  {
    hide Step, PolyOf, Shift, Congruent;
    StepIsCongruent(previous);
    CongruentShift(PolyOf(previous), Shift(PolyOf(c), n), 1);
    ShiftShift(PolyOf(c), n, 1);
    CongruentTransitive(PolyOf(Step(previous)), Shift(PolyOf(previous), 1), Shift(PolyOf(c), n + 1));
  }

  lemma {:induction false} StepsAreCongruent(c: bv16, n: nat)
    ensures Congruent(PolyOf(Steps(c, n)), Shift(PolyOf(c), n))
  {
    hide Step, PolyOf, Congruent;
    if n == 0 {
      assert Shift(PolyOf(c), 0) == PolyOf(c);
      CongruentSelf(PolyOf(c));
    } else {
      StepsAreCongruent(c, n - 1);
      NextIsCongruent(c, Steps(c, n - 1), n - 1);
    }
  }

  type Octets = seq<bv8>

  function Widen(b: bv8): (r: bv16) { b as bv16 }

  /** The next byte enters at the high end. */
  function Absorb(c: bv16, b: bv8): (r: bv16) { Sum(c, Widen(b) << 8) }

  /** The register after a message, from a given start. */
  function CrcFrom(c: bv16, m: Octets): (r: bv16) {
    if m == [] then c else Steps(Absorb(CrcFrom(c, m[..|m| - 1]), m[|m| - 1]), 8)
  }

  /** The message as a polynomial, first bit of the first byte leading. */
  function Message(m: Octets): (r: Poly) {
    if m == [] then {} else Add(Shift(Message(m[..|m| - 1]), 8), PolyOf(Widen(m[|m| - 1])))
  }

  method Crc16(m: Octets) returns (crc: bv16)
    ensures crc == CrcFrom(0, m)
  {
    hide CrcFrom, Steps, Absorb, Step;
    crc := 0;
    NothingAbsorbed(0);
    assert m[..0] == [];
    for i := 0 to |m|
      invariant crc == CrcFrom(0, m[..i])
    {
      crc := Absorb(crc, m[i]);
      ghost var start := crc;
      NothingAbsorbed(start);
      for k := 0 to 8
        invariant crc == Steps(start, k)
      {
        crc := Step(crc);
        NextStep(start, k, crc);
      }
      NextOctet(m, i);
    }
    assert m[..|m|] == m;
  }

  lemma NothingAbsorbed(c: bv16)
    ensures CrcFrom(c, []) == c && Steps(c, 0) == c
  {}

  lemma NextStep(start: bv16, k: nat, crc: bv16)
    requires crc == Step(Steps(start, k))
    ensures crc == Steps(start, k + 1)
  {
    hide Step;
  }

  lemma NextOctet(m: Octets, i: nat)
    requires i < |m|
    ensures CrcFrom(0, m[..i + 1]) == Steps(Absorb(CrcFrom(0, m[..i]), m[i]), 8)
  {
    hide Steps, Absorb;
    assert m[..i + 1][..i] == m[..i];
  }

  lemma MaskMoves(i: nat)
    ensures i < 8 ==> Mask(i + 8) == Mask(i) << 8
    ensures i < 8 ==> Mask(i) & 0xff00 == 0
    ensures 8 <= i ==> Mask(i) & 0xff == 0
  {}

  lemma OctetMoves(b: bv8, m: bv16)
    ensures m & 0xff00 == 0 ==> Has(Widen(b) << 8, m << 8) == Has(Widen(b), m) && !Has(Widen(b) << 8, m)
    ensures m & 0xff == 0 ==> !Has(Widen(b), m)
  {}

  lemma CoefficientOfOctet(b: bv8, i: nat)
    ensures i in PolyOf(Widen(b) << 8) <==> i in Shift(PolyOf(Widen(b)), 8)
  {
    hide PolyOf, Mask, Has, Widen;
    Coefficient(Widen(b) << 8, i);
    if i < 8 {
      MaskMoves(i);
      OctetMoves(b, Mask(i));
    } else {
      var j: nat := i - 8;
      Coefficient(Widen(b), j);
      MaskMoves(j);
      OctetMoves(b, Mask(j));
    }
  }

  lemma HighByte(b: bv8)
    ensures PolyOf(Widen(b) << 8) == Shift(PolyOf(Widen(b)), 8)
  {
    hide *;
    forall i: nat ensures i in PolyOf(Widen(b) << 8) <==> i in Shift(PolyOf(Widen(b)), 8) { CoefficientOfOctet(b, i); }
  }

  lemma PolyOfAbsorb(c: bv16, b: bv8)
    ensures PolyOf(Absorb(c, b)) == Add(PolyOf(c), Shift(PolyOf(Widen(b)), 8))
  {
    hide PolyOf, Widen, Sum;
    HighByte(b);
    PolyOfSum(c, Widen(b) << 8);
  }

  /** The register, as a polynomial, is congruent to the message times x^16. */
  lemma {:induction false} CrcIsCongruent(m: Octets)
    ensures Congruent(PolyOf(CrcFrom(0, m)), Shift(Message(m), 16))
  {
    hide PolyOf, Steps, Widen, Absorb, Congruent, TimesGenerator;
    if m == [] {
      assert PolyOf(0) == {} by { ZeroPoly(); }
      assert Shift({}, 16) == {};
      CongruentSelf({});
    } else {
      hide Add, Shift;
      var front, b := m[..|m| - 1], m[|m| - 1];
      var crc, p := CrcFrom(0, front), PolyOf(Widen(b));
      var absorbed := Absorb(crc, b);
      CrcIsCongruent(front);
      PolyOfAbsorb(crc, b);
      CongruentSelf(Shift(p, 8));
      CongruentAdd(PolyOf(crc), Shift(Message(front), 16), Shift(p, 8), Shift(p, 8));
      CongruentShift(PolyOf(absorbed), Add(Shift(Message(front), 16), Shift(p, 8)), 8);
      StepsAreCongruent(absorbed, 8);
      MessageShift(front, p);
      CongruentTransitive(PolyOf(CrcFrom(0, m)), Shift(PolyOf(absorbed), 8), Shift(Message(m), 16));
    }
  }

  lemma ZeroPoly()
    ensures PolyOf(0) == {}
  {
    forall i: nat ensures i !in PolyOf(0) {
      Coefficient(0, i);
      ZeroHasNone(Mask(i));
      hide PolyOf, Mask, Has;
    }
  }

  lemma ZeroHasNone(m: bv16)
    ensures !Has(0, m)
  {}

  lemma MessageShift(front: Octets, p: Poly)
    ensures Shift(Add(Shift(Message(front), 16), Shift(p, 8)), 8) == Shift(Add(Shift(Message(front), 8), p), 16)
  {
    var q := Message(front);
    ShiftAdd(Shift(q, 16), Shift(p, 8), 8);
    ShiftAdd(Shift(q, 8), p, 16);
    ShiftShift(q, 16, 8);
    ShiftShift(q, 8, 16);
    ShiftShift(p, 8, 8);
  }

  /** CRC-16/XMODEM is polynomial division: the register is the one remainder of
      degree below 16 of the message times x^16. */
  lemma CrcIsTheRemainder(m: Octets, c: bv16)
    ensures c == CrcFrom(0, m) <==> Congruent(PolyOf(c), Shift(Message(m), 16))
    ensures DegreeBelow(PolyOf(c), 16)
  {
    CrcIsCongruent(m);
    PolyOfIsSmall(c);
    hide CrcFrom, Message, PolyOf;
    if Congruent(PolyOf(c), Shift(Message(m), 16)) {
      var r := CrcFrom(0, m);
      PolyOfIsSmall(r);
      CongruentSymmetric(PolyOf(r), Shift(Message(m), 16));
      CongruentTransitive(PolyOf(c), Shift(Message(m), 16), PolyOf(r));
      RemainderIsUnique(PolyOf(c), PolyOf(r));
      PolyOfInjective(c, r);
    }
  }

  function XorOctet(a: bv8, b: bv8): (r: bv8) { a ^ b }

  function Xor(m: Octets, n: Octets): (r: Octets)
    requires |m| == |n|
    ensures |r| == |m|
  {
    if m == [] then [] else Xor(m[..|m| - 1], n[..|n| - 1]) + [XorOctet(m[|m| - 1], n[|n| - 1])]
  }

  lemma WidenXor(a: bv8, b: bv8)
    ensures Widen(XorOctet(a, b)) == Sum(Widen(a), Widen(b))
  {}

  lemma {:induction false} MessageXor(m: Octets, n: Octets)
    requires |m| == |n|
    ensures Message(Xor(m, n)) == Add(Message(m), Message(n))
  {
    hide PolyOf, Widen, Sum, XorOctet;
    if m == [] {
      assert Add({}, {}) == {};
    } else {
      var p, q := Message(m[..|m| - 1]), Message(n[..|n| - 1]);
      var a, b := m[|m| - 1], n[|n| - 1];
      MessageXor(m[..|m| - 1], n[..|n| - 1]);
      assert Xor(m, n)[..|m| - 1] == Xor(m[..|m| - 1], n[..|n| - 1]);
      WidenXor(a, b);
      PolyOfSum(Widen(a), Widen(b));
      hide Add, Shift;
      ShiftAdd(p, q, 8);
      AddRegroup(Shift(p, 8), Shift(q, 8), PolyOf(Widen(a)), PolyOf(Widen(b)));
    }
  }

  /** On messages of equal length the checksum is linear. */
  lemma CrcIsLinear(m: Octets, n: Octets)
    requires |m| == |n|
    ensures CrcFrom(0, Xor(m, n)) == Sum(CrcFrom(0, m), CrcFrom(0, n))
  {
    var c, d := CrcFrom(0, m), CrcFrom(0, n);
    CrcIsTheRemainder(m, c);
    CrcIsTheRemainder(n, d);
    CrcIsTheRemainder(Xor(m, n), Sum(c, d));
    hide CrcFrom, Message, PolyOf, Sum, Add, Shift, Congruent;
    CongruentAdd(PolyOf(c), Shift(Message(m), 16), PolyOf(d), Shift(Message(n), 16));
    MessageXor(m, n);
    ShiftAdd(Message(m), Message(n), 16);
    PolyOfSum(c, d);
  }

  lemma {:induction false} CrcResumes(m: Octets, n: Octets, c: bv16)
    ensures CrcFrom(c, m + n) == CrcFrom(CrcFrom(c, m), n)
  {
    hide Steps, Absorb;
    if n == [] {
      assert m + n == m;
    } else {
      assert (m + n)[..|m + n| - 1] == m + n[..|n| - 1];
      CrcResumes(m, n[..|n| - 1], c);
    }
  }

  function Zeros(n: nat): (r: Octets)
    ensures |r| == n && forall i: nat :: 0 <= i < n ==> r[i] == 0
  {
    if n == 0 then [] else Zeros(n - 1) + [0]
  }

  lemma {:induction false} CrcOfZeros(n: nat)
    ensures CrcFrom(0, Zeros(n)) == 0
  {
    if n > 0 {
      CrcOfZeros(n - 1);
      assert Zeros(n)[..n - 1] == Zeros(n - 1);
      StepsOfZero(8);
      assert Absorb(0, 0) == 0;
    }
  }

  lemma {:induction false} StepsOfZero(n: nat)
    ensures Steps(0, n) == 0
  {
    if n > 0 { StepsOfZero(n - 1); }
  }

  lemma {:induction false} XorWithZeros(m: Octets, n: Octets)
    ensures Xor(m + Zeros(|n|), Zeros(|m|) + n) == m + n
  {
    if n == [] {
      assert m + [] == m && Zeros(|m|) + [] == Zeros(|m|);
      XorZeros(m);
    } else {
      var front, b := n[..|n| - 1], n[|n| - 1];
      XorWithZeros(m, front);
      assert (m + Zeros(|n|))[..|m + n| - 1] == m + Zeros(|front|);
      assert (Zeros(|m|) + n)[..|m + n| - 1] == Zeros(|m|) + front;
      ZeroXor(b);
    }
  }

  lemma ZeroXor(b: bv8)
    ensures XorOctet(0, b) == b && XorOctet(b, 0) == b
  {}

  lemma {:induction false} XorZeros(m: Octets)
    ensures Xor(m, Zeros(|m|)) == m
  {
    hide XorOctet, Xor, Zeros;
    if m == [] {
      assert Xor(m, Zeros(|m|)) == [];
    } else {
      var front, last := m[..|m| - 1], m[|m| - 1];
      XorZeros(front);
      ZerosStep(|front|);
      XorStep(front, last, Zeros(|front|), 0);
      ZeroXor(last);
      assert m == front + [last];
    }
  }

  lemma ZerosStep(n: nat)
    ensures Zeros(n + 1) == Zeros(n) + [0]
  {}

  lemma XorStep(m: Octets, a: bv8, n: Octets, b: bv8)
    requires |m| == |n|
    ensures Xor(m + [a], n + [b]) == Xor(m, n) + [XorOctet(a, b)]
  {
    hide XorOctet;
    assert (m + [a])[..|m|] == m && (n + [b])[..|n|] == n;
  }

  /** Concatenation: the checksum of the first part carried over the length of the
      second, plus the checksum of the second. */
  lemma CrcOfConcatenation(m: Octets, n: Octets)
    ensures CrcFrom(0, m + n) == Sum(CrcFrom(CrcFrom(0, m), Zeros(|n|)), CrcFrom(0, n))
  {
    hide CrcFrom, Steps, Sum, Xor, Zeros;
    XorWithZeros(m, n);
    CrcIsLinear(m + Zeros(|n|), Zeros(|m|) + n);
    CrcResumes(m, Zeros(|n|), 0);
    CrcResumes(Zeros(|m|), n, 0);
    CrcOfZeros(|m|);
  }

  // ----------------------------------------------------------------- the slot

  const OPEN: bv8 := 123
  const CLOSE: bv8 := 125

  function FirstAt(s: Octets, b: bv8): (i: nat)
    ensures i <= |s| && (forall j :: 0 <= j < i ==> s[j] != b) && (i < |s| ==> s[i] == b)
  {
    if s == [] || s[0] == b then 0 else 1 + FirstAt(s[1..], b)
  }

  /** The text between the first opening brace and the first closing brace after
      it, if there is any; otherwise the whole key. */
  function KeyTag(key: Octets): (r: Octets) {
    var open := FirstAt(key, OPEN);
    if open == |key| then key
    else
      var tail := key[open + 1..];
      var close := FirstAt(tail, CLOSE);
      if close == |tail| || close == 0 then key else tail[..close]
  }

  /** The key has the hash tag `tag` (Redis Cluster Specification, "Hash tags"). */
  predicate IsTagged(key: Octets, open: nat, tag: Octets) {
    && open + |tag| + 1 < |key| && tag != [] && 125 !in tag && 123 !in key[..open]
    && key[open] == 123 && key[open + 1..open + 1 + |tag|] == tag && key[open + 1 + |tag|] == 125
  }

  lemma FirstIs(s: Octets, b: bv8, i: nat)
    requires i < |s| && s[i] == b && forall j :: 0 <= j < i ==> s[j] != b
    ensures FirstAt(s, b) == i
  {}

  lemma TaggedKeyTag(key: Octets, open: nat, tag: Octets)
    requires IsTagged(key, open, tag)
    ensures KeyTag(key) == tag
  {
    assert forall j :: 0 <= j < open ==> key[..open][j] == key[j];
    FirstIs(key, OPEN, open);
    var tail := key[open + 1..];
    assert tail[..|tag|] == tag;
    assert forall j :: 0 <= j < |tag| ==> tag[j] == tail[j];
    FirstIs(tail, CLOSE, |tag|);
    hide FirstAt;
  }

  lemma FoundTag(key: Octets)
    requires KeyTag(key) != key
    ensures exists open: nat :: IsTagged(key, open, KeyTag(key))
  {
    var open := FirstAt(key, OPEN);
    var tail := key[open + 1..];
    var close := FirstAt(tail, CLOSE);
    hide FirstAt;
    assert key[open + 1..open + 1 + close] == tail[..close];
    assert IsTagged(key, open, tail[..close]);
  }

  /** The computed tag is the specified one, and there is one in no other key. */
  lemma KeyTagIsTheHashTag(key: Octets)
    ensures forall open: nat, tag :: IsTagged(key, open, tag) ==> KeyTag(key) == tag
    ensures (exists open: nat, tag :: IsTagged(key, open, tag)) || KeyTag(key) == key
  {
    hide IsTagged, KeyTag;
    forall open: nat, tag | IsTagged(key, open, tag) ensures KeyTag(key) == tag { TaggedKeyTag(key, open, tag); }
    if KeyTag(key) != key { FoundTag(key); }
  }

  function RedisSlot(key: Octets): (slot: nat)
    ensures slot < SLOT_COUNT
  {
    (CrcFrom(0, KeyTag(key)) as int) % SLOT_COUNT
  }

  /** Keys with the same hash tag live in the same slot, whatever surrounds it. */
  lemma EqualTagsShareASlot(a: Octets, b: Octets, i: nat, j: nat, tag: Octets)
    requires IsTagged(a, i, tag) && IsTagged(b, j, tag)
    ensures RedisSlot(a) == RedisSlot(b) == (CrcFrom(0, tag) as int) % 16384
  {
    KeyTagIsTheHashTag(a);
    KeyTagIsTheHashTag(b);
    hide KeyTag, IsTagged, CrcFrom;
  }

  /** A key without a hash tag is hashed whole. */
  lemma UntaggedKeyIsHashedWhole(key: Octets)
    requires forall open: nat, tag :: !IsTagged(key, open, tag)
    ensures RedisSlot(key) == (CrcFrom(0, key) as int) % 16384
  {
    KeyTagIsTheHashTag(key);
    hide KeyTag, IsTagged, CrcFrom;
  }

  /** A key without a brace has no hash tag. */
  lemma NoBraceNoTag(key: Octets)
    requires 123 !in key
    ensures RedisSlot(key) == (CrcFrom(0, key) as int) % 16384
  {
    forall open: nat, tag ensures !IsTagged(key, open, tag) {}
    UntaggedKeyIsHashedWhole(key);
  }

  method WrongValidSlot(current: int) returns (slot: nat)
    ensures slot < 16384 && slot != current
  {
    slot := Draws.Below(SLOT_COUNT);
    if slot == current { slot := (slot + 1) % SLOT_COUNT; }
  }
}
