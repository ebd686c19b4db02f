/** Polynomials over GF(2) as sets of exponents, and congruence modulo
    x^16 + x^12 + x^5 + 1. */
module Polynomials {
  type Poly = set<nat>

  /** Addition is symmetric difference. */
  function Add(a: Poly, b: Poly): (r: Poly)
    ensures forall i: nat :: i in r <==> (i in a) != (i in b)
  {
    (a - b) + (b - a)
  }

  /** Multiplication by x^k. */
  function Shift(a: Poly, k: nat): (r: Poly)
    ensures forall i: nat :: i in r <==> i >= k && i - k in a
  {
    var r := set i: nat | i in a :: i + k;
    ShiftMembers(a, k, r);
    r
  }

  lemma ShiftMembers(a: Poly, k: nat, r: Poly)
    requires r == set i: nat | i in a :: i + k
    ensures forall i: nat :: i in r <==> i >= k && i - k in a
  {
    forall i: nat ensures i in r <==> i >= k && i - k in a {
      if i >= k && i - k in a {
        var j: nat := i - k;
        assert j in a && j + k == i;
      }
    }
  }

  /** Multiplication by the generator. */
  function TimesGenerator(q: Poly): (r: Poly) {
    Add(Add(Shift(q, 16), Shift(q, 12)), Add(Shift(q, 5), q))
  }

  /** The two differ by a multiple of the generator. */
  ghost predicate Congruent(a: Poly, b: Poly) { exists q :: Add(a, b) == TimesGenerator(q) }

  lemma CongruentSelf(a: Poly)
    ensures Congruent(a, a)
  {
    assert Add(a, a) == TimesGenerator({});
  }

  lemma CongruentSymmetric(a: Poly, b: Poly)
    requires Congruent(a, b)
    ensures Congruent(b, a)
  {
    var q :| Add(a, b) == TimesGenerator(q);
    assert Add(b, a) == TimesGenerator(q);
  }

  lemma AddRegroup(a: Poly, b: Poly, c: Poly, d: Poly)
    ensures Add(Add(a, b), Add(c, d)) == Add(Add(a, c), Add(b, d))
  {}

  lemma TimesGeneratorAdd(p: Poly, q: Poly)
    ensures TimesGenerator(Add(p, q)) == Add(TimesGenerator(p), TimesGenerator(q))
  {
    assert forall k: nat :: Shift(Add(p, q), k) == Add(Shift(p, k), Shift(q, k));
    hide Add, Shift;
    AddRegroup(Shift(p, 16), Shift(q, 16), Shift(p, 12), Shift(q, 12));
    AddRegroup(Shift(p, 5), Shift(q, 5), p, q);
    AddRegroup(Add(Shift(p, 16), Shift(p, 12)), Add(Shift(q, 16), Shift(q, 12)),
               Add(Shift(p, 5), p), Add(Shift(q, 5), q));
  }

  lemma CongruentAdd(a: Poly, b: Poly, c: Poly, d: Poly)
    requires Congruent(a, b) && Congruent(c, d)
    ensures Congruent(Add(a, c), Add(b, d))
  {
    var p :| Add(a, b) == TimesGenerator(p);
    var q :| Add(c, d) == TimesGenerator(q);
    TimesGeneratorAdd(p, q);
    AddRegroup(a, c, b, d);
    assert Add(Add(a, c), Add(b, d)) == TimesGenerator(Add(p, q));
  }

  lemma CongruentTransitive(a: Poly, b: Poly, c: Poly)
    requires Congruent(a, b) && Congruent(b, c)
    ensures Congruent(a, c)
  {
    var p :| Add(a, b) == TimesGenerator(p);
    var q :| Add(b, c) == TimesGenerator(q);
    TimesGeneratorAdd(p, q);
    assert Add(a, c) == Add(Add(a, b), Add(b, c));
  }

  lemma ShiftShift(a: Poly, j: nat, k: nat)
    ensures Shift(Shift(a, j), k) == Shift(a, j + k)
  {
    forall i: nat ensures i in Shift(Shift(a, j), k) <==> i in Shift(a, j + k) {
      assert i >= j + k ==> i - k - j == i - (j + k);
    }
  }

  lemma ShiftAdd(a: Poly, b: Poly, k: nat)
    ensures Shift(Add(a, b), k) == Add(Shift(a, k), Shift(b, k))
  {}

  lemma ShiftTimesGenerator(q: Poly, k: nat)
    ensures Shift(TimesGenerator(q), k) == TimesGenerator(Shift(q, k))
  {
    ShiftAdd(Add(Shift(q, 16), Shift(q, 12)), Add(Shift(q, 5), q), k);
    ShiftAdd(Shift(q, 16), Shift(q, 12), k);
    ShiftAdd(Shift(q, 5), q, k);
    ShiftShift(q, 16, k); ShiftShift(q, k, 16);
    ShiftShift(q, 12, k); ShiftShift(q, k, 12);
    ShiftShift(q, 5, k); ShiftShift(q, k, 5);
  }

  lemma CongruentShift(a: Poly, b: Poly, k: nat)
    requires Congruent(a, b)
    ensures Congruent(Shift(a, k), Shift(b, k))
  {
    var q :| Add(a, b) == TimesGenerator(q);
    ShiftAdd(a, b, k);
    ShiftTimesGenerator(q, k);
    assert Add(Shift(a, k), Shift(b, k)) == TimesGenerator(Shift(q, k));
  }

  predicate DegreeBelow(a: Poly, n: nat) { forall i: nat :: i in a ==> i < n }

  lemma {:induction false} Leading(a: Poly) returns (m: nat)
    requires a != {}
    ensures m in a && forall i: nat :: i in a ==> i <= m
  {
    m :| m in a;
    var rest := a - {m};
    assert forall i: nat :: i in a ==> i == m || i in rest;
    if rest != {} {
      var n := Leading(rest);
      m := if n > m then n else m;
    }
  }

  lemma HighTerm(q: Poly) returns (i: nat)
    requires q != {}
    ensures i >= 16 && i in TimesGenerator(q)
  {
    var m := Leading(q);
    i := m + 16;
    assert i in Shift(q, 16) && i !in Shift(q, 12) && i !in Shift(q, 5) && i !in q;
  }

  /** A remainder of degree below 16 is unique. */
  lemma RemainderIsUnique(a: Poly, b: Poly)
    requires DegreeBelow(a, 16) && DegreeBelow(b, 16) && Congruent(a, b)
    ensures a == b
  {
    var q :| Add(a, b) == TimesGenerator(q);
    if q != {} {
      var i := HighTerm(q);
    } else {
      assert TimesGenerator({}) == {};
      assert forall i: nat :: i in a <==> i in b;
    }
  }
}
