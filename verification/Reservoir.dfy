/** Reservoir selection: the first candidate needs no draw, the k-th replaces
    the current one when a draw from 0..k is zero. */
module Reservoir {
  import opened Weights

  /** The candidate left after the draws for candidates 1, 2, ... */
  function Survivor(draws: seq<nat>): (j: nat)
    ensures j <= |draws|
  {
    if draws == [] then 0
    else
      var n := |draws| - 1;
      if draws[n] == 0 then n + 1 else Survivor(draws[..n])
  }

  /** The draw for candidate `i + 1` comes from a range of `i + 2` values. */
  predicate InRange(draws: seq<nat>) {
    forall i :: 0 <= i < |draws| ==> draws[i] < i + 2
  }

  /** The draws that the generator has in store, for any number of candidates. */
  ghost predicate AreRolls(rolls: nat -> nat) { forall k: nat :: rolls(k) < k + 2 }

  /** The first `n` of them. */
  function Taken(rolls: nat -> nat, n: nat): (script: seq<nat>)
    ensures |script| == n && (AreRolls(rolls) ==> InRange(script))
  {
    seq(n, k requires 0 <= k < n => rolls(k))
  }

  function Extend(vs: set<seq<nat>>, ds: set<nat>): (r: set<seq<nat>>) {
    set v, d | v in vs && d in ds :: v + [d]
  }

  /** All draw vectors for `n + 1` candidates. */
  function Vectors(n: nat): (r: set<seq<nat>>) {
    if n == 0 then {[]} else Extend(Vectors(n - 1), Range(0, n + 1))
  }

  /** Those that end on candidate `j`. */
  function Winning(n: nat, j: nat): (r: set<seq<nat>>) {
    set v | v in Vectors(n) && Survivor(v) == j
  }

  function Factorial(n: nat): (r: nat) { if n == 0 then 1 else n * Factorial(n - 1) }

  lemma ExtendMember(vs: set<seq<nat>>, ds: set<nat>, v: seq<nat>)
    ensures v in Extend(vs, ds) <==> v != [] && v[..|v| - 1] in vs && v[|v| - 1] in ds
  {
    if v != [] { assert v == v[..|v| - 1] + [v[|v| - 1]]; }
  }

  lemma {:induction false} ExtendOneSize(vs: set<seq<nat>>, d: nat)
    ensures |Extend(vs, {d})| == |vs|
    decreases |vs|
  {
    if vs != {} {
      var v :| v in vs;
      var rest := vs - {v};
      ExtendOneSize(rest, d);
      forall w ensures w in Extend(vs, {d}) <==> w in Extend(rest, {d}) + {v + [d]} {
        ExtendMember(vs, {d}, w);
        ExtendMember(rest, {d}, w);
      }
      assert Extend(vs, {d}) == Extend(rest, {d}) + {v + [d]};
      ExtendMember(rest, {d}, v + [d]);
      assert v + [d] !in Extend(rest, {d});
    } else {
      assert Extend(vs, {d}) == {};
    }
  }

  lemma ExtendSplit(vs: set<seq<nat>>, ds: set<nat>, d: nat)
    requires d in ds
    ensures var rest := ds - {d};
      Extend(vs, ds) == Extend(vs, rest) + Extend(vs, {d}) && Extend(vs, rest) !! Extend(vs, {d})
  {
    hide Extend;
    var rest := ds - {d};
    forall w ensures w in Extend(vs, ds) <==> w in Extend(vs, rest) + Extend(vs, {d})
             ensures w in Extend(vs, rest) ==> w !in Extend(vs, {d})
    {
      ExtendMember(vs, ds, w);
      ExtendMember(vs, rest, w);
      ExtendMember(vs, {d}, w);
    }
  }

  lemma ExtendNone(vs: set<seq<nat>>)
    ensures Extend(vs, {}) == {}
  {}

  lemma {:induction false} ExtendSize(vs: set<seq<nat>>, ds: set<nat>)
    ensures |Extend(vs, ds)| == |ds| * |vs|
    decreases |ds|
  {
    hide Extend;
    if ds == {} {
      ExtendNone(vs);
    } else {
      var d :| d in ds;
      var rest := ds - {d};
      ExtendSize(vs, rest);
      ExtendOneSize(vs, d);
      ExtendSplit(vs, ds, d);
      assert |ds| == |rest| + 1;
      assert (|rest| + 1) * |vs| == |rest| * |vs| + |vs|;
    }
  }

  lemma InRangeStep(v: seq<nat>)
    requires v != []
    ensures InRange(v) <==> InRange(v[..|v| - 1]) && v[|v| - 1] < |v| + 1
  {
    if InRange(v[..|v| - 1]) && v[|v| - 1] < |v| + 1 {
      forall i | 0 <= i < |v| ensures v[i] < i + 2 {
        assert i < |v| - 1 ==> v[..|v| - 1][i] == v[i];
      }
    }
  }

  lemma {:induction false} VectorsAreTheDraws(n: nat, v: seq<nat>)
    ensures v in Vectors(n) <==> |v| == n && InRange(v)
  {
    hide Extend, Range;
    if n == 0 {
      assert v in Vectors(0) <==> v == [];
    } else {
      VectorsUnfold(n);
      hide InRange, Vectors;
      ExtendMember(Vectors(n - 1), Range(0, n + 1), v);
      if v != [] {
        var front, last := v[..|v| - 1], v[|v| - 1];
        assert last in Range(0, n + 1) <==> last < n + 1;
        VectorsAreTheDraws(n - 1, front);
        InRangeStep(v);
      }
    }
  }

  lemma VectorsNone()
    ensures |Vectors(0)| == 1 && Factorial(1) == 1
  {}

  lemma {:induction false} VectorsCount(n: nat)
    ensures |Vectors(n)| == Factorial(n + 1)
  {
    hide Extend, Vectors, Range, Factorial;
    if n == 0 {
      VectorsNone();
    } else {
      VectorsUnfold(n);
      VectorsCount(n - 1);
      ExtendSize(Vectors(n - 1), Range(0, n + 1));
      FactorialStep(n + 1, |Vectors(n - 1)|);
    }
  }

  lemma WinningMember(n: nat, j: nat, v: seq<nat>)
    ensures v in Winning(n, j) <==> v in Vectors(n) && Survivor(v) == j
  {}

  /** The draw vectors that extend those of the step before. */
  function WinningImage(n: nat, j: nat): (r: set<seq<nat>>)
    requires n > 0 && j <= n
  {
    if j == n then Extend(Vectors(n - 1), {0}) else Extend(Winning(n - 1, j), Range(1, n + 1))
  }

  lemma VectorsUnfold(n: nat)
    requires n > 0
    ensures Vectors(n) == Extend(Vectors(n - 1), Range(0, n + 1))
  {
    hide Extend, Range;
  }

  lemma LastDraw(v: seq<nat>)
    requires v != []
    ensures Survivor(v) == if v[|v| - 1] == 0 then |v| else Survivor(v[..|v| - 1])
    ensures Survivor(v[..|v| - 1]) < |v|
  {}

  lemma WinningStepMember(n: nat, j: nat, v: seq<nat>)
    requires n > 0 && j <= n
    ensures v in Winning(n, j) <==> v in WinningImage(n, j)
  {
    hide Winning, Extend, InRange, Vectors, Survivor, Range;
    VectorsUnfold(n);
    WinningMember(n, j, v);
    ExtendMember(Vectors(n - 1), Range(0, n + 1), v);
    ExtendMember(Vectors(n - 1), {0}, v);
    ExtendMember(Winning(n - 1, j), Range(1, n + 1), v);
    if v != [] {
      var front := v[..|v| - 1];
      LastDraw(v);
      VectorsAreTheDraws(n - 1, front);
      WinningMember(n - 1, j, front);
    }
  }

  lemma WinningStep(n: nat, j: nat)
    requires n > 0 && j <= n
    ensures Winning(n, j) == WinningImage(n, j)
  {
    hide *;
    forall v ensures v in Winning(n, j) <==> v in WinningImage(n, j) { WinningStepMember(n, j, v); }
  }

  lemma WinningZero()
    ensures |Winning(0, 0)| == 1
  {
    assert Winning(0, 0) == {[]};
  }

  lemma WinningCount(n: nat, j: nat)
    requires n > 0 && j <= n
    ensures |Winning(n, j)| == if j == n then |Vectors(n - 1)| else n * |Winning(n - 1, j)|
  {
    hide Extend, Vectors, Winning, Range;
    WinningStep(n, j);
    if j == n { ExtendSize(Vectors(n - 1), {0}); } else { ExtendSize(Winning(n - 1, j), Range(1, n + 1)); }
  }

  lemma FactorialStep(n: nat, w: nat)
    requires n > 0 && w == Factorial(n - 1)
    ensures n * w == Factorial(n)
  {}

  /** With `n + 1` candidates there are (n+1)! draw vectors, and exactly n! of
      them end on each candidate: the selection is uniform. */
  lemma {:induction false} ReservoirIsUniform(n: nat, j: nat)
    requires j <= n
    ensures |Vectors(n)| == Factorial(n + 1) && |Winning(n, j)| == Factorial(n)
  {
    VectorsCount(n);
    if n == 0 {
      WinningZero();
      hide Vectors, Winning;
    } else {
      hide Vectors, Winning, Factorial;
      WinningCount(n, j);
      if j == n {
        VectorsCount(n - 1);
      } else {
        ReservoirIsUniform(n - 1, j);
        FactorialStep(n, |Winning(n - 1, j)|);
      }
    }
  }
}
