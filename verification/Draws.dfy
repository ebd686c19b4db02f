/** Random choices. The generator behind them is not modelled: every result
    holds for all draws within the stated range. */
module Draws {
  /** `gen_range(0..n)`. */
  method Below(n: nat) returns (k: nat)
    requires n > 0
    ensures k < n
  {
    k :| 0 <= k < n;
  }

  /** A draw before its range is known: what it gives for each `gen_range(0..n)`. */
  ghost predicate IsDraw(draw: nat -> nat) { forall n: nat :: n > 0 ==> draw(n) < n }

  method AnyDraw() returns (draw: nat -> nat)
    ensures IsDraw(draw)
  {
    var value: nat := *;
    draw := n => if n == 0 then 0 else value % n;
  }

  /** A coin of unknown bias. */
  method Flip() returns (b: bool) { b := *; }

  /** A probability: zero, full, or anything between. */
  datatype Chance = Never | Sometimes | Always

  /** A coin for that probability: arbitrary unless the probability decides it. */
  method Toss(chance: Chance) returns (b: bool)
    ensures chance.Never? ==> !b
    ensures chance.Always? ==> b
  {
    b := *;
    b := chance.Always? || (b && chance.Sometimes?);
  }

  /** A probability check: it cannot succeed at zero probability. */
  method ShouldApply(possible: bool) returns (b: bool)
    ensures b ==> possible
  {
    b := *;
    b := b && possible;
  }
}

/** Weighted selection by a cumulative offset. */
module Weights {
  import opened Draws

  datatype DepthMode = Any | Inner

  function Pow2(n: nat): (p: nat)
    ensures p >= 1
  {
    if n == 0 then 1 else 2 * Pow2(n - 1)
  }

  /** The chance of a frame at a level, scaled down by its distance from the deepest
      level unless depth does not matter. */
  function Scaled(chance: Chance, mode: DepthMode, level: nat, deepest: nat): (r: Chance) {
    if mode.Inner? && level < deepest && chance.Always? then Sometimes else chance
  }

  /** Zero stays zero, nothing is scaled under ANY or at the deepest level, and above it
      a full probability is no longer full. */
  lemma ScaledAway(chance: Chance, level: nat, deepest: nat)
    ensures Scaled(Never, Inner, level, deepest) == Never && Scaled(chance, Any, level, deepest) == chance
    ensures level >= deepest ==> Scaled(chance, Inner, level, deepest) == chance
    ensures level < deepest ==> Scaled(chance, Inner, level, deepest) != Always
  {}

  function Weight(mode: DepthMode, level: nat): (w: nat)
    ensures w >= 1
  {
    if mode.Any? then 1 else Pow2(if level < 64 then level else 64)
  }

  /** Depth doubles the weight at each level, up to 64 of them; under ANY all weigh one. */
  lemma WeightDoubles(level: nat)
    ensures Weight(Any, level) == 1 && Weight(Inner, 0) == 1
    ensures level < 64 ==> Weight(Inner, level + 1) == 2 * Weight(Inner, level)
    ensures level >= 64 ==> Weight(Inner, level) == Weight(Inner, 64)
  {}

  function Sum(ws: seq<nat>): (n: nat) {
    if ws == [] then 0 else Sum(ws[..|ws| - 1]) + ws[|ws| - 1]
  }

  /** The offset `r` falls into the interval of entry `k`, which has size `ws[k]`. */
  predicate Selected(ws: seq<nat>, r: nat, k: nat) {
    k < |ws| && Sum(ws[..k]) <= r < Sum(ws[..k]) + ws[k]
  }

  lemma SumStep(ws: seq<nat>, k: nat)
    requires k < |ws|
    ensures Sum(ws[..k + 1]) == Sum(ws[..k]) + ws[k]
  {
    assert ws[..k + 1][..k] == ws[..k];
  }

  lemma {:induction false} SumMonotone(ws: seq<nat>, j: nat, k: nat)
    requires j <= k <= |ws|
    ensures Sum(ws[..j]) <= Sum(ws[..k])
    decreases k - j
  {
    if j < k {
      SumStep(ws, k - 1);
      SumMonotone(ws, j, k - 1);
    }
  }

  lemma {:induction false} SumAppend(a: seq<nat>, b: seq<nat>)
    ensures Sum(a + b) == Sum(a) + Sum(b)
    decreases |b|
  {
    if b == [] {
      assert a + b == a;
    } else {
      assert (a + b)[..|a + b| - 1] == a + b[..|b| - 1];
      SumAppend(a, b[..|b| - 1]);
    }
  }

  lemma {:induction false} FindSelected(ws: seq<nat>, r: nat) returns (k: nat)
    requires r < Sum(ws)
    ensures Selected(ws, r, k)
  {
    var n := |ws| - 1;
    if Sum(ws[..n]) <= r {
      k := n;
    } else {
      k := FindSelected(ws[..n], r);
      assert ws[..n][..k] == ws[..k];
    }
  }

  lemma SelectedBelowSum(ws: seq<nat>, r: nat, k: nat)
    requires Selected(ws, r, k)
    ensures r < Sum(ws)
  {
    SumStep(ws, k);
    SumMonotone(ws, k + 1, |ws|);
    assert ws[..|ws|] == ws;
  }

  /** The naturals from `a` up to, not including, `b`. */
  function Range(a: nat, b: nat): (r: set<nat>)
    ensures forall q :: q in r <==> a <= q < b
    ensures |r| == if a <= b then b - a else 0
  {
    if b <= a then {} else Range(a, b - 1) + {b - 1}
  }

  /** The offsets that select entry `k`. */
  function Offsets(ws: seq<nat>, k: nat): (r: set<nat>)
    requires k < |ws|
  {
    Range(Sum(ws[..k]), Sum(ws[..k]) + ws[k])
  }

  /** The intervals partition the offsets below the total: every offset selects
      exactly one entry, no other offset selects any, and an entry is selected by
      as many offsets as it weighs, so entries of weight zero never are. */
  lemma SelectionIsExact(ws: seq<nat>, r: nat)
    ensures r < Sum(ws) <==> exists k: nat :: Selected(ws, r, k)
    ensures forall j: nat, k: nat :: Selected(ws, r, j) && Selected(ws, r, k) ==> j == k
    ensures forall k: nat :: k < |ws| ==> |Offsets(ws, k)| == ws[k] && forall q :: q in Offsets(ws, k) <==> Selected(ws, q, k)
  {
    if r < Sum(ws) { var k := FindSelected(ws, r); }
    forall k: nat | Selected(ws, r, k) ensures r < Sum(ws) { SelectedBelowSum(ws, r, k); }
    forall j: nat, k: nat | Selected(ws, r, j) && Selected(ws, r, k) ensures j == k { SelectedOnce(ws, r, j, k); }
  }

  lemma SelectedOnce(ws: seq<nat>, r: nat, j: nat, k: nat)
    requires Selected(ws, r, j) && Selected(ws, r, k)
    ensures j == k
  {
    SumStep(ws, j);
    SumStep(ws, k);
    if j < k { SumMonotone(ws, j + 1, k); } else if k < j { SumMonotone(ws, k + 1, j); }
  }

  lemma {:induction false} Pow2Monotone(m: nat, n: nat)
    requires m <= n
    ensures Pow2(m) <= Pow2(n)
  {
    if m < n { Pow2Monotone(m, n - 1); }
  }

  lemma {:induction false} SumBound(ws: seq<nat>, b: nat)
    requires forall i :: 0 <= i < |ws| ==> ws[i] <= b
    ensures Sum(ws) <= |ws| * b
  {
    if ws != [] { SumBound(ws[..|ws| - 1], b); }
  }

  /** The 128-bit total cannot overflow below 2^63 weighted frames. */
  lemma SumFitsInU128(ws: seq<nat>)
    requires forall i :: 0 <= i < |ws| ==> ws[i] <= Pow2(64)
    requires |ws| <= Pow2(63)
    ensures Sum(ws) < Pow2(128)
  {
    Pow2Values();
    hide Pow2;
    SumBound(ws, Pow2(64));
    MulMonotone(|ws|, Pow2(63), Pow2(64));
  }

  lemma MulMonotone(a: nat, b: nat, c: nat)
    requires a <= b
    ensures a * c <= b * c
  {}

  lemma {:induction false} Pow2Product(m: nat, n: nat)
    ensures Pow2(m) * Pow2(n) == Pow2(m + n)
  {
    if m > 0 { Pow2Product(m - 1, n); }
  }

  lemma Pow2Values()
    ensures Pow2(63) * Pow2(64) == Pow2(127) && Pow2(127) < Pow2(128)
  {
    Pow2Product(63, 64);
    assert Pow2(128) == 2 * Pow2(127);
  }

  lemma WeightBound(mode: DepthMode, level: nat)
    ensures Weight(mode, level) <= Pow2(64)
  {
    Pow2Monotone(if level < 64 then level else 64, 64);
  }
}
