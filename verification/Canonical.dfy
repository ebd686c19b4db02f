/** Canonicalization of replies: unordered containers are sorted by their
    encoded bytes, at every depth. */
module Canonical {
  import opened Bytes
  import opened Frames
  import opened Sorting
  import opened Units
  import opened RoundTrip

  datatype Scope = EveryContainer | UnorderedContainers

  predicate Reorders(scope: Scope, f: Frame) {
    IsAggregate(f) && (scope.EveryContainer? || f.Set? || HasEntries(f))
  }

  function Width(f: Frame): (n: nat) { if HasEntries(f) then 2 else 1 }

  /** Children `fs` for `f`, in sorted order if their order means nothing. */
  function Arranged(scope: Scope, f: Frame, fs: seq<Frame>): (gs: seq<Frame>)
    requires |fs| == |Children(f)|
    ensures |gs| == |fs|
  {
    if Reorders(scope, f) then SortUnits(fs, Width(f)) else fs
  }

  /** Canonicalize the children, then sort them if their order means nothing. */
  function Canon(scope: Scope, f: Frame): (r: Frame)
    decreases Nodes(f), 0
  {
    NodesOfChildren(f);
    WithChildren(f, Arranged(scope, f, CanonAll(scope, Children(f))))
  }

  function CanonAll(scope: Scope, fs: seq<Frame>): (gs: seq<Frame>)
    ensures |gs| == |fs|
    decreases NodesAll(fs), 1
  {
    if fs == [] then [] else [Canon(scope, fs[0])] + CanonAll(scope, fs[1..])
  }

  // ------------------------------------------- equality up to irrelevant order

  /** Equal except for the order of unordered containers, at any depth. */
  ghost predicate Equiv(scope: Scope, f: Frame, g: Frame)
    decreases Nodes(f), 0
  {
    NodesOfChildren(f);
    SameNode(f, g) &&
    if Reorders(scope, f) then SameUpToOrder(scope, Children(f), Children(g), Width(f))
    else EquivAll(scope, Children(f), Children(g))
  }

  /** The units of `gs` have an order in which they match `fs` one by one. */
  ghost predicate SameUpToOrder(scope: Scope, fs: seq<Frame>, gs: seq<Frame>, w: nat)
    requires Divides(w, |fs|) && Divides(w, |gs|)
    decreases NodesAll(fs), 2
  {
    exists us: seq<Unit> :: multiset(us) == multiset(Chunks(gs, w)) && EquivAll(scope, fs, Concat(us))
  }

  ghost predicate EquivAll(scope: Scope, fs: seq<Frame>, gs: seq<Frame>)
    decreases NodesAll(fs), 1
  {
    |fs| == |gs| && (fs == [] || (Equiv(scope, fs[0], gs[0]) && EquivAll(scope, fs[1..], gs[1..])))
  }

  // ------------------------------------------------------ pointwise and by unit

  lemma {:induction false} EquivAllAt(scope: Scope, fs: seq<Frame>, gs: seq<Frame>, i: nat)
    requires EquivAll(scope, fs, gs) && i < |fs|
    ensures Equiv(scope, fs[i], gs[i])
  {
    hide Equiv;
    if i > 0 { EquivAllAt(scope, fs[1..], gs[1..], i - 1); }
  }

  lemma {:induction false} EquivAllConcat(scope: Scope, a: seq<Frame>, b: seq<Frame>, c: seq<Frame>, d: seq<Frame>)
    requires |a| == |c|
    ensures EquivAll(scope, a + b, c + d) <==> EquivAll(scope, a, c) && EquivAll(scope, b, d)
  {
    hide Equiv;
    if a == [] {
      assert a + b == b && c + d == d;
    } else {
      assert (a + b)[1..] == a[1..] + b && (c + d)[1..] == c[1..] + d;
      EquivAllConcat(scope, a[1..], b, c[1..], d);
    }
  }

  lemma {:induction false} EquivUnits(scope: Scope, us: seq<Unit>, vs: seq<Unit>, w: nat)
    requires (w == 1 || w == 2) && AllOfWidth(us, w) && AllOfWidth(vs, w)
    ensures EquivAll(scope, Concat(us), Concat(vs)) <==>
            |us| == |vs| && forall i :: 0 <= i < |us| ==> EquivAll(scope, us[i], vs[i])
  {
    if us != [] && vs != [] {
      assert us[0] in us && vs[0] in vs;
      assert AllOfWidth(us[1..], w) by { assert forall u :: u in us[1..] ==> u in us; }
      assert AllOfWidth(vs[1..], w) by { assert forall u :: u in vs[1..] ==> u in vs; }
      hide Equiv, EquivAll, AllOfWidth;
      EquivAllConcat(scope, us[0], Concat(us[1..]), vs[0], Concat(vs[1..]));
      EquivUnits(scope, us[1..], vs[1..], w);
      SameUnitsCons(scope, us, vs);
    } else {
      hide Equiv;
      ChunksOfConcat(us, w);
      ChunksOfConcat(vs, w);
    }
  }

  ghost predicate SameUnits(scope: Scope, us: seq<Unit>, vs: seq<Unit>) {
    |us| == |vs| && forall i :: 0 <= i < |us| ==> EquivAll(scope, us[i], vs[i])
  }

  lemma SameUnitsCons(scope: Scope, us: seq<Unit>, vs: seq<Unit>)
    requires us != [] && vs != []
    ensures SameUnits(scope, us, vs) <==> EquivAll(scope, us[0], vs[0]) && SameUnits(scope, us[1..], vs[1..])
  {
    hide EquivAll;
    if EquivAll(scope, us[0], vs[0]) && SameUnits(scope, us[1..], vs[1..]) {
      forall i | 0 <= i < |us| ensures EquivAll(scope, us[i], vs[i]) {
        if i > 0 { assert us[i] == us[1..][i - 1] && vs[i] == vs[1..][i - 1]; }
      }
    }
    if SameUnits(scope, us, vs) {
      forall i | 0 <= i < |us| - 1 ensures EquivAll(scope, us[1..][i], vs[1..][i]) {
        assert us[1..][i] == us[i + 1] && vs[1..][i] == vs[i + 1];
      }
    }
  }

  /** Follow a rearrangement of `us` through a unit-wise match with `vs`. */
  lemma Reorder(scope: Scope, us: seq<Unit>, vs: seq<Unit>, cs: seq<Unit>, w: nat) returns (ds: seq<Unit>)
    requires (w == 1 || w == 2) && AllOfWidth(us, w) && AllOfWidth(vs, w)
    requires EquivAll(scope, Concat(us), Concat(vs)) && multiset(cs) == multiset(us)
    ensures multiset(ds) == multiset(vs) && AllOfWidth(ds, w) && EquivAll(scope, Concat(cs), Concat(ds))
  {
    hide EquivAll, Concat;
    EquivUnits(scope, us, vs, w);
    ds := Transport(vs, us, cs);
    WidthOfPermutation(cs, us, w);
    WidthOfPermutation(ds, vs, w);
    EquivUnits(scope, cs, ds, w);
  }

  // ------------------------------------------------------ an equivalence relation

  lemma {:induction false} EquivReflexive(scope: Scope, f: Frame)
    ensures Equiv(scope, f, f)
    decreases Nodes(f), 0
  {
    NodesOfChildren(f);
    EquivAllReflexive(scope, Children(f));
    if Reorders(scope, f) {
      ChunksOf(Children(f), Width(f));
      hide EquivAll, Chunks;
    }
  }

  lemma {:induction false} EquivAllReflexive(scope: Scope, fs: seq<Frame>)
    ensures EquivAll(scope, fs, fs)
    decreases NodesAll(fs), 1
  {
    hide Equiv;
    if fs != [] {
      EquivReflexive(scope, fs[0]);
      EquivAllReflexive(scope, fs[1..]);
    }
  }

  lemma FlipOrder(scope: Scope, fs: seq<Frame>, gs: seq<Frame>, us: seq<Unit>, w: nat)
    requires Divides(w, |fs|) && Divides(w, |gs|)
    requires multiset(us) == multiset(Chunks(gs, w)) && EquivAll(scope, Concat(us), fs)
    ensures SameUpToOrder(scope, gs, fs, w)
  {
    hide EquivAll, Chunks, Concat;
    ChunksOf(fs, w);
    ChunksOf(gs, w);
    WidthOfPermutation(us, Chunks(gs, w), w);
    var ds := Reorder(scope, us, Chunks(fs, w), Chunks(gs, w), w);
  }

  lemma ChainOrder(scope: Scope, gs: seq<Frame>, hs: seq<Frame>, us: seq<Unit>, w: nat) returns (ds: seq<Unit>)
    requires Divides(w, |gs|) && Divides(w, |hs|)
    requires multiset(us) == multiset(Chunks(gs, w)) && SameUpToOrder(scope, gs, hs, w)
    ensures multiset(ds) == multiset(Chunks(hs, w)) && EquivAll(scope, Concat(us), Concat(ds))
  {
    hide EquivAll, Chunks, Concat;
    var vs: seq<Unit> :| multiset(vs) == multiset(Chunks(hs, w)) && EquivAll(scope, gs, Concat(vs));
    ChunksOf(gs, w);
    ChunksOf(hs, w);
    WidthOfPermutation(vs, Chunks(hs, w), w);
    ds := Reorder(scope, Chunks(gs, w), vs, us, w);
  }

  lemma SameNodeFacts(scope: Scope, f: Frame, g: Frame)
    requires SameNode(f, g)
    ensures Reorders(scope, f) == Reorders(scope, g) && Width(f) == Width(g) && SameNode(g, f)
    ensures Divides(Width(f), |Children(f)|) && Divides(Width(f), |Children(g)|)
  {}

  lemma SameNodeChain(f: Frame, g: Frame, h: Frame)
    ensures SameNode(f, g) && SameNode(g, h) ==> SameNode(f, h)
  {}

  /** `Equiv`, one level unfolded. */
  lemma EquivMeaning(scope: Scope, f: Frame, g: Frame)
    ensures Equiv(scope, f, g) <==>
      SameNode(f, g) && Divides(Width(f), |Children(f)|) && Divides(Width(f), |Children(g)|) &&
      if Reorders(scope, f) then SameUpToOrder(scope, Children(f), Children(g), Width(f))
      else EquivAll(scope, Children(f), Children(g))
  {
    if SameNode(f, g) { SameNodeFacts(scope, f, g); }
    NodesOfChildren(f);
    hide SameNode, Width, Reorders, Children, EquivAll, SameUpToOrder;
  }

  lemma {:induction false} EquivSymmetric(scope: Scope, f: Frame, g: Frame)
    requires Equiv(scope, f, g)
    ensures Equiv(scope, g, f)
    decreases Nodes(f), 0
  {
    NodesOfChildren(f);
    EquivMeaning(scope, f, g);
    SameNodeFacts(scope, f, g);
    EquivMeaning(scope, g, f);
    hide Equiv, EquivAll, Chunks, SameNode, Width, Reorders, Children;
    var fs, gs, w := Children(f), Children(g), Width(f);
    if Reorders(scope, f) {
      var us: seq<Unit> :| multiset(us) == multiset(Chunks(gs, w)) && EquivAll(scope, fs, Concat(us));
      EquivAllSymmetric(scope, fs, Concat(us));
      FlipOrder(scope, fs, gs, us, w);
    } else {
      EquivAllSymmetric(scope, fs, gs);
    }
  }

  lemma {:induction false} EquivAllSymmetric(scope: Scope, fs: seq<Frame>, gs: seq<Frame>)
    requires EquivAll(scope, fs, gs)
    ensures EquivAll(scope, gs, fs)
    decreases NodesAll(fs), 1
  {
    hide Equiv;
    if fs != [] {
      EquivSymmetric(scope, fs[0], gs[0]);
      EquivAllSymmetric(scope, fs[1..], gs[1..]);
    }
  }

  lemma {:induction false} EquivTransitive(scope: Scope, f: Frame, g: Frame, h: Frame)
    requires Equiv(scope, f, g) && Equiv(scope, g, h)
    ensures Equiv(scope, f, h)
    decreases Nodes(f), 0
  {
    NodesOfChildren(f);
    EquivMeaning(scope, f, g);
    EquivMeaning(scope, g, h);
    EquivMeaning(scope, f, h);
    SameNodeFacts(scope, f, g);
    SameNodeFacts(scope, g, h);
    SameNodeChain(f, g, h);
    hide Equiv, EquivAll, Chunks, SameNode, Width, Reorders, Children;
    var fs, gs, hs, w := Children(f), Children(g), Children(h), Width(f);
    if Reorders(scope, f) {
      var us: seq<Unit> :| multiset(us) == multiset(Chunks(gs, w)) && EquivAll(scope, fs, Concat(us));
      var ds := ChainOrder(scope, gs, hs, us, w);
      EquivAllTransitive(scope, fs, Concat(us), Concat(ds));
    } else {
      EquivAllTransitive(scope, fs, gs, hs);
    }
  }

  lemma {:induction false} EquivAllTransitive(scope: Scope, fs: seq<Frame>, gs: seq<Frame>, hs: seq<Frame>)
    requires EquivAll(scope, fs, gs) && EquivAll(scope, gs, hs)
    ensures EquivAll(scope, fs, hs)
    decreases NodesAll(fs), 1
  {
    hide Equiv;
    if fs != [] {
      EquivTransitive(scope, fs[0], gs[0], hs[0]);
      EquivAllTransitive(scope, fs[1..], gs[1..], hs[1..]);
    }
  }

  // ------------------------------------------------------------ what Canon keeps

  lemma OwnWithChildren(f: Frame, fs: seq<Frame>)
    requires |fs| == |Children(f)|
    ensures Own(WithChildren(f, fs), None) == Own(f, None) && Children(WithChildren(f, fs)) == fs
    ensures SameNode(f, WithChildren(f, fs))
  {
    ChildrenOfWithChildren(f, fs);
    hide Flatten, Decimal, IsText;
  }

  /** Whether `p` holds of a node does not depend on what its children are. */
  ghost predicate Nodewise(p: Frame -> bool) {
    forall f, fs {:trigger p(f), WithChildren(f, fs)} ::
      |fs| == |Children(f)| && p(f) ==> p(WithChildren(f, fs))
  }

  lemma NodesAreNodewise()
    ensures Nodewise(PlainNode) && Nodewise(RoundTripNode)
  {
    hide Decimal, IsText, KeepsParts;
    forall f, fs | |fs| == |Children(f)| ensures PlainNode(f) ==> PlainNode(WithChildren(f, fs)) {
      ChildrenOfWithChildren(f, fs);
    }
    forall f, fs | |fs| == |Children(f)| ensures RoundTripNode(f) ==> RoundTripNode(WithChildren(f, fs)) {
      ChildrenOfWithChildren(f, fs);
    }
  }

  lemma OwnOfSameNode(f: Frame, g: Frame)
    requires SameNode(f, g) && |Children(f)| == |Children(g)|
    ensures Own(f, None) == Own(g, None)
  {
    if IsAggregate(f) {
      OwnOfAggregate(f);
      OwnOfAggregate(g);
      hide Own, Children, Decimal;
    } else {
      hide Own, Children;
    }
  }

  lemma OwnOfAggregate(f: Frame)
    requires IsAggregate(f)
    ensures Own(f, None) == PushLine(Prefix(f), Decimal(|Children(f)| / (if HasEntries(f) then 2 else 1)))
    ensures HasEntries(f) <==> Prefix(f) == 37 || Prefix(f) == 124
  {
    hide Flatten, Decimal;
  }

  lemma WholeWidth(f: Frame)
    ensures Divides(Width(f), |Children(f)|)
  {}

  /** The children of the canonical frame. */
  lemma CanonChildren(scope: Scope, f: Frame)
    ensures var g, fs := Canon(scope, f), CanonAll(scope, Children(f));
      && Divides(Width(f), |fs|)
      && SameNode(f, g) && Own(g, None) == Own(f, None)
      && |Children(g)| == |Children(f)| && g == WithChildren(f, Children(g))
      && Children(g) == if Reorders(scope, f) then SortUnits(fs, Width(f)) else fs
  {
    hide Own, SameNode, PlainNode, SortUnits, CanonAll, Canon, WithChildren, Reorders;
    var fs := CanonAll(scope, Children(f));
    WholeWidth(f);
    OwnWithChildren(f, Arranged(scope, f, fs));
    CanonUnfolds(scope, f);
    hide Children, Width;
  }

  lemma CanonUnfolds(scope: Scope, f: Frame)
    ensures Canon(scope, f) == WithChildren(f, Arranged(scope, f, CanonAll(scope, Children(f))))
  {
    NodesOfChildren(f);
    hide CanonAll, Arranged, WithChildren, Children;
  }

  lemma EncodeParts(f: Frame)
    ensures Encode(f) == Own(f, None) + EncodeAll(Children(f))
  {
    NodesOfChildren(f);
  }

  function Encodings(fs: seq<Frame>): (r: seq<bytes>) {
    if fs == [] then [] else [Encode(fs[0])] + Encodings(fs[1..])
  }

  lemma {:induction false} EncodingsDecideBytes(fs: seq<Frame>, gs: seq<Frame>)
    requires Encodings(fs) == Encodings(gs)
    ensures |fs| == |gs| && EncodeAll(fs) == EncodeAll(gs)
  {
    hide Encode;
    if fs != [] {
      assert Encodings(fs)[0] == Encodings(gs)[0] && Encodings(fs)[1..] == Encodings(gs)[1..];
      EncodingsDecideBytes(fs[1..], gs[1..]);
    }
  }

  lemma {:induction false} EncodingsDecideKeys(fs: seq<Frame>, gs: seq<Frame>, w: nat)
    requires Encodings(fs) == Encodings(gs) && Divides(w, |fs|) && Divides(w, |gs|)
    ensures Keys(Chunks(fs, w), UnitKey) == Keys(Chunks(gs, w), UnitKey)
    decreases |fs|
  {
    hide Encode;
    if fs != [] {
      EncodingsDrop(fs, w);
      EncodingsDrop(gs, w);
      EncodingsDecideKeys(fs[w..], gs[w..], w);
      KeysOfChunks(fs, w);
      KeysOfChunks(gs, w);
      assert Encodings(fs)[0] == Encodings(gs)[0];
      if w == 2 {
        assert Encodings(fs)[1..][0] == Encodings(gs)[1..][0];
      }
    }
  }

  lemma KeysOfChunks(fs: seq<Frame>, w: nat)
    requires fs != [] && Divides(w, |fs|)
    ensures Keys(Chunks(fs, w), UnitKey)
         == [(Encode(fs[0]), if w == 2 then Encode(fs[1]) else [])] + Keys(Chunks(fs[w..], w), UnitKey)
  {
    hide Encode;
    var us := Chunks(fs, w);
    assert us[1..] == Chunks(fs[w..], w);
  }

  lemma EncodingsDrop(fs: seq<Frame>, w: nat)
    requires fs != [] && Divides(w, |fs|)
    ensures Encodings(fs) != [] && Encodings(fs)[0] == Encode(fs[0]) && |Encodings(fs)| >= w
    ensures w == 2 ==> Encodings(fs)[1..][0] == Encode(fs[1])
    ensures Encodings(fs[w..]) == Encodings(fs)[w..]
  {
    hide Encode;
    assert Encodings(fs)[1..] == Encodings(fs[1..]);
    if w == 2 {
      assert Encodings(fs[1..])[1..] == Encodings(fs[1..][1..]);
      assert fs[1..][1..] == fs[2..];
      assert Encodings(fs)[2..] == Encodings(fs)[1..][1..];
    }
  }

  // ----------------------------------------- equivalent frames, identical bytes

  /** The key a unit will have once its frames are canonical. */
  function CanonKey(scope: Scope): (r: Unit -> Key) { u => UnitKey(CanonAll(scope, u)) }

  lemma {:induction false} CanonAllConcat(scope: Scope, fs: seq<Frame>, gs: seq<Frame>)
    ensures CanonAll(scope, fs + gs) == CanonAll(scope, fs) + CanonAll(scope, gs)
  {
    hide Canon;
    if fs == [] {
      assert fs + gs == gs;
    } else {
      assert (fs + gs)[1..] == fs[1..] + gs;
      CanonAllConcat(scope, fs[1..], gs);
    }
  }

  lemma CanonAllSplit(scope: Scope, fs: seq<Frame>, w: nat)
    requires w <= |fs|
    ensures CanonAll(scope, fs)[..w] == CanonAll(scope, fs[..w]) && CanonAll(scope, fs)[w..] == CanonAll(scope, fs[w..])
  {
    hide Canon;
    assert fs == fs[..w] + fs[w..];
    CanonAllConcat(scope, fs[..w], fs[w..]);
  }

  lemma {:induction false} KeysOfCanon(scope: Scope, fs: seq<Frame>, w: nat)
    requires Divides(w, |fs|)
    ensures Keys(Chunks(CanonAll(scope, fs), w), UnitKey) == Keys(Chunks(fs, w), CanonKey(scope))
    decreases |fs|
  {
    hide CanonAll, UnitKey;
    if fs != [] {
      CanonAllSplit(scope, fs, w);
      KeysOfCanon(scope, fs[w..], w);
      var gs := CanonAll(scope, fs);
      assert Chunks(gs, w)[1..] == Chunks(gs[w..], w) && Chunks(fs, w)[1..] == Chunks(fs[w..], w);
    } else {
      assert CanonAll(scope, fs) == [];
    }
  }

  lemma SortedBytes(scope: Scope, fs: seq<Frame>, gs: seq<Frame>, us: seq<Unit>, w: nat)
    requires Divides(w, |fs|) && Divides(w, |gs|) && multiset(us) == multiset(Chunks(gs, w))
    requires |Concat(us)| == |fs| && Encodings(CanonAll(scope, fs)) == Encodings(CanonAll(scope, Concat(us)))
    ensures EncodeAll(SortUnits(CanonAll(scope, fs), w)) == EncodeAll(SortUnits(CanonAll(scope, gs), w))
  {
    hide CanonAll, SortUnits, Encodings, CanonKey;
    ChunksOf(gs, w);
    WidthOfPermutation(us, Chunks(gs, w), w);
    ChunksOfConcat(us, w);
    EncodingsDecideKeys(CanonAll(scope, fs), CanonAll(scope, Concat(us)), w);
    KeysOfCanon(scope, Concat(us), w);
    KeysOfCanon(scope, gs, w);
    KeysOfPermutation(us, Chunks(gs, w), CanonKey(scope));
    SortUnitsBytes(CanonAll(scope, fs), CanonAll(scope, gs), w);
  }

  lemma {:induction false} EquivGivesBytes(scope: Scope, f: Frame, g: Frame)
    requires Equiv(scope, f, g)
    ensures Encode(Canon(scope, f)) == Encode(Canon(scope, g))
    decreases Nodes(f), 0
  {
    hide EquivAll, Chunks, SameNode, Width, Reorders, Children, Canon, CanonAll, Encode, EncodeAll, Own, SortUnits, Encodings;
    NodesOfChildren(f);
    EquivMeaning(scope, f, g);
    SameNodeFacts(scope, f, g);
    CanonChildren(scope, f);
    CanonChildren(scope, g);
    EncodeParts(Canon(scope, f));
    EncodeParts(Canon(scope, g));
    var fs, gs, w := Children(f), Children(g), Width(f);
    if Reorders(scope, f) {
      var us: seq<Unit> :| multiset(us) == multiset(Chunks(gs, w)) && EquivAll(scope, fs, Concat(us));
      EquivAllGivesBytes(scope, fs, Concat(us));
      SortedBytes(scope, fs, gs, us, w);
      PermutedLength(fs, gs, us, w);
    } else {
      EquivAllGivesBytes(scope, fs, gs);
      EncodingsDecideBytes(CanonAll(scope, fs), CanonAll(scope, gs));
    }
    OwnOfSameNode(f, g);
  }

  lemma PermutedLength(fs: seq<Frame>, gs: seq<Frame>, us: seq<Unit>, w: nat)
    requires Divides(w, |gs|) && multiset(us) == multiset(Chunks(gs, w)) && |Concat(us)| == |fs|
    ensures |fs| == |gs|
  {
    ChunksOf(gs, w);
    WidthOfPermutation(us, Chunks(gs, w), w);
    ChunksOfConcat(us, w);
    ChunksOfConcat(Chunks(gs, w), w);
  }

  lemma {:induction false} EquivAllGivesBytes(scope: Scope, fs: seq<Frame>, gs: seq<Frame>)
    requires EquivAll(scope, fs, gs)
    ensures |fs| == |gs| && Encodings(CanonAll(scope, fs)) == Encodings(CanonAll(scope, gs))
    decreases NodesAll(fs), 1
  {
    hide Equiv, Canon, Encode;
    if fs != [] {
      EquivGivesBytes(scope, fs[0], gs[0]);
      EquivAllGivesBytes(scope, fs[1..], gs[1..]);
      assert CanonAll(scope, fs)[1..] == CanonAll(scope, fs[1..]);
      assert CanonAll(scope, gs)[1..] == CanonAll(scope, gs[1..]);
    }
  }
}
