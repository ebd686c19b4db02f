/** What canonical bytes say about a reply, in terms of its items, its pairs and the
    name of its command. */
module Meaning {
  import opened Bytes
  import opened Frames
  import opened Sorting
  import opened Units
  import opened RoundTrip
  import opened Canonical
  import opened NormalForm

  // ------------------------------------------------------ equality item by item

  /** The items match one by one. */
  ghost predicate Pointwise(scope: Scope, fs: seq<Frame>, gs: seq<Frame>) {
    |fs| == |gs| && forall i :: 0 <= i < |fs| ==> Equiv(scope, fs[i], gs[i])
  }

  lemma {:induction false} EquivAllIsPointwise(scope: Scope, fs: seq<Frame>, gs: seq<Frame>)
    ensures EquivAll(scope, fs, gs) <==> Pointwise(scope, fs, gs)
  {
    hide Equiv;
    if fs != [] && gs != [] {
      EquivAllIsPointwise(scope, fs[1..], gs[1..]);
      if EquivAll(scope, fs, gs) {
        forall i | 0 <= i < |fs| ensures Equiv(scope, fs[i], gs[i]) {
          if i > 0 { assert fs[i] == fs[1..][i - 1] && gs[i] == gs[1..][i - 1]; }
        }
      }
    }
  }

  /** The items match after reordering one side. */
  ghost predicate InSomeOrder(scope: Scope, fs: seq<Frame>, gs: seq<Frame>) {
    exists hs: seq<Frame> :: multiset(hs) == multiset(gs) && Pointwise(scope, fs, hs)
  }

  ghost predicate SameEntry(scope: Scope, e: Entry, d: Entry) { Equiv(scope, e.key, d.key) && Equiv(scope, e.value, d.value) }

  ghost predicate EntriesPointwise(scope: Scope, es: seq<Entry>, ds: seq<Entry>) {
    |es| == |ds| && forall i :: 0 <= i < |es| ==> SameEntry(scope, es[i], ds[i])
  }

  /** The pairs match, key with key and value with value, after reordering one side. */
  ghost predicate PairsInSomeOrder(scope: Scope, es: seq<Entry>, ds: seq<Entry>) {
    exists xs: seq<Entry> :: multiset(xs) == multiset(ds) && EntriesPointwise(scope, es, xs)
  }

  // ------------------------------------------------------------ units and items

  function Image<A, B>(xs: seq<A>, f: A -> B): (ys: seq<B>)
    ensures |ys| == |xs| && forall i :: 0 <= i < |xs| ==> ys[i] == f(xs[i])
  {
    seq(|xs|, i requires 0 <= i < |xs| => f(xs[i]))
  }

  lemma ImageWithout<A, B>(xs: seq<A>, f: A -> B, i: nat)
    requires i < |xs|
    ensures Image(Without(xs, i), f) == Without(Image(xs, f), i)
  {}

  lemma {:induction false} ImageOfPermutation<A, B>(xs: seq<A>, ys: seq<A>, f: A -> B)
    requires multiset(xs) == multiset(ys)
    ensures multiset(Image(xs, f)) == multiset(Image(ys, f))
    decreases |xs|
  {
    hide Image, Without;
    SameSize(xs, ys);
    if xs != [] {
      assert xs[0] in multiset(ys);
      var i :| 0 <= i < |ys| && ys[i] == xs[0];
      Tail(xs);
      Remove(ys, i);
      ImageOfPermutation(xs[1..], Without(ys, i), f);
      ImageWithout(ys, f, i);
      ImageTail(xs, f);
      var a, b := Image(xs, f), Image(ys, f);
      Remove(b, i);
      Tail(a);
      AddBack(multiset(a), multiset(b), a[0]);
    }
  }

  lemma ImageTail<A, B>(xs: seq<A>, f: A -> B)
    requires xs != []
    ensures Image(xs, f)[1..] == Image(xs[1..], f)
  {}

  lemma AddBack<B>(a: multiset<B>, b: multiset<B>, x: B)
    requires x in a && x in b && a - multiset{x} == b - multiset{x}
    ensures a == b
  {
    assert a == (a - multiset{x}) + multiset{x} && b == (b - multiset{x}) + multiset{x};
  }

  function UnitOf(f: Frame): (u: Unit) { [f] }

  function FirstOf(u: Unit): (f: Frame) { if u == [] then Null else u[0] }

  function PairOf(e: Entry): (u: Unit) { [e.key, e.value] }

  function EntryOf(u: Unit): (e: Entry) { if |u| == 2 then Entry(u[0], u[1]) else Entry(Null, Null) }

  lemma NoUnits()
    ensures Chunks([], 1) == [] && Chunks([], 2) == [] && Concat([]) == []
    ensures Image([], UnitOf) == [] && Image([], PairOf) == []
  {}

  lemma ItemUnitsStep(fs: seq<Frame>)
    requires fs != [] && Chunks(fs[1..], 1) == Image(fs, UnitOf)[1..] && Concat(Image(fs, UnitOf)[1..]) == fs[1..]
    ensures Chunks(fs, 1) == Image(fs, UnitOf) && Concat(Image(fs, UnitOf)) == fs
  {
    var us := Image(fs, UnitOf);
    assert us == [us[0]] + us[1..] && us[0] == [fs[0]];
    assert fs[..1] == [fs[0]] && fs == [fs[0]] + fs[1..];
  }

  lemma PairUnitsStep(es: seq<Entry>)
    requires es != [] && Chunks(Flatten(es[1..]), 2) == Image(es, PairOf)[1..]
    requires Concat(Image(es, PairOf)[1..]) == Flatten(es[1..])
    ensures Chunks(Flatten(es), 2) == Image(es, PairOf) && Concat(Image(es, PairOf)) == Flatten(es)
  {
    var us, fs := Image(es, PairOf), Flatten(es);
    assert us == [us[0]] + us[1..] && us[0] == [es[0].key, es[0].value];
    assert fs[..2] == us[0] && fs[2..] == Flatten(es[1..]);
  }

  lemma {:induction false} ItemUnits(fs: seq<Frame>)
    ensures Chunks(fs, 1) == Image(fs, UnitOf) && Concat(Image(fs, UnitOf)) == fs
  {
    hide Chunks, Concat, Image, UnitOf;
    if fs == [] {
      NoUnits();
    } else {
      ItemUnits(fs[1..]);
      ImageTail(fs, UnitOf);
      ItemUnitsStep(fs);
    }
  }

  lemma {:induction false} PairUnits(es: seq<Entry>)
    ensures Chunks(Flatten(es), 2) == Image(es, PairOf) && Concat(Image(es, PairOf)) == Flatten(es)
  {
    hide Chunks, Concat, Image, PairOf;
    if es == [] {
      NoUnits();
    } else {
      PairUnits(es[1..]);
      ImageTail(es, PairOf);
      PairUnitsStep(es);
    }
  }

  lemma ItemsOfUnits(us: seq<Unit>)
    requires AllOfWidth(us, 1)
    ensures Image(Image(us, FirstOf), UnitOf) == us
  {
    forall i | 0 <= i < |us| ensures UnitOf(FirstOf(us[i])) == us[i] { assert us[i] in us; }
  }

  lemma EntriesOfUnits(us: seq<Unit>)
    requires AllOfWidth(us, 2)
    ensures Image(Image(us, EntryOf), PairOf) == us
  {
    forall i | 0 <= i < |us| ensures PairOf(EntryOf(us[i])) == us[i] { assert us[i] in us; }
  }

  lemma ItemsAgain(fs: seq<Frame>)
    ensures Image(Image(fs, UnitOf), FirstOf) == fs
  {}

  lemma EntriesAgain(es: seq<Entry>)
    ensures Image(Image(es, PairOf), EntryOf) == es
  {}

  lemma ItemsUpToOrder(scope: Scope, fs: seq<Frame>, gs: seq<Frame>)
    ensures SameUpToOrder(scope, fs, gs, 1) <==> InSomeOrder(scope, fs, gs)
  {
    hide EquivAll, Pointwise, Chunks, Concat, Image, UnitOf, FirstOf;
    ItemUnits(gs);
    ChunksOf(gs, 1);
    if SameUpToOrder(scope, fs, gs, 1) {
      var us: seq<Unit> :| multiset(us) == multiset(Chunks(gs, 1)) && EquivAll(scope, fs, Concat(us));
      WidthOfPermutation(us, Chunks(gs, 1), 1);
      var hs := Image(us, FirstOf);
      ItemsOfUnits(us);
      ItemUnits(hs);
      ImageOfPermutation(us, Image(gs, UnitOf), FirstOf);
      ItemsAgain(gs);
      EquivAllIsPointwise(scope, fs, hs);
    }
    if InSomeOrder(scope, fs, gs) {
      var hs: seq<Frame> :| multiset(hs) == multiset(gs) && Pointwise(scope, fs, hs);
      ItemUnits(hs);
      ImageOfPermutation(hs, gs, UnitOf);
      EquivAllIsPointwise(scope, fs, hs);
    }
  }

  lemma {:induction false} FlattenPointwise(scope: Scope, es: seq<Entry>, ds: seq<Entry>)
    ensures EquivAll(scope, Flatten(es), Flatten(ds)) <==> EntriesPointwise(scope, es, ds)
  {
    hide Equiv, SameEntry;
    if es != [] && ds != [] {
      FlattenPointwise(scope, es[1..], ds[1..]);
      EntryCons(scope, es[0], ds[0], Flatten(es[1..]), Flatten(ds[1..]));
      EntriesCons(scope, es, ds);
      hide EquivAll, EntriesPointwise;
    } else {
      hide EquivAll;
      EquivAllLength(scope, Flatten(es), Flatten(ds));
      if es == [] && ds == [] { EquivAllReflexive(scope, []); }
    }
  }

  lemma EquivAllLength(scope: Scope, fs: seq<Frame>, gs: seq<Frame>)
    ensures EquivAll(scope, fs, gs) ==> |fs| == |gs|
  {}

  lemma EntryCons(scope: Scope, e: Entry, d: Entry, fs: seq<Frame>, gs: seq<Frame>)
    ensures EquivAll(scope, [e.key, e.value] + fs, [d.key, d.value] + gs) <==>
            SameEntry(scope, e, d) && EquivAll(scope, fs, gs)
  {
    hide Equiv;
    var a, b := [e.key, e.value], [d.key, d.value];
    EquivAllConcat(scope, a, fs, b, gs);
    EquivAllIsPointwise(scope, a, b);
    assert a[0] == e.key && a[1] == e.value && b[0] == d.key && b[1] == d.value;
    hide EquivAll;
  }

  lemma EntriesCons(scope: Scope, es: seq<Entry>, ds: seq<Entry>)
    requires es != [] && ds != []
    ensures EntriesPointwise(scope, es, ds) <==> SameEntry(scope, es[0], ds[0]) && EntriesPointwise(scope, es[1..], ds[1..])
  {
    hide SameEntry;
    if SameEntry(scope, es[0], ds[0]) && EntriesPointwise(scope, es[1..], ds[1..]) {
      forall i | 0 <= i < |es| ensures SameEntry(scope, es[i], ds[i]) {
        if i > 0 { assert es[i] == es[1..][i - 1] && ds[i] == ds[1..][i - 1]; }
      }
    }
    if EntriesPointwise(scope, es, ds) {
      forall i | 0 <= i < |es| - 1 ensures SameEntry(scope, es[1..][i], ds[1..][i]) {
        assert es[1..][i] == es[i + 1] && ds[1..][i] == ds[i + 1];
      }
    }
  }

  lemma PairsUpToOrder(scope: Scope, es: seq<Entry>, ds: seq<Entry>)
    ensures SameUpToOrder(scope, Flatten(es), Flatten(ds), 2) <==> PairsInSomeOrder(scope, es, ds)
  {
    hide EquivAll, EntriesPointwise, Chunks, Concat, Image, PairOf, EntryOf, Flatten;
    PairUnits(ds);
    ChunksOf(Flatten(ds), 2);
    if SameUpToOrder(scope, Flatten(es), Flatten(ds), 2) {
      var us: seq<Unit> :| multiset(us) == multiset(Chunks(Flatten(ds), 2)) && EquivAll(scope, Flatten(es), Concat(us));
      WidthOfPermutation(us, Chunks(Flatten(ds), 2), 2);
      var xs := Image(us, EntryOf);
      EntriesOfUnits(us);
      PairUnits(xs);
      ImageOfPermutation(us, Image(ds, PairOf), EntryOf);
      EntriesAgain(ds);
      FlattenPointwise(scope, es, xs);
    }
    if PairsInSomeOrder(scope, es, ds) {
      var xs: seq<Entry> :| multiset(xs) == multiset(ds) && EntriesPointwise(scope, es, xs);
      PairUnits(xs);
      ImageOfPermutation(xs, ds, PairOf);
      FlattenPointwise(scope, es, xs);
    }
  }

  // ------------------------------------------------- what equivalence means

  /** Maps and attributes are equivalent when their pairs are, in some order. */
  lemma MapsMean(scope: Scope, es: seq<Entry>, ds: seq<Entry>)
    ensures Equiv(scope, Map(es), Map(ds)) <==> PairsInSomeOrder(scope, es, ds)
    ensures Equiv(scope, Attribute(es), Attribute(ds)) <==> PairsInSomeOrder(scope, es, ds)
  {
    EquivMeaning(scope, Map(es), Map(ds));
    EquivMeaning(scope, Attribute(es), Attribute(ds));
    PairsUpToOrder(scope, es, ds);
    hide Equiv, PairsInSomeOrder, Flatten, SameUpToOrder;
  }

  /** Sets are equivalent when their members are, in some order. */
  lemma SetsMean(scope: Scope, fs: seq<Frame>, gs: seq<Frame>)
    ensures Equiv(scope, Set(fs), Set(gs)) <==> InSomeOrder(scope, fs, gs)
  {
    EquivMeaning(scope, Set(fs), Set(gs));
    ItemsUpToOrder(scope, fs, gs);
    hide Equiv, InSomeOrder, SameUpToOrder;
  }

  /** The order of arrays and pushes counts, except when every container is unordered. */
  lemma ArraysMean(fs: seq<Frame>, gs: seq<Frame>)
    ensures Equiv(UnorderedContainers, Array(fs), Array(gs)) <==> Pointwise(UnorderedContainers, fs, gs)
    ensures Equiv(UnorderedContainers, Push(fs), Push(gs)) <==> Pointwise(UnorderedContainers, fs, gs)
    ensures Equiv(EveryContainer, Array(fs), Array(gs)) <==> InSomeOrder(EveryContainer, fs, gs)
    ensures Equiv(EveryContainer, Push(fs), Push(gs)) <==> InSomeOrder(EveryContainer, fs, gs)
  {
    EquivMeaning(UnorderedContainers, Array(fs), Array(gs));
    EquivMeaning(UnorderedContainers, Push(fs), Push(gs));
    EquivMeaning(EveryContainer, Array(fs), Array(gs));
    EquivMeaning(EveryContainer, Push(fs), Push(gs));
    EquivAllIsPointwise(UnorderedContainers, fs, gs);
    ItemsUpToOrder(EveryContainer, fs, gs);
    hide Equiv, InSomeOrder, SameUpToOrder, EquivAll, Pointwise;
  }

  /** Scalars are equivalent to themselves alone, and no container to one of another
      kind. */
  lemma OthersMean(scope: Scope, f: Frame, g: Frame)
    ensures !IsAggregate(f) ==> (Equiv(scope, f, g) <==> f == g)
    ensures Equiv(scope, f, g) ==> f.Array? == g.Array? && f.Set? == g.Set? && f.Push? == g.Push?
    ensures Equiv(scope, f, g) ==> f.Map? == g.Map? && f.Attribute? == g.Attribute?
  {
    EquivMeaning(scope, f, g);
    if !IsAggregate(f) { EquivReflexive(scope, f); }
    hide Equiv, Flatten, SameUpToOrder, EquivAll;
  }

  // ------------------------------------------------------------ the form itself

  lemma {:induction false} SortedPairwise(ks: seq<Key>, i: nat, j: nat)
    requires Sorted(ks) && i < j < |ks|
    ensures KeyLeq(ks[i], ks[j])
  {
    hide KeyLeq;
    if i > 0 {
      SortedPairwise(ks[1..], i - 1, j - 1);
    } else if j > 1 {
      SortedPairwise(ks[1..], 0, j - 1);
      KeyLeqTransitive(ks[0], ks[1], ks[j]);
    }
  }

  lemma UnitsAscend(fs: seq<Frame>, w: nat, i: nat, j: nat)
    requires Divides(w, |fs|) && i < j < |Chunks(SortUnits(fs, w), w)|
    ensures var us := Chunks(SortUnits(fs, w), w); KeyLeq(UnitKey(us[i]), UnitKey(us[j]))
  {
    hide KeyLeq, UnitKey, SortUnits, Chunks;
    SortUnitsChunks(fs, w);
    var us := Chunks(SortUnits(fs, w), w);
    SortedPairwise(Keys(us, UnitKey), i, j);
    KeysAt(us, UnitKey, i);
    KeysAt(us, UnitKey, j);
  }

  /** The members of a canonical set ascend by their encodings. */
  lemma CanonicalSetAscends(scope: Scope, fs: seq<Frame>, i: nat, j: nat)
    requires i < j < |fs|
    ensures var g := Canon(scope, Set(fs));
      g.Set? && |g.items| == |fs| && BytesLeq(Encode(g.items[i]), Encode(g.items[j]))
  {
    hide Canon, CanonAll, SortUnits, Encode, BytesLeq, Chunks;
    var g := Canon(scope, Set(fs));
    CanonChildren(scope, Set(fs));
    assert Width(Set(fs)) == 1 && g.items == SortUnits(CanonAll(scope, fs), 1);
    assert |Chunks(g.items, 1)| == |fs| by { ItemUnits(g.items); }
    UnitsAscend(CanonAll(scope, fs), 1, i, j);
    ItemUnits(g.items);
    BytesLeqReflexive(Encode(g.items[i]));
  }

  /** The pairs of a canonical map ascend by the encodings of their keys, and by those of
      their values where these are equal. */
  lemma CanonicalMapAscends(scope: Scope, es: seq<Entry>, i: nat, j: nat)
    requires i < j < |es|
    ensures var g := Canon(scope, Map(es));
      && g.Map? && |g.entries| == |es|
      && var a, b := g.entries[i], g.entries[j];
         if Encode(a.key) == Encode(b.key) then BytesLeq(Encode(a.value), Encode(b.value))
         else BytesLeq(Encode(a.key), Encode(b.key))
  {
    hide Canon, CanonAll, SortUnits, Encode, BytesLeq, Flatten, Chunks;
    var g := Canon(scope, Map(es));
    CanonChildren(scope, Map(es));
    PairUnits(g.entries);
    UnitsAscend(CanonAll(scope, Flatten(es)), 2, i, j);
  }

  // -------------------------------------------------------- replies to commands

  /** A row of items in any order. */
  lemma ItemRowMeans(fs: seq<Frame>, gs: seq<Frame>)
    ensures SameRow(fs, gs, 1) <==> InSomeOrder(UnorderedContainers, fs, gs)
  {
    hide Equiv, SameUpToOrder, EquivAll;
    assert |fs| == |gs| ==> fs[..|fs|] == fs && gs[..|fs|] == gs && fs[|fs|..] == [] && gs[|fs|..] == [];
    ItemsUpToOrder(UnorderedContainers, fs, gs);
    EquivAllReflexive(UnorderedContainers, []);
    if InSomeOrder(UnorderedContainers, fs, gs) {
      var hs: seq<Frame> :| multiset(hs) == multiset(gs) && Pointwise(UnorderedContainers, fs, hs);
      SameSize(hs, gs);
    }
  }

  /** A row of pairs in any order; an odd last item stays in its place. */
  lemma PairRowMeans(fs: seq<Frame>, gs: seq<Frame>)
    ensures SameRow(fs, gs, 2) <==>
      && |fs| == |gs|
      && var k := |fs| - |fs| % 2;
         PairsInSomeOrder(UnorderedContainers, Paired(fs[..k]), Paired(gs[..k]))
         && Pointwise(UnorderedContainers, fs[k..], gs[k..])
  {
    hide Equiv, SameUpToOrder, EquivAll, Pointwise, PairsInSomeOrder, Paired, Flatten;
    if |fs| == |gs| {
      var k := |fs| - |fs| % 2;
      FlattenOfPaired(fs[..k]);
      FlattenOfPaired(gs[..k]);
      PairsUpToOrder(UnorderedContainers, Paired(fs[..k]), Paired(gs[..k]));
      EquivAllIsPointwise(UnorderedContainers, fs[k..], gs[k..]);
    }
  }

  lemma ShapeByName(command: string)
    ensures InAnyCase(command, "HGETALL") ==> ShapeOf(Some(command)).PairsUnordered?
    ensures IsItemCommand(command) ==> ShapeOf(Some(command)).ItemsUnordered?
    ensures !InAnyCase(command, "HGETALL") && !IsItemCommand(command) ==> ShapeOf(Some(command)).AsIs?
  {
    UpperIs(command, "HGETALL");
    UpperIs(command, "HKEYS");
    UpperIs(command, "HVALS");
    UpperIs(command, "SDIFF");
    UpperIs(command, "SINTER");
    UpperIs(command, "SMEMBERS");
    UpperIs(command, "SUNION");
    hide Upper, InAnyCase;
  }

  /** The commands whose reply is a set or a list of one hash column. */
  predicate IsItemCommand(command: string) {
    || InAnyCase(command, "HKEYS") || InAnyCase(command, "HVALS") || InAnyCase(command, "SDIFF")
    || InAnyCase(command, "SINTER") || InAnyCase(command, "SMEMBERS") || InAnyCase(command, "SUNION")
  }

  /** Replies to HGETALL, in any letter case, have equal canonical bytes exactly when
      their pairs match in some order. */
  lemma HashReplies(command: string, fs: seq<Frame>, gs: seq<Frame>)
    requires InAnyCase(command, "HGETALL") && Recoverable(Array(fs)) && Recoverable(Array(gs))
    ensures Encode(CanonReply(Unordered, Some(command), Array(fs))) == Encode(CanonReply(Unordered, Some(command), Array(gs)))
            <==> SameRow(fs, gs, 2)
  {
    ShapeByName(command);
    CanonReplyIsComplete(Unordered, Some(command), Array(fs), Array(gs));
    hide CanonReply, SameRow, ShapeOf, Encode, InAnyCase, Every, Equiv;
  }

  /** Replies to the six item commands, exactly when their items match in some order. */
  lemma ItemReplies(command: string, fs: seq<Frame>, gs: seq<Frame>)
    requires IsItemCommand(command) && Recoverable(Array(fs)) && Recoverable(Array(gs))
    ensures Encode(CanonReply(Unordered, Some(command), Array(fs))) == Encode(CanonReply(Unordered, Some(command), Array(gs)))
            <==> SameRow(fs, gs, 1)
  {
    ShapeByName(command);
    CanonReplyIsComplete(Unordered, Some(command), Array(fs), Array(gs));
    hide CanonReply, SameRow, ShapeOf, Encode, InAnyCase, Every, Equiv;
  }

  /** Replies to any other command, and replies that are not both arrays, exactly when
      they are equivalent. */
  lemma OtherReplies(command: Option<string>, f: Frame, g: Frame)
    requires Recoverable(f) && Recoverable(g)
    requires !(f.Array? && g.Array?) || command.None?
          || (!InAnyCase(command.value, "HGETALL") && !IsItemCommand(command.value))
    ensures Encode(CanonReply(Unordered, command, f)) == Encode(CanonReply(Unordered, command, g))
            <==> Equiv(UnorderedContainers, f, g)
  {
    if command.Some? { ShapeByName(command.value); }
    CanonReplyIsComplete(Unordered, command, f, g);
    hide CanonReply, SameRow, Encode, InAnyCase, Every, Equiv, Upper;
  }
}
