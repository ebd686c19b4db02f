/** Units: what moves as a whole when a container is reordered, an element or a
    key with its value. */
module Units {
  import opened Bytes
  import opened Frames
  import opened Sorting

  type Unit = seq<Frame>

  function Concat(us: seq<Unit>): (r: seq<Frame>) {
    if us == [] then [] else us[0] + Concat(us[1..])
  }

  /** A row of `n` frames is made of whole units of one or two frames. */
  predicate Divides(w: nat, n: nat) { w == 1 || (w == 2 && n % 2 == 0) }

  /** Cut into pieces of `w` frames. */
  function Chunks(fs: seq<Frame>, w: nat): (us: seq<Unit>)
    requires Divides(w, |fs|)
    decreases |fs|
  {
    if fs == [] then [] else [fs[..w]] + Chunks(fs[w..], w)
  }

  predicate AllOfWidth(us: seq<Unit>, w: nat) { forall u :: u in us ==> |u| == w }

  lemma {:induction false} ChunksOf(fs: seq<Frame>, w: nat)
    requires Divides(w, |fs|)
    ensures AllOfWidth(Chunks(fs, w), w) && Concat(Chunks(fs, w)) == fs
    decreases |fs|
  {
    if fs != [] {
      ChunksOf(fs[w..], w);
      assert ([fs[..w]] + Chunks(fs[w..], w))[1..] == Chunks(fs[w..], w);
    }
  }

  lemma {:induction false} ChunksOfConcat(us: seq<Unit>, w: nat)
    requires (w == 1 || w == 2) && AllOfWidth(us, w)
    ensures |Concat(us)| == (if w == 1 then |us| else 2 * |us|) && Chunks(Concat(us), w) == us
  {
    if us != [] {
      assert us[0] in us;
      assert AllOfWidth(us[1..], w) by { assert forall u :: u in us[1..] ==> u in us; }
      ChunksOfConcat(us[1..], w);
      var fs := Concat(us);
      assert fs[..w] == us[0] && fs[w..] == Concat(us[1..]);
      assert us == [us[0]] + us[1..];
    }
  }

  lemma WidthOfPermutation(us: seq<Unit>, vs: seq<Unit>, w: nat)
    requires multiset(us) == multiset(vs) && AllOfWidth(vs, w)
    ensures AllOfWidth(us, w) && |us| == |vs|
  {
    SameSize(us, vs);
    forall u | u in us ensures |u| == w {
      assert u in multiset(us);
      assert u in vs;
    }
  }

  /** How units are compared: the encodings of the element, or of key and value. */
  function UnitKey(u: Unit): (r: Key) {
    (if |u| > 0 then Encode(u[0]) else [], if |u| > 1 then Encode(u[1]) else [])
  }

  function Spell(ks: seq<Key>): (s: bytes) {
    if ks == [] then [] else ks[0].0 + ks[0].1 + Spell(ks[1..])
  }

  lemma EncodeUnit(u: Unit)
    requires |u| == 1 || |u| == 2
    ensures EncodeAll(u) == UnitKey(u).0 + UnitKey(u).1
  {
    hide Encode;
    assert u[1..] == if |u| == 1 then [] else [u[1]];
    assert |u| == 2 ==> EncodeAll(u[1..]) == Encode(u[1]) + [];
  }

  lemma {:induction false} EncodeConcat(fs: seq<Frame>, gs: seq<Frame>)
    ensures EncodeAll(fs + gs) == EncodeAll(fs) + EncodeAll(gs)
  {
    hide Encode;
    if fs == [] {
      assert fs + gs == gs;
    } else {
      assert (fs + gs)[1..] == fs[1..] + gs;
      EncodeConcat(fs[1..], gs);
      Assoc(Encode(fs[0]), EncodeAll(fs[1..]), EncodeAll(gs));
    }
  }

  /** The bytes of a row of units depend only on their keys. */
  lemma {:induction false} EncodeUnits(us: seq<Unit>, w: nat)
    requires (w == 1 || w == 2) && AllOfWidth(us, w)
    ensures EncodeAll(Concat(us)) == Spell(Keys(us, UnitKey))
  {
    if us != [] {
      assert us[0] in us;
      assert AllOfWidth(us[1..], w) by { assert forall u :: u in us[1..] ==> u in us; }
      EncodeUnits(us[1..], w);
      EncodeConcat(us[0], Concat(us[1..]));
      EncodeUnit(us[0]);
      assert Keys(us, UnitKey)[1..] == Keys(us[1..], UnitKey);
    }
  }

  // --------------------------------------------------------- sorted containers

  lemma SortUnitsLength(fs: seq<Frame>, w: nat)
    requires Divides(w, |fs|)
    ensures |Concat(Sort(Chunks(fs, w), UnitKey))| == |fs|
  {
    var us := Chunks(fs, w);
    ChunksOf(fs, w);
    SortIsSorted(us, UnitKey);
    WidthOfPermutation(Sort(us, UnitKey), us, w);
    ChunksOfConcat(Sort(us, UnitKey), w);
    ChunksOfConcat(us, w);
  }

  /** The frames with their units in sorted order. */
  function SortUnits(fs: seq<Frame>, w: nat): (gs: seq<Frame>)
    requires Divides(w, |fs|)
    ensures |gs| == |fs|
  {
    SortUnitsLength(fs, w);
    Concat(Sort(Chunks(fs, w), UnitKey))
  }

  lemma SortUnitsChunks(fs: seq<Frame>, w: nat)
    requires Divides(w, |fs|)
    ensures var gs := SortUnits(fs, w);
      |gs| == |fs| && Chunks(gs, w) == Sort(Chunks(fs, w), UnitKey)
      && multiset(Chunks(gs, w)) == multiset(Chunks(fs, w)) && Sorted(Keys(Chunks(gs, w), UnitKey))
      && AllOfWidth(Chunks(gs, w), w)
  {
    var us := Chunks(fs, w);
    ChunksOf(fs, w);
    SortIsSorted(us, UnitKey);
    WidthOfPermutation(Sort(us, UnitKey), us, w);
    ChunksOfConcat(Sort(us, UnitKey), w);
  }

  lemma {:induction false} ConcatMember(us: seq<Unit>, x: Frame)
    ensures x in Concat(us) <==> exists u :: u in us && x in u
  {
    if us != [] {
      ConcatMember(us[1..], x);
      assert us[0] in us;
      assert forall u :: u in us <==> u == us[0] || u in us[1..];
    }
  }

  lemma SortUnitsMember(fs: seq<Frame>, w: nat, x: Frame)
    requires Divides(w, |fs|)
    ensures x in SortUnits(fs, w) <==> x in fs
  {
    var us, vs := Chunks(fs, w), Chunks(SortUnits(fs, w), w);
    SortUnitsChunks(fs, w);
    ChunksOf(fs, w);
    ChunksOf(SortUnits(fs, w), w);
    ConcatMember(us, x);
    ConcatMember(vs, x);
    assert forall u :: u in us <==> u in multiset(us);
    assert forall u :: u in vs <==> u in multiset(vs);
  }

  /** Sorting twice changes nothing more. */
  lemma SortUnitsIdempotent(fs: seq<Frame>, w: nat)
    requires Divides(w, |fs|)
    ensures |SortUnits(fs, w)| == |fs| && SortUnits(SortUnits(fs, w), w) == SortUnits(fs, w)
  {
    SortUnitsChunks(fs, w);
    SortOfSorted(Chunks(SortUnits(fs, w), w), UnitKey);
    ChunksOf(SortUnits(fs, w), w);
  }

  /** Rows whose units have the same keys, in any order, sort to the same bytes. */
  lemma SortUnitsBytes(fs: seq<Frame>, gs: seq<Frame>, w: nat)
    requires Divides(w, |fs|) && Divides(w, |gs|)
    requires multiset(Keys(Chunks(fs, w), UnitKey)) == multiset(Keys(Chunks(gs, w), UnitKey))
    ensures EncodeAll(SortUnits(fs, w)) == EncodeAll(SortUnits(gs, w))
  {
    SortUnitsChunks(fs, w);
    SortUnitsChunks(gs, w);
    var us, vs := Chunks(fs, w), Chunks(gs, w);
    KeysOfPermutation(Sort(us, UnitKey), us, UnitKey);
    KeysOfPermutation(Sort(vs, UnitKey), vs, UnitKey);
    SortedIsUnique(Keys(Sort(us, UnitKey), UnitKey), Keys(Sort(vs, UnitKey), UnitKey));
    EncodeUnits(Sort(us, UnitKey), w);
    EncodeUnits(Sort(vs, UnitKey), w);
  }
}
