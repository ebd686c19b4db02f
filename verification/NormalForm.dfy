/** Canonicalization is a complete normal form, for frames and for replies to
    particular commands. */
module NormalForm {
  import opened Bytes
  import opened Frames
  import opened Sorting
  import opened Units
  import opened RoundTrip
  import opened Canonical

  // --------------------------------------- every frame equals its canonical form

  lemma {:induction false} CanonIsEquiv(scope: Scope, f: Frame)
    ensures Equiv(scope, f, Canon(scope, f))
    decreases Nodes(f), 0
  {
    hide Equiv, EquivAll, Canon, CanonAll, Own, PlainNode, SameNode, Children, Reorders, Width, SortUnits;
    NodesOfChildren(f);
    CanonChildren(scope, f);
    SameNodeFacts(scope, f, Canon(scope, f));
    var fs, w := Children(f), Width(f);
    var gs := CanonAll(scope, fs);
    CanonAllIsEquiv(scope, fs);
    EquivMeaning(scope, f, Canon(scope, f));
    if Reorders(scope, f) { SortedIsSame(scope, fs, gs, w); }
  }

  lemma SortedIsSame(scope: Scope, fs: seq<Frame>, gs: seq<Frame>, w: nat)
    requires Divides(w, |fs|) && Divides(w, |gs|) && EquivAll(scope, fs, gs)
    ensures SameUpToOrder(scope, fs, SortUnits(gs, w), w)
  {
    hide EquivAll, SortUnits;
    SortUnitsChunks(gs, w);
    ChunksOf(gs, w);
    var us := Chunks(gs, w);
    hide Chunks, Concat;
    assert multiset(us) == multiset(Chunks(SortUnits(gs, w), w)) && EquivAll(scope, fs, Concat(us));
  }

  lemma {:induction false} CanonAllIsEquiv(scope: Scope, fs: seq<Frame>)
    ensures EquivAll(scope, fs, CanonAll(scope, fs))
    decreases NodesAll(fs), 1
  {
    hide Equiv, Canon;
    if fs != [] {
      CanonIsEquiv(scope, fs[0]);
      CanonAllIsEquiv(scope, fs[1..]);
      assert CanonAll(scope, fs)[1..] == CanonAll(scope, fs[1..]);
    }
  }

  // ------------------------------------------------------------- idempotence

  lemma {:induction false} CanonAllFixed(scope: Scope, fs: seq<Frame>)
    ensures CanonAll(scope, fs) == fs <==> forall x :: x in fs ==> Canon(scope, x) == x
  {
    hide Canon;
    if fs != [] {
      CanonAllFixed(scope, fs[1..]);
      assert fs[0] in fs;
      var gs := CanonAll(scope, fs);
      assert gs[0] == Canon(scope, fs[0]) && gs[1..] == CanonAll(scope, fs[1..]);
      if gs == fs {
        assert gs[1..] == fs[1..];
        forall x | x in fs ensures Canon(scope, x) == x { assert x == fs[0] || x in fs[1..]; }
      }
      if forall x :: x in fs ==> Canon(scope, x) == x {
        forall x | x in fs[1..] ensures Canon(scope, x) == x { assert x in fs; }
        assert gs == [fs[0]] + fs[1..] == fs;
      }
    }
  }

  lemma SortedFixed(scope: Scope, fs: seq<Frame>, w: nat)
    requires Divides(w, |fs|) && CanonAll(scope, fs) == fs
    ensures CanonAll(scope, SortUnits(fs, w)) == SortUnits(fs, w)
  {
    hide CanonAll, Canon, SortUnits;
    CanonAllFixed(scope, fs);
    CanonAllFixed(scope, SortUnits(fs, w));
    forall x | x in SortUnits(fs, w) ensures Canon(scope, x) == x { SortUnitsMember(fs, w, x); }
  }

  lemma {:induction false} CanonIsIdempotent(scope: Scope, f: Frame)
    ensures Canon(scope, Canon(scope, f)) == Canon(scope, f)
    decreases Nodes(f), 0
  {
    hide Canon, CanonAll, Own, PlainNode, SameNode, Children, Reorders, Width, SortUnits, WithChildren;
    NodesOfChildren(f);
    var g := Canon(scope, f);
    CanonChildren(scope, f);
    SameNodeFacts(scope, f, g);
    CanonAllIsIdempotent(scope, Children(f));
    var fs, w := CanonAll(scope, Children(f)), Width(f);
    if Reorders(scope, f) {
      SortedFixed(scope, fs, w);
      SortUnitsIdempotent(fs, w);
    }
    CanonUnfolds(scope, g);
    ChildrenOfWithChildren(g, Children(g));
  }

  lemma {:induction false} CanonAllIsIdempotent(scope: Scope, fs: seq<Frame>)
    ensures CanonAll(scope, CanonAll(scope, fs)) == CanonAll(scope, fs)
    decreases NodesAll(fs), 1
  {
    hide Canon;
    if fs != [] {
      CanonIsIdempotent(scope, fs[0]);
      CanonAllIsIdempotent(scope, fs[1..]);
      assert CanonAll(scope, fs)[1..] == CanonAll(scope, fs[1..]);
    }
  }

  // ------------------------------------------------------------- printability

  lemma SortUnitsEvery(fs: seq<Frame>, w: nat, p: Frame -> bool)
    requires Divides(w, |fs|) && EveryAll(fs, p)
    ensures EveryAll(SortUnits(fs, w), p)
  {
    hide Every, EveryAll, SortUnits;
    EveryAllMembers(fs, p);
    EveryAllMembers(SortUnits(fs, w), p);
    forall x | x in SortUnits(fs, w) ensures Every(x, p) { SortUnitsMember(fs, w, x); }
  }

  lemma {:induction false} CanonKeepsEvery(scope: Scope, f: Frame, p: Frame -> bool)
    requires Nodewise(p) && Every(f, p)
    ensures Every(Canon(scope, f), p)
    decreases Nodes(f), 0
  {
    hide Canon, CanonAll, Own, SameNode, Children, Reorders, Width, SortUnits, EveryAll, WithChildren;
    NodesOfChildren(f);
    NodesOfChildren(Canon(scope, f));
    CanonChildren(scope, f);
    CanonAllKeepsEvery(scope, Children(f), p);
    if Reorders(scope, f) { SortUnitsEvery(CanonAll(scope, Children(f)), Width(f), p); }
    assert p(Canon(scope, f));
  }

  lemma {:induction false} CanonAllKeepsEvery(scope: Scope, fs: seq<Frame>, p: Frame -> bool)
    requires Nodewise(p) && EveryAll(fs, p)
    ensures EveryAll(CanonAll(scope, fs), p)
    decreases NodesAll(fs), 1
  {
    hide Canon, Every, Nodewise;
    if fs != [] {
      CanonKeepsEvery(scope, fs[0], p);
      CanonAllKeepsEvery(scope, fs[1..], p);
      assert CanonAll(scope, fs)[1..] == CanonAll(scope, fs[1..]);
    }
  }

  /** Canonicalizing keeps a frame printable, and keeps it one that its encoding
      gives back. */
  lemma CanonIsPlain(scope: Scope, f: Frame)
    ensures Plain(f) ==> Plain(Canon(scope, f))
    ensures Recoverable(f) ==> Recoverable(Canon(scope, f))
  {
    hide Canon, Every, Nodewise;
    NodesAreNodewise();
    if Plain(f) { CanonKeepsEvery(scope, f, PlainNode); }
    if Recoverable(f) { CanonKeepsEvery(scope, f, RoundTripNode); }
  }

  lemma EncodingIsInjective(f: Frame, g: Frame)
    requires Recoverable(f) && Recoverable(g) && Encode(f) == Encode(g)
    ensures f == g
  {
    hide Encode, Every;
    EncodingIsPrefixFree(f, g, [], []);
  }

  // ---------------------------------------------------------------- theorems

  /** Equivalent frames canonicalize to identical bytes, even ill-formed ones;
      a frame is equivalent to its canonical form; canonicalizing again changes
      nothing. */
  lemma CanonIsNormalForm(scope: Scope, f: Frame, g: Frame)
    ensures Equiv(scope, f, g) ==> Encode(Canon(scope, f)) == Encode(Canon(scope, g))
    ensures Equiv(scope, f, Canon(scope, f))
    ensures Canon(scope, Canon(scope, f)) == Canon(scope, f)
  {
    hide Equiv, Canon, Encode;
    if Equiv(scope, f, g) { EquivGivesBytes(scope, f, g); }
    CanonIsEquiv(scope, f);
    CanonIsIdempotent(scope, f);
  }

  /** On frames that their encodings give back, the printable ones among them, the
      canonical bytes decide equivalence. */
  lemma CanonIsComplete(scope: Scope, f: Frame, g: Frame)
    requires Recoverable(f) && Recoverable(g)
    ensures Equiv(scope, f, g) <==> Encode(Canon(scope, f)) == Encode(Canon(scope, g))
  {
    hide Equiv, Canon, Encode, Every;
    CanonIsNormalForm(scope, f, g);
    CanonIsNormalForm(scope, g, f);
    if Encode(Canon(scope, f)) == Encode(Canon(scope, g)) {
      CanonIsPlain(scope, f);
      CanonIsPlain(scope, g);
      EncodingIsInjective(Canon(scope, f), Canon(scope, g));
      EquivSymmetric(scope, g, Canon(scope, g));
      EquivTransitive(scope, f, Canon(scope, f), g);
    }
  }

  // ----------------------------------------------- replies to known commands

  datatype Mode = All | Unordered | Off

  /** How the top-level array of a reply to the command is ordered. */
  datatype Shape = AsIs | ItemsUnordered | PairsUnordered

  function Upper(s: string): (r: string) {
    if s == [] then []
    else [if 'a' <= s[0] <= 'z' then s[0] - 'a' + 'A' else s[0]] + Upper(s[1..])
  }

  /** The name in capitals, spelled in any letter case. */
  predicate InAnyCase(s: string, name: string) {
    |s| == |name| &&
    forall i :: 0 <= i < |s| ==> s[i] == name[i] || ('A' <= name[i] <= 'Z' && s[i] as int == name[i] as int + 32)
  }

  lemma {:induction false} UpperIs(s: string, name: string)
    requires forall i :: 0 <= i < |name| ==> 'A' <= name[i] <= 'Z'
    ensures Upper(s) == name <==> InAnyCase(s, name)
  {
    if s != [] && name != [] {
      UpperIs(s[1..], name[1..]);
      assert name == [name[0]] + name[1..];
      assert InAnyCase(s, name) ==> InAnyCase(s[1..], name[1..]);
      if InAnyCase(s[1..], name[1..]) && (s[0] == name[0] || s[0] as int == name[0] as int + 32) {
        forall i | 0 <= i < |s| ensures s[i] == name[i] || s[i] as int == name[i] as int + 32 {
          if i > 0 { assert s[i] == s[1..][i - 1] && name[i] == name[1..][i - 1]; }
        }
      }
    }
  }

  function ShapeOf(command: Option<string>): (r: Shape) {
    if command.None? then AsIs
    else
      match Upper(command.value)
      case "HGETALL" => PairsUnordered
      case "HKEYS" => ItemsUnordered
      case "HVALS" => ItemsUnordered
      case "SDIFF" => ItemsUnordered
      case "SINTER" => ItemsUnordered
      case "SMEMBERS" => ItemsUnordered
      case "SUNION" => ItemsUnordered
      case _ => AsIs
  }

  function UnitWidth(shape: Shape): (n: nat) { if shape.PairsUnordered? then 2 else 1 }

  /** Length of the part that is made of whole units; an odd last item stays put. */
  function Whole(n: nat, w: nat): (k: nat)
    requires w == 1 || w == 2
    ensures k <= n && Divides(w, k)
  {
    if w == 2 then n - n % 2 else n
  }

  function SortRow(fs: seq<Frame>, w: nat): (gs: seq<Frame>)
    requires w == 1 || w == 2
    ensures |gs| == |fs|
  {
    var k := Whole(|fs|, w);
    SortUnits(fs[..k], w) + fs[k..]
  }

  function CanonReply(mode: Mode, command: Option<string>, f: Frame): (r: Frame) {
    match mode
    case All => Canon(EveryContainer, f)
    case Off => f
    case Unordered =>
      var g, shape := Canon(UnorderedContainers, f), ShapeOf(command);
      if shape.AsIs? || !g.Array? then g
      else Array(SortRow(CanonAll(UnorderedContainers, g.items), UnitWidth(shape)))
  }

  ghost predicate SameRow(fs: seq<Frame>, gs: seq<Frame>, w: nat)
    requires w == 1 || w == 2
  {
    |fs| == |gs| &&
    var k := Whole(|fs|, w);
    SameUpToOrder(UnorderedContainers, fs[..k], gs[..k], w) && EquivAll(UnorderedContainers, fs[k..], gs[k..])
  }

  /** Replies that mean the same to the client of this command. */
  ghost predicate SameReply(mode: Mode, command: Option<string>, f: Frame, g: Frame) {
    match mode
    case All => Equiv(EveryContainer, f, g)
    case Off => f == g
    case Unordered =>
      var shape := ShapeOf(command);
      if shape.AsIs? || !f.Array? || !g.Array? then Equiv(UnorderedContainers, f, g)
      else SameRow(f.items, g.items, UnitWidth(shape))
  }

  /** The array branch, without the repeated canonicalization of the items. */
  lemma CanonReplyArray(command: Option<string>, f: Frame)
    requires f.Array? && !ShapeOf(command).AsIs?
    ensures CanonReply(Unordered, command, f)
         == Array(SortRow(CanonAll(UnorderedContainers, f.items), UnitWidth(ShapeOf(command))))
  {
    CanonUnfolds(UnorderedContainers, f);
    CanonAllIsIdempotent(UnorderedContainers, f.items);
    hide CanonAll, SortRow, ShapeOf, Canon;
  }

  lemma CanonAllRow(fs: seq<Frame>, k: nat)
    requires k <= |fs|
    ensures CanonAll(UnorderedContainers, fs[..k]) == CanonAll(UnorderedContainers, fs)[..k]
    ensures CanonAll(UnorderedContainers, fs[k..]) == CanonAll(UnorderedContainers, fs)[k..]
  {
    CanonAllSplit(UnorderedContainers, fs, k);
  }

  lemma SameRowGivesBytes(fs: seq<Frame>, gs: seq<Frame>, w: nat)
    requires (w == 1 || w == 2) && SameRow(fs, gs, w)
    ensures EncodeAll(SortRow(CanonAll(UnorderedContainers, fs), w))
         == EncodeAll(SortRow(CanonAll(UnorderedContainers, gs), w))
  {
    hide CanonAll, EquivAll, Chunks, EncodeAll, SortUnits, Encodings;
    var k := Whole(|fs|, w);
    CanonAllRow(fs, k);
    CanonAllRow(gs, k);
    var a, b := fs[..k], gs[..k];
    var us: seq<Unit> :| multiset(us) == multiset(Chunks(b, w)) && EquivAll(UnorderedContainers, a, Concat(us));
    EquivAllGivesBytes(UnorderedContainers, a, Concat(us));
    SortedBytes(UnorderedContainers, a, b, us, w);
    EquivAllGivesBytes(UnorderedContainers, fs[k..], gs[k..]);
    EncodingsDecideBytes(CanonAll(UnorderedContainers, fs[k..]), CanonAll(UnorderedContainers, gs[k..]));
    EncodeConcat(SortUnits(CanonAll(UnorderedContainers, a), w), CanonAll(UnorderedContainers, fs[k..]));
    EncodeConcat(SortUnits(CanonAll(UnorderedContainers, b), w), CanonAll(UnorderedContainers, gs[k..]));
  }

  lemma SortRowParts(fs: seq<Frame>, w: nat)
    requires w == 1 || w == 2
    ensures var k := Whole(|fs|, w); SortRow(fs, w)[..k] == SortUnits(fs[..k], w) && SortRow(fs, w)[k..] == fs[k..]
  {
    hide SortUnits;
  }

  lemma SortRowIsSame(fs: seq<Frame>, w: nat)
    requires w == 1 || w == 2
    ensures SameRow(fs, SortRow(CanonAll(UnorderedContainers, fs), w), w)
  {
    hide CanonAll, EquivAll, SortUnits, SortRow, SameUpToOrder;
    var k, gs := Whole(|fs|, w), CanonAll(UnorderedContainers, fs);
    CanonAllRow(fs, k);
    CanonAllIsEquiv(UnorderedContainers, fs[..k]);
    CanonAllIsEquiv(UnorderedContainers, fs[k..]);
    SortedIsSame(UnorderedContainers, fs[..k], gs[..k], w);
    SortRowParts(gs, w);
  }

  lemma SortRowIdempotent(fs: seq<Frame>, w: nat)
    requires w == 1 || w == 2
    ensures var row := SortRow(CanonAll(UnorderedContainers, fs), w);
      CanonAll(UnorderedContainers, row) == row && SortRow(row, w) == row
  {
    hide CanonAll, SortUnits;
    var k, gs := Whole(|fs|, w), CanonAll(UnorderedContainers, fs);
    var row := SortRow(gs, w);
    CanonAllIsIdempotent(UnorderedContainers, fs);
    CanonAllRow(gs, k);
    SortRowParts(gs, w);
    SortedFixed(UnorderedContainers, gs[..k], w);
    SortUnitsIdempotent(gs[..k], w);
    CanonAllRow(row, k);
    assert row == row[..k] + row[k..];
    assert CanonAll(UnorderedContainers, row) == CanonAll(UnorderedContainers, row)[..k] + CanonAll(UnorderedContainers, row)[k..];
  }

  lemma SameUpToOrderFlips(fs: seq<Frame>, gs: seq<Frame>, w: nat)
    requires Divides(w, |fs|) && Divides(w, |gs|) && SameUpToOrder(UnorderedContainers, fs, gs, w)
    ensures SameUpToOrder(UnorderedContainers, gs, fs, w)
  {
    hide EquivAll, Chunks;
    var us: seq<Unit> :| multiset(us) == multiset(Chunks(gs, w)) && EquivAll(UnorderedContainers, fs, Concat(us));
    EquivAllSymmetric(UnorderedContainers, fs, Concat(us));
    FlipOrder(UnorderedContainers, fs, gs, us, w);
  }

  lemma SameUpToOrderChains(fs: seq<Frame>, gs: seq<Frame>, hs: seq<Frame>, w: nat)
    requires Divides(w, |fs|) && Divides(w, |gs|) && Divides(w, |hs|)
    requires SameUpToOrder(UnorderedContainers, fs, gs, w) && SameUpToOrder(UnorderedContainers, gs, hs, w)
    ensures SameUpToOrder(UnorderedContainers, fs, hs, w)
  {
    hide EquivAll, Chunks;
    var us: seq<Unit> :| multiset(us) == multiset(Chunks(gs, w)) && EquivAll(UnorderedContainers, fs, Concat(us));
    var ds := ChainOrder(UnorderedContainers, gs, hs, us, w);
    EquivAllTransitive(UnorderedContainers, fs, Concat(us), Concat(ds));
  }

  /** Two rows with a common third are the same. */
  lemma SameRowJoin(fs: seq<Frame>, gs: seq<Frame>, hs: seq<Frame>, w: nat)
    requires (w == 1 || w == 2) && SameRow(fs, hs, w) && SameRow(gs, hs, w)
    ensures SameRow(fs, gs, w)
  {
    hide EquivAll, SameUpToOrder;
    var k := Whole(|fs|, w);
    SameUpToOrderFlips(gs[..k], hs[..k], w);
    SameUpToOrderChains(fs[..k], hs[..k], gs[..k], w);
    EquivAllSymmetric(UnorderedContainers, gs[k..], hs[k..]);
    EquivAllTransitive(UnorderedContainers, fs[k..], hs[k..], gs[k..]);
  }

  lemma CanonKeepsArray(scope: Scope, f: Frame)
    ensures Canon(scope, f).Array? == f.Array?
  {
    CanonUnfolds(scope, f);
    hide CanonAll, Arranged, Flatten, Paired, Canon;
  }

  lemma SortRowIsRecoverable(fs: seq<Frame>, w: nat)
    requires (w == 1 || w == 2) && EveryAll(fs, RoundTripNode)
    ensures EveryAll(SortRow(CanonAll(UnorderedContainers, fs), w), RoundTripNode)
  {
    hide CanonAll, SortUnits, Every, EveryAll, Nodewise;
    var k, gs := Whole(|fs|, w), CanonAll(UnorderedContainers, fs);
    NodesAreNodewise();
    CanonAllKeepsEvery(UnorderedContainers, fs, RoundTripNode);
    EveryAllMembers(gs, RoundTripNode);
    EveryAllMembers(SortRow(gs, w), RoundTripNode);
    forall x | x in SortRow(gs, w) ensures Every(x, RoundTripNode) {
      if x in SortUnits(gs[..k], w) { SortUnitsMember(gs[..k], w, x); }
    }
  }

  lemma CanonReplyIsRecoverable(mode: Mode, command: Option<string>, f: Frame)
    requires Recoverable(f)
    ensures Recoverable(CanonReply(mode, command, f))
  {
    hide Canon, CanonAll, SortRow, ShapeOf, EveryAll;
    CanonIsPlain(EveryContainer, f);
    CanonIsPlain(UnorderedContainers, f);
    CanonKeepsArray(UnorderedContainers, f);
    if mode.Unordered? && f.Array? && !ShapeOf(command).AsIs? {
      CanonReplyArray(command, f);
      SortRowIsRecoverable(f.items, UnitWidth(ShapeOf(command)));
    }
  }

  // ---------------------------------------------------------------- theorems

  /** The normal form of a reply: same meaning, same bytes, stable. */
  lemma CanonReplyIsNormalForm(mode: Mode, command: Option<string>, f: Frame, g: Frame)
    ensures SameReply(mode, command, f, g) ==>
            Encode(CanonReply(mode, command, f)) == Encode(CanonReply(mode, command, g))
    ensures SameReply(mode, command, f, CanonReply(mode, command, f))
    ensures CanonReply(mode, command, CanonReply(mode, command, f)) == CanonReply(mode, command, f)
  {
    hide Canon, ShapeOf, Equiv, Encode, SameRow;
    if mode.All? {
      CanonIsNormalForm(EveryContainer, f, g);
    } else if mode.Unordered? {
      CanonIsNormalForm(UnorderedContainers, f, g);
      CanonKeepsArray(UnorderedContainers, f);
      CanonKeepsArray(UnorderedContainers, g);
      if Equiv(UnorderedContainers, f, g) { EquivKeepsArray(UnorderedContainers, f, g); }
      if !ShapeOf(command).AsIs? && f.Array? {
        hide CanonReply;
        RowReplyIsNormalForm(command, f);
        if g.Array? && SameRow(f.items, g.items, UnitWidth(ShapeOf(command))) { RowReplyBytes(command, f, g); }
      }
    }
  }

  lemma RowReplyIsNormalForm(command: Option<string>, f: Frame)
    requires f.Array? && !ShapeOf(command).AsIs?
    ensures var h := CanonReply(Unordered, command, f);
      SameReply(Unordered, command, f, h) && CanonReply(Unordered, command, h) == h
  {
    hide Canon, CanonAll, SortRow, ShapeOf, Equiv, SameRow, CanonReply;
    var w := UnitWidth(ShapeOf(command));
    CanonReplyArray(command, f);
    SortRowIsSame(f.items, w);
    SortRowIdempotent(f.items, w);
    CanonReplyArray(command, CanonReply(Unordered, command, f));
  }

  lemma RowReplyBytes(command: Option<string>, f: Frame, g: Frame)
    requires f.Array? && g.Array? && !ShapeOf(command).AsIs?
    requires SameRow(f.items, g.items, UnitWidth(ShapeOf(command)))
    ensures Encode(CanonReply(Unordered, command, f)) == Encode(CanonReply(Unordered, command, g))
  {
    hide Canon, CanonAll, SortRow, ShapeOf, Encode, EncodeAll, SameRow, CanonReply;
    var w := UnitWidth(ShapeOf(command));
    CanonReplyArray(command, f);
    CanonReplyArray(command, g);
    SameRowGivesBytes(f.items, g.items, w);
    SameRowLength(f.items, g.items, w);
    ArrayBytes(CanonReply(Unordered, command, f).items, CanonReply(Unordered, command, g).items);
  }

  lemma SameRowLength(fs: seq<Frame>, gs: seq<Frame>, w: nat)
    requires (w == 1 || w == 2) && SameRow(fs, gs, w)
    ensures |fs| == |gs|
  {}

  lemma ArrayBytes(fs: seq<Frame>, gs: seq<Frame>)
    requires |fs| == |gs| && EncodeAll(fs) == EncodeAll(gs)
    ensures Encode(Array(fs)) == Encode(Array(gs))
  {
    EncodeParts(Array(fs));
    EncodeParts(Array(gs));
  }

  /** For replies that their encodings give back the canonical bytes decide whether two replies mean
      the same, so they can seed reproducible draws. */
  lemma CanonReplyIsComplete(mode: Mode, command: Option<string>, f: Frame, g: Frame)
    requires Recoverable(f) && Recoverable(g)
    ensures SameReply(mode, command, f, g) <==>
            Encode(CanonReply(mode, command, f)) == Encode(CanonReply(mode, command, g))
  {
    hide Canon, CanonAll, SortRow, ShapeOf, Equiv, Encode, SameRow, Every;
    CanonReplyIsNormalForm(mode, command, f, g);
    CanonReplyIsNormalForm(mode, command, g, f);
    if Encode(CanonReply(mode, command, f)) == Encode(CanonReply(mode, command, g)) {
      CanonReplyIsRecoverable(mode, command, f);
      CanonReplyIsRecoverable(mode, command, g);
      EncodingIsInjective(CanonReply(mode, command, f), CanonReply(mode, command, g));
      SameFormSameReply(mode, command, f, g);
    }
  }

  lemma EquivJoin(scope: Scope, f: Frame, g: Frame, h: Frame)
    requires Equiv(scope, f, h) && Equiv(scope, g, h)
    ensures Equiv(scope, f, g)
  {
    hide Equiv;
    EquivSymmetric(scope, g, h);
    EquivTransitive(scope, f, h, g);
  }

  lemma EquivKeepsArray(scope: Scope, f: Frame, g: Frame)
    requires Equiv(scope, f, g)
    ensures f.Array? == g.Array?
  {
    EquivMeaning(scope, f, g);
    hide Equiv, SameUpToOrder, EquivAll, Children, Width, Reorders;
  }

  lemma SameFormSameReply(mode: Mode, command: Option<string>, f: Frame, g: Frame)
    requires SameReply(mode, command, f, CanonReply(mode, command, f))
    requires SameReply(mode, command, g, CanonReply(mode, command, f))
    ensures SameReply(mode, command, f, g)
  {
    hide ShapeOf, Equiv, SameRow, CanonReply;
    var h, shape := CanonReply(mode, command, f), ShapeOf(command);
    if mode.All? {
      EquivJoin(EveryContainer, f, g, h);
    } else if mode.Unordered? {
      if shape.AsIs? || !h.Array? {
        EquivKeepsArray(UnorderedContainers, f, h);
        EquivKeepsArray(UnorderedContainers, g, h);
        EquivJoin(UnorderedContainers, f, g, h);
      } else {
        if !f.Array? { EquivKeepsArray(UnorderedContainers, f, h); }
        if !g.Array? { EquivKeepsArray(UnorderedContainers, g, h); }
        SameRowJoin(f.items, g.items, h.items, UnitWidth(shape));
      }
    }
  }

  // ------------------------------------------------------- replies to EXEC

  /** Each item of the transaction reply under its own command; items without a
      command, and replies that are no array, are left alone. */
  function CanonItems(mode: Mode, commands: seq<string>, items: seq<Frame>): (gs: seq<Frame>)
    ensures |gs| == |items|
  {
    if items == [] || commands == [] then items
    else [CanonReply(mode, Some(commands[0]), items[0])] + CanonItems(mode, commands[1..], items[1..])
  }

  function CanonTransaction(mode: Mode, commands: seq<string>, f: Frame): (r: Frame) {
    if f.Array? then Array(CanonItems(mode, commands, f.items)) else f
  }

  ghost predicate SameItem(mode: Mode, commands: seq<string>, i: nat, f: Frame, g: Frame) {
    if i < |commands| then SameReply(mode, Some(commands[i]), f, g) else f == g
  }

  lemma {:induction false} CanonItemsAt(mode: Mode, commands: seq<string>, items: seq<Frame>, i: nat)
    requires i < |items|
    ensures CanonItems(mode, commands, items)[i]
         == if i < |commands| then CanonReply(mode, Some(commands[i]), items[i]) else items[i]
  {
    hide CanonReply;
    if commands != [] && i > 0 {
      CanonItemsAt(mode, commands[1..], items[1..], i - 1);
    }
  }

  lemma {:induction false} EqualBytesItemwise(fs: seq<Frame>, gs: seq<Frame>)
    requires EveryAll(fs, RoundTripNode) && EveryAll(gs, RoundTripNode) && |fs| == |gs| && EncodeAll(fs) == EncodeAll(gs)
    ensures fs == gs
  {
    hide Encode, Every;
    if fs != [] {
      EncodingIsPrefixFree(fs[0], gs[0], EncodeAll(fs[1..]), EncodeAll(gs[1..]));
      EqualBytesItemwise(fs[1..], gs[1..]);
      assert fs == [fs[0]] + fs[1..] && gs == [gs[0]] + gs[1..];
    }
  }

  /** As many items, with the same meanings under their own commands. */
  ghost predicate SameItems(mode: Mode, commands: seq<string>, fs: seq<Frame>, gs: seq<Frame>) {
    |fs| == |gs| && forall i :: 0 <= i < |fs| ==> SameItem(mode, commands, i, fs[i], gs[i])
  }

  ghost predicate SameTransaction(mode: Mode, commands: seq<string>, f: Frame, g: Frame) {
    if f.Array? && g.Array? then SameItems(mode, commands, f.items, g.items) else f == g
  }

  lemma CanonItemIsNormalForm(mode: Mode, commands: seq<string>, fs: seq<Frame>, gs: seq<Frame>, i: nat)
    requires i < |fs| && i < |gs|
    ensures SameItem(mode, commands, i, fs[i], gs[i]) ==>
      Encode(CanonItems(mode, commands, fs)[i]) == Encode(CanonItems(mode, commands, gs)[i])
    ensures var a := CanonItems(mode, commands, fs);
      SameItem(mode, commands, i, fs[i], a[i]) && CanonItems(mode, commands, a)[i] == a[i]
  {
    hide CanonItems, CanonReply, SameReply, Encode;
    CanonItemsAt(mode, commands, fs, i);
    CanonItemsAt(mode, commands, gs, i);
    CanonItemsAt(mode, commands, CanonItems(mode, commands, fs), i);
    if i < |commands| { CanonReplyIsNormalForm(mode, Some(commands[i]), fs[i], gs[i]); }
  }

  /** Transaction replies with the same meaning give the same bytes, even ill-formed
      ones; a reply means the same as its canonical form; canonicalizing again
      changes nothing. */
  lemma CanonTransactionIsNormalForm(mode: Mode, commands: seq<string>, f: Frame, g: Frame)
    ensures SameTransaction(mode, commands, f, g) ==>
            Encode(CanonTransaction(mode, commands, f)) == Encode(CanonTransaction(mode, commands, g))
    ensures SameTransaction(mode, commands, f, CanonTransaction(mode, commands, f))
    ensures CanonTransaction(mode, commands, CanonTransaction(mode, commands, f)) == CanonTransaction(mode, commands, f)
  {
    hide CanonItems, SameItem, Encode;
    if f.Array? {
      var a := CanonItems(mode, commands, f.items);
      forall i | 0 <= i < |a| ensures SameItem(mode, commands, i, f.items[i], a[i]) && CanonItems(mode, commands, a)[i] == a[i] {
        CanonItemIsNormalForm(mode, commands, f.items, f.items, i);
      }
      assert CanonItems(mode, commands, a) == a;
      if g.Array? && SameItems(mode, commands, f.items, g.items) {
        var b := CanonItems(mode, commands, g.items);
        forall i | 0 <= i < |a| ensures Encode(a[i]) == Encode(b[i]) {
          CanonItemIsNormalForm(mode, commands, f.items, g.items, i);
        }
        EqualItemsEqualArrays(a, b);
      }
    }
  }

  /** Items of an EXEC reply are as many and have the same meaning under their own
      commands exactly when the canonical bytes are equal, for items that their
      encodings give back. */
  lemma CanonTransactionIsComplete(mode: Mode, commands: seq<string>, fs: seq<Frame>, gs: seq<Frame>)
    requires EveryAll(fs, RoundTripNode) && EveryAll(gs, RoundTripNode)
    ensures SameItems(mode, commands, fs, gs) <==>
            Encode(CanonTransaction(mode, commands, Array(fs))) == Encode(CanonTransaction(mode, commands, Array(gs)))
  {
    hide CanonReply, SameReply, Every, EveryAll, EncodeAll;
    var a, b := CanonItems(mode, commands, fs), CanonItems(mode, commands, gs);
    if Encode(Array(a)) == Encode(Array(b)) { EqualArraysEqualLengths(a, b); }
    if |fs| == |gs| {
      ItemsDecideMeaning(mode, commands, fs, gs);
      hide Encode, CanonItems;
      ItemsDecideBytes(a, b);
    }
  }

  lemma EqualArraysEqualLengths(a: seq<Frame>, b: seq<Frame>)
    requires Encode(Array(a)) == Encode(Array(b))
    ensures |a| == |b|
  {
    EncodeParts(Array(a));
    EncodeParts(Array(b));
    hide Encode, EncodeAll, Decimal, TakeLine, CrlfFree, ValidUtf8;
    DecimalIsPlain(|a|);
    DecimalIsPlain(|b|);
    ReadLine(42, Decimal(|a|), EncodeAll(a));
    ReadLine(42, Decimal(|b|), EncodeAll(b));
    DecimalInjective(|a|, |b|);
  }

  lemma ItemsDecideMeaning(mode: Mode, commands: seq<string>, fs: seq<Frame>, gs: seq<Frame>)
    requires |fs| == |gs| && EveryAll(fs, RoundTripNode) && EveryAll(gs, RoundTripNode)
    ensures var a, b := CanonItems(mode, commands, fs), CanonItems(mode, commands, gs);
      && EveryAll(a, RoundTripNode) && EveryAll(b, RoundTripNode)
      && forall i :: 0 <= i < |fs| ==> (SameItem(mode, commands, i, fs[i], gs[i]) <==> Encode(a[i]) == Encode(b[i]))
  {
    hide CanonReply, SameReply, Every, EveryAll, EncodeAll;
    var a, b := CanonItems(mode, commands, fs), CanonItems(mode, commands, gs);
    EveryAllMembers(fs, RoundTripNode);
    EveryAllMembers(gs, RoundTripNode);
    forall i | 0 <= i < |fs|
      ensures SameItem(mode, commands, i, fs[i], gs[i]) <==> Encode(a[i]) == Encode(b[i])
      ensures Every(a[i], RoundTripNode) && Every(b[i], RoundTripNode)
    {
      hide Encode, CanonItems;
      CanonItemsAt(mode, commands, fs, i);
      CanonItemsAt(mode, commands, gs, i);
      assert fs[i] in fs && gs[i] in gs;
      if i < |commands| {
        CanonReplyIsComplete(mode, Some(commands[i]), fs[i], gs[i]);
        CanonReplyIsRecoverable(mode, Some(commands[i]), fs[i]);
        CanonReplyIsRecoverable(mode, Some(commands[i]), gs[i]);
      } else if Encode(fs[i]) == Encode(gs[i]) {
        EncodingIsInjective(fs[i], gs[i]);
      }
    }
    EveryAllMembers(a, RoundTripNode);
    EveryAllMembers(b, RoundTripNode);
  }

  lemma EqualItemsEqualArrays(a: seq<Frame>, b: seq<Frame>)
    requires |a| == |b| && forall i :: 0 <= i < |a| ==> Encode(a[i]) == Encode(b[i])
    ensures Encode(Array(a)) == Encode(Array(b))
  {
    EncodeParts(Array(a));
    EncodeParts(Array(b));
    hide Encode, EncodeAll;
    EqualItemsEqualBytes(a, b);
  }

  lemma ItemsDecideBytes(a: seq<Frame>, b: seq<Frame>)
    requires |a| == |b| && EveryAll(a, RoundTripNode) && EveryAll(b, RoundTripNode)
    ensures Encode(Array(a)) == Encode(Array(b)) <==> forall i :: 0 <= i < |a| ==> Encode(a[i]) == Encode(b[i])
  {
    EncodeParts(Array(a));
    EncodeParts(Array(b));
    hide Encode, EncodeAll, Every, EveryAll;
    if forall i :: 0 <= i < |a| ==> Encode(a[i]) == Encode(b[i]) {
      EqualItemsEqualBytes(a, b);
    }
    if Encode(Array(a)) == Encode(Array(b)) {
      hide Decimal;
      assert Own(Array(a), None) == Own(Array(b), None);
      SamePrefix(Own(Array(a), None), EncodeAll(a), EncodeAll(b));
      EqualBytesItemwise(a, b);
    }
  }

  lemma SamePrefix(p: bytes, a: bytes, b: bytes)
    requires p + a == p + b
    ensures a == b
  {
    assert a == (p + a)[|p|..] && b == (p + b)[|p|..];
  }

  lemma {:induction false} EqualItemsEqualBytes(a: seq<Frame>, b: seq<Frame>)
    requires |a| == |b| && forall i :: 0 <= i < |a| ==> Encode(a[i]) == Encode(b[i])
    ensures EncodeAll(a) == EncodeAll(b)
  {
    hide Encode;
    if a != [] {
      assert forall i :: 0 <= i < |a| - 1 ==> a[1..][i] == a[i + 1] && b[1..][i] == b[i + 1];
      EqualItemsEqualBytes(a[1..], b[1..]);
    }
  }
}
