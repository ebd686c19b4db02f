/** The canonicalizer as it runs: containers overwritten item by item, rows cut
    into pairs, sorted and written back. */
module Canonicalizer {
  import opened Bytes
  import opened Frames
  import opened Sorting
  import opened Units
  import opened Canonical
  import opened NormalForm

  lemma CanonAllStep(scope: Scope, fs: seq<Frame>, i: nat)
    requires i < |fs|
    ensures CanonAll(scope, fs[..i + 1]) == CanonAll(scope, fs[..i]) + [Canon(scope, fs[i])]
  {
    assert fs[..i + 1] == fs[..i] + [fs[i]];
    CanonAllConcat(scope, fs[..i], [fs[i]]);
    assert [fs[i]][1..] == [];
    hide Canon;
  }

  /** Overwrites every item by its canonical form. */
  method CanonicalizeItems(scope: Scope, items: array<Frame>)
    modifies items
    ensures items[..] == CanonAll(scope, old(items[..]))
    decreases NodesAll(items[..]), 1
  {
    hide Canon, CanonAll, NodesAll, Nodes;
    ghost var before := items[..];
    NothingCanonicalized(scope);
    assert before[..0] == [];
    for i := 0 to items.Length
      invariant items[..i] == CanonAll(scope, before[..i])
      invariant forall k :: i <= k < items.Length ==> items[k] == before[k]
    {
      NodesOfMember(before, i);
      var item := Canonicalize(scope, items[i]);
      items[i] := item;
      CanonAllStep(scope, before, i);
      assert items[..i + 1] == items[..i] + [item];
    }
    assert before[..items.Length] == before && items[..items.Length] == items[..];
  }

  lemma NothingCanonicalized(scope: Scope)
    ensures CanonAll(scope, []) == []
  {}

  /** The children in an array of their own, canonicalized there, then sorted when
      their order means nothing. The sort is the stable one of `Sorting`. */
  method Canonicalize(scope: Scope, f: Frame) returns (g: Frame)
    ensures g == Canon(scope, f)
    decreases Nodes(f), 0
  {
    hide Canon, CanonAll, NodesAll, Nodes, SortUnits;
    var fs := Children(f);
    NodesOfChildren(f);
    CanonUnfolds(scope, f);
    WholeWidth(f);
    var items := new Frame[|fs|](i requires 0 <= i < |fs| => fs[i]);
    assert items[..] == fs;
    CanonicalizeItems(scope, items);
    var gs := items[..];
    g := WithChildren(f, if Reorders(scope, f) then SortUnits(gs, Width(f)) else gs);
  }

  lemma ChunksStep(fs: seq<Frame>, k: nat)
    requires 2 * k + 2 <= |fs|
    ensures Divides(2, |fs[..2 * k]|) && Divides(2, |fs[..2 * k + 2]|)
    ensures Chunks(fs[..2 * k + 2], 2) == Chunks(fs[..2 * k], 2) + [[fs[2 * k], fs[2 * k + 1]]]
    decreases |fs|
  {
    var more := fs[..2 * k + 2];
    if k == 0 {
      assert more[2..] == [] && more[..2] == [fs[0], fs[1]];
      assert fs[..0] == [];
    } else {
      ChunksStep(fs[2..], k - 1);
      assert more[2..] == fs[2..][..2 * (k - 1) + 2] && fs[..2 * k][2..] == fs[2..][..2 * (k - 1)];
      assert more[..2] == fs[..2 * k][..2];
    }
  }

  lemma {:induction false} ConcatStep(us: seq<Unit>, i: nat)
    requires i < |us|
    ensures Concat(us[..i + 1]) == Concat(us[..i]) + us[i]
  {
    if i == 0 {
      assert us[..1][1..] == [] && us[..0] == [];
      assert us[0] + [] == us[0];
    } else {
      ConcatStep(us[1..], i - 1);
      assert us[..i + 1][1..] == us[1..][..i] && us[..i][1..] == us[1..][..i - 1];
      Assoc(us[0], Concat(us[1..][..i - 1]), us[i]);
    }
  }

  /** Cuts the row into pairs, sorts them by key and value bytes, and writes them
      back with the odd last item. */
  method SortPairs(fs: seq<Frame>) returns (gs: seq<Frame>)
    ensures gs == SortRow(fs, 2)
  {
    hide Chunks, Concat;
    var n := |fs| / 2;
    var pairs: seq<Unit> := [];
    NoPairs();
    assert fs[..0] == [];
    for k := 0 to n
      invariant pairs == Chunks(fs[..2 * k], 2)
    {
      ChunksStep(fs, k);
      pairs := pairs + [[fs[2 * k], fs[2 * k + 1]]];
    }
    assert 2 * n == Whole(|fs|, 2);
    ghost var row := fs[..2 * n];
    var sorted := Sort(pairs, UnitKey);
    gs := [];
    for i := 0 to |sorted|
      invariant gs == Concat(sorted[..i])
    {
      ConcatStep(sorted, i);
      gs := gs + sorted[i];
    }
    assert sorted[..|sorted|] == sorted;
    gs := gs + fs[2 * n..];
  }

  lemma NoPairs()
    ensures Chunks([], 2) == [] && Concat([]) == []
  {}

  lemma RowOfItems(fs: seq<Frame>)
    ensures SortRow(fs, 1) == SortUnits(fs, 1)
  {
    assert fs[..|fs|] == fs && fs[|fs|..] == [];
    assert SortUnits(fs, 1) + [] == SortUnits(fs, 1);
  }

  /** The top-level row of a command whose reply is unordered. */
  method CanonicalizeRow(command: string, g: Frame) returns (h: Frame)
    ensures h == if ShapeOf(Some(command)).AsIs? || !g.Array? then g
                 else Array(SortRow(CanonAll(UnorderedContainers, g.items), UnitWidth(ShapeOf(Some(command)))))
  {
    hide SortRow, CanonAll, ShapeOf, SortUnits;
    var shape := ShapeOf(Some(command));
    if shape.AsIs? || !g.Array? { return g; }
    var items := new Frame[|g.items|](i requires 0 <= i < |g.items| => g.items[i]);
    assert items[..] == g.items;
    CanonicalizeItems(UnorderedContainers, items);
    if shape.PairsUnordered? {
      var row := SortPairs(items[..]);
      h := Array(row);
    } else {
      RowOfItems(items[..]);
      h := Array(SortUnits(items[..], 1));
    }
  }

  method CanonicalizeReply(mode: Mode, command: Option<string>, f: Frame) returns (g: Frame)
    ensures g == CanonReply(mode, command, f)
  {
    hide SortRow, CanonAll, Canon, Upper;
    match mode {
      case Off => g := f;
      case All => g := Canonicalize(EveryContainer, f);
      case Unordered =>
        g := Canonicalize(UnorderedContainers, f);
        match command {
          case None =>
          case Some(name) => g := CanonicalizeRow(name, g);
        }
    }
  }

  /** Each item of an EXEC reply under the command at its position. */
  method CanonicalizeTransactionReply(mode: Mode, commands: seq<string>, f: Frame) returns (g: Frame)
    ensures g == CanonTransaction(mode, commands, f)
  {
    hide CanonReply, CanonItems;
    if !f.Array? { return f; }
    var items := new Frame[|f.items|](i requires 0 <= i < |f.items| => f.items[i]);
    for i := 0 to |f.items|
      invariant forall k :: 0 <= k < i ==> items[k] == CanonItems(mode, commands, f.items)[k]
      invariant forall k :: i <= k < |f.items| ==> items[k] == f.items[k]
    {
      CanonItemsAt(mode, commands, f.items, i);
      if i < |commands| {
        var item := CanonicalizeReply(mode, Some(commands[i]), items[i]);
        items[i] := item;
      }
    }
    assert items[..] == CanonItems(mode, commands, f.items);
    g := Array(items[..]);
  }
}
