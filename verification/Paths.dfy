/** Where a frame sits in a reply: the pre-order list that every traversal
    follows, paths as lists of child positions, and their printed form. */
module Paths {
  import opened Bytes
  import opened Frames

  type Path = seq<nat>

  datatype Visit = Visit(path: Path, frame: Frame)

  predicate Valid(f: Frame, p: Path)
    decreases |p|
  {
    p == [] || (p[0] < |Children(f)| && Valid(Children(f)[p[0]], p[1..]))
  }

  function FrameAt(f: Frame, p: Path): (r: Frame)
    requires Valid(f, p)
    decreases |p|
  {
    if p == [] then f else FrameAt(Children(f)[p[0]], p[1..])
  }

  /** The frames of `f` in the order `visit` reports them, `f` being at `path`. */
  function Preorder(f: Frame, path: Path): (r: seq<Visit>)
    decreases Nodes(f), 0
  {
    NodesOfChildren(f);
    [Visit(path, f)] + PreorderAll(Children(f), path, 0)
  }

  /** The same for the children of the frame at `path`, from position `first` on. */
  function PreorderAll(fs: seq<Frame>, path: Path, first: nat): (r: seq<Visit>)
    decreases NodesAll(fs), 1
  {
    if fs == [] then []
    else Preorder(fs[0], path + [first]) + PreorderAll(fs[1..], path, first + 1)
  }

  lemma {:induction false} PreorderLength(f: Frame, path: Path)
    ensures |Preorder(f, path)| == Nodes(f)
    decreases Nodes(f), 0
  {
    NodesOfChildren(f);
    PreorderAllLength(Children(f), path, 0);
  }

  lemma {:induction false} PreorderAllLength(fs: seq<Frame>, path: Path, first: nat)
    ensures |PreorderAll(fs, path, first)| == NodesAll(fs)
    decreases NodesAll(fs), 1
  {
    if fs != [] {
      PreorderLength(fs[0], path + [first]);
      PreorderAllLength(fs[1..], path, first + 1);
    }
  }

  /** `q` is `p` or lies below it. */
  predicate Below(p: Path, q: Path) { p <= q }

  /** Pre-order on paths: an ancestor first, then by position. */
  predicate Precedes(p: Path, q: Path) {
    q != [] && (p == [] || p[0] < q[0] || (p[0] == q[0] && Precedes(p[1..], q[1..])))
  }

  lemma {:induction false} PrecedesIsIrreflexive(p: Path)
    ensures !Precedes(p, p)
  {
    if p != [] { PrecedesIsIrreflexive(p[1..]); }
  }

  lemma {:induction false} PrecedesIsTransitive(p: Path, q: Path, r: Path)
    requires Precedes(p, q) && Precedes(q, r)
    ensures Precedes(p, r)
  {
    if p != [] && p[0] == q[0] == r[0] { PrecedesIsTransitive(p[1..], q[1..], r[1..]); }
  }

  // -------------------------------------------- reported paths are addresses

  predicate Reports(f: Frame, path: Path, v: Visit) {
    Below(path, v.path) && Valid(f, v.path[|path|..]) && FrameAt(f, v.path[|path|..]) == v.frame
  }

  lemma ReportsFromChild(f: Frame, path: Path, c: nat, v: Visit)
    requires c < |Children(f)| && Reports(Children(f)[c], path + [c], v)
    ensures Reports(f, path, v) && |v.path| > |path| && v.path[|path|] == c
    ensures v.path[|path|..] == [c] + v.path[|path| + 1..]
  {
    var tail := v.path[|path|..];
    assert v.path[..|path| + 1] == path + [c];
    assert path == v.path[..|path|];
    assert tail[0] == (path + [c])[|path|];
    assert tail[1..] == v.path[|path| + 1..];
  }

  lemma {:induction false} PreorderReports(f: Frame, path: Path, k: nat)
    requires k < |Preorder(f, path)|
    ensures Reports(f, path, Preorder(f, path)[k])
    decreases Nodes(f), 0
  {
    NodesOfChildren(f);
    if k > 0 { PreorderAllReports(f, 0, path, k - 1); }
  }

  lemma PreorderAllParts(f: Frame, first: nat, path: Path)
    requires first <= |Children(f)|
    ensures var fs := Children(f)[first..];
      if fs == [] then PreorderAll(fs, path, first) == []
      else
        var rest := Children(f)[first + 1..];
        && PreorderAll(fs, path, first) == Preorder(fs[0], path + [first]) + PreorderAll(rest, path, first + 1)
        && NodesAll(fs) == Nodes(fs[0]) + NodesAll(rest)
  {
    hide Preorder, Nodes;
    if first < |Children(f)| { assert Children(f)[first..][1..] == Children(f)[first + 1..]; }
  }

  /** What is reported from child `first` on lies in a child from `first` on. */
  lemma {:induction false} PreorderAllReports(f: Frame, first: nat, path: Path, k: nat)
    requires first <= |Children(f)|
    requires k < |PreorderAll(Children(f)[first..], path, first)|
    ensures var v := PreorderAll(Children(f)[first..], path, first)[k];
      Reports(f, path, v) && |v.path| > |path| && v.path[|path|] >= first
    decreases NodesAll(Children(f)[first..]), 1
  {
    hide Preorder, PreorderAll, Reports, Nodes, NodesAll, Children;
    PreorderAllParts(f, first, path);
    var head := Preorder(Children(f)[first], path + [first]);
    if k < |head| {
      PreorderReports(Children(f)[first], path + [first], k);
      ReportsFromChild(f, path, first, head[k]);
    } else {
      PreorderAllReports(f, first + 1, path, k - |head|);
    }
  }

  lemma {:induction false} PreorderIsOrdered(f: Frame, path: Path, j: nat, k: nat)
    requires j < k < |Preorder(f, path)|
    ensures var vs := Preorder(f, path);
      Below(path, vs[j].path) && Below(path, vs[k].path) && Precedes(vs[j].path[|path|..], vs[k].path[|path|..])
    decreases Nodes(f), 0
  {
    hide Preorder, PreorderAll, Reports, Valid, Nodes, NodesAll, Children, Below, Precedes;
    PreorderParts(f, path);
    PreorderReports(f, path, j);
    PreorderReports(f, path, k);
    var vs := Preorder(f, path);
    ReportsAreBelow(f, path, vs[j]);
    ReportsAreBelow(f, path, vs[k]);
    if j == 0 {
      PreorderAllReports(f, 0, path, k - 1);
      PrecedesAll(vs[k].path[|path|..]);
      assert path[|path|..] == [];
    } else {
      PreorderAllIsOrdered(f, 0, path, j - 1, k - 1);
    }
  }

  lemma PreorderParts(f: Frame, path: Path)
    ensures Preorder(f, path) == [Visit(path, f)] + PreorderAll(Children(f)[0..], path, 0)
    ensures Nodes(f) == 1 + NodesAll(Children(f)[0..])
  {
    NodesOfChildren(f);
    assert Children(f)[0..] == Children(f);
    hide PreorderAll;
  }

  lemma PrecedesAll(q: Path)
    requires q != []
    ensures Precedes([], q)
  {}

  lemma {:induction false} PreorderAllIsOrdered(f: Frame, first: nat, path: Path, j: nat, k: nat)
    requires first <= |Children(f)|
    requires j < k < |PreorderAll(Children(f)[first..], path, first)|
    ensures var vs := PreorderAll(Children(f)[first..], path, first);
      Below(path, vs[j].path) && Below(path, vs[k].path) && Precedes(vs[j].path[|path|..], vs[k].path[|path|..])
    decreases NodesAll(Children(f)[first..]), 1
  {
    hide Preorder, PreorderAll, Reports, Valid, Nodes, NodesAll, Children, Below, Precedes;
    PreorderAllParts(f, first, path);
    var vs, child := PreorderAll(Children(f)[first..], path, first), Children(f)[first];
    var head := Preorder(child, path + [first]);
    PreorderAllReports(f, first, path, j);
    PreorderAllReports(f, first, path, k);
    ReportsAreBelow(f, path, vs[j]);
    ReportsAreBelow(f, path, vs[k]);
    if j >= |head| {
      PreorderAllIsOrdered(f, first + 1, path, j - |head|, k - |head|);
    } else {
      PreorderReports(child, path + [first], j);
      ReportsFromChild(f, path, first, head[j]);
      if k < |head| {
        PreorderIsOrdered(child, path + [first], j, k);
        PreorderReports(child, path + [first], k);
        ReportsFromChild(f, path, first, head[k]);
        PrecedesUnder(first, head[j].path[|path| + 1..], head[k].path[|path| + 1..]);
      } else {
        PreorderAllReports(f, first + 1, path, k - |head|);
        PrecedesLater(vs[j].path[|path|..], vs[k].path[|path|..]);
      }
    }
  }

  lemma PrecedesUnder(c: nat, p: Path, q: Path)
    requires Precedes(p, q)
    ensures Precedes([c] + p, [c] + q)
  {
    assert ([c] + p)[1..] == p && ([c] + q)[1..] == q;
  }

  lemma PrecedesLater(p: Path, q: Path)
    requires p != [] && q != [] && p[0] < q[0]
    ensures Precedes(p, q)
  {}

  lemma ReportsAreBelow(f: Frame, path: Path, v: Visit)
    ensures Reports(f, path, v) ==> Below(path, v.path)
  {}

  lemma {:induction false} PreorderIsComplete(f: Frame, path: Path, p: Path) returns (k: nat)
    requires Valid(f, p)
    ensures k < |Preorder(f, path)| && Preorder(f, path)[k] == Visit(path + p, FrameAt(f, p))
    decreases Nodes(f), 0
  {
    NodesOfChildren(f);
    if p == [] {
      assert path + p == path;
      return 0;
    }
    k := PreorderAllIsComplete(f, 0, path, p);
    k := k + 1;
  }

  lemma {:induction false} PreorderAllIsComplete(f: Frame, first: nat, path: Path, p: Path) returns (k: nat)
    requires first <= |Children(f)| && p != [] && Valid(f, p) && p[0] >= first
    ensures var vs := PreorderAll(Children(f)[first..], path, first);
      k < |vs| && vs[k] == Visit(path + p, FrameAt(f, p))
    decreases NodesAll(Children(f)[first..]), 1
  {
    var fs := Children(f)[first..];
    NodesOfChildren(f);
    NodesOfMember(Children(f), first);
    assert fs[1..] == Children(f)[first + 1..];
    if p[0] == first {
      k := PreorderIsComplete(fs[0], path + [first], p[1..]);
      assert path + [first] + p[1..] == path + p;
    } else {
      k := PreorderAllIsComplete(f, first + 1, path, p);
      k := k + |Preorder(fs[0], path + [first])|;
    }
  }

  /** Every frame of the tree is reported at the path that leads to it, every
      path is reported, and in pre-order, so no path twice. */
  lemma VisitsAreAddresses(f: Frame)
    ensures |Preorder(f, [])| == Nodes(f)
    ensures forall k :: 0 <= k < Nodes(f) ==>
      var v := Preorder(f, [])[k]; Valid(f, v.path) && FrameAt(f, v.path) == v.frame
    ensures forall p :: Valid(f, p) ==> Visit(p, FrameAt(f, p)) in Preorder(f, [])
    ensures forall j, k :: 0 <= j < k < Nodes(f) ==> Precedes(Preorder(f, [])[j].path, Preorder(f, [])[k].path)
    ensures forall j, k :: 0 <= j < k < Nodes(f) ==> Preorder(f, [])[j].path != Preorder(f, [])[k].path
  {
    PreorderLength(f, []);
    var vs := Preorder(f, []);
    forall k | 0 <= k < Nodes(f) ensures var v := vs[k]; Valid(f, v.path) && FrameAt(f, v.path) == v.frame {
      PreorderReports(f, [], k);
      assert vs[k].path[0..] == vs[k].path;
    }
    forall p | Valid(f, p) ensures Visit(p, FrameAt(f, p)) in vs {
      var k := PreorderIsComplete(f, [], p);
      assert [] + p == p;
    }
    forall j, k | 0 <= j < k < Nodes(f) ensures Precedes(vs[j].path, vs[k].path) && vs[j].path != vs[k].path {
      PreorderIsOrdered(f, [], j, k);
      assert vs[j].path[0..] == vs[j].path && vs[k].path[0..] == vs[k].path;
      PrecedesIsIrreflexive(vs[j].path);
    }
  }

  lemma {:induction false} EveryVisited(f: Frame, path: Path, p: Frame -> bool, k: nat)
    requires Every(f, p) && k < |Preorder(f, path)|
    ensures p(Preorder(f, path)[k].frame)
    decreases Nodes(f), 0
  {
    NodesOfChildren(f);
    if k > 0 { EveryAllVisited(Children(f), path, 0, p, k - 1); }
  }

  lemma {:induction false} EveryAllVisited(fs: seq<Frame>, path: Path, first: nat, p: Frame -> bool, k: nat)
    requires EveryAll(fs, p) && k < |PreorderAll(fs, path, first)|
    ensures p(PreorderAll(fs, path, first)[k].frame)
    decreases NodesAll(fs), 1
  {
    var head := Preorder(fs[0], path + [first]);
    if k < |head| { EveryVisited(fs[0], path + [first], p, k); }
    else { EveryAllVisited(fs[1..], path, first + 1, p, k - |head|); }
  }

  // ------------------------------------------------------------ printed paths

  const KEY: bytes := [46, 107, 101, 121]
  const VALUE: bytes := [46, 118, 97, 108, 117, 101]
  const ROOT: bytes := [114, 111, 111, 116]

  /** The text a child position adds: `.3`, `.1.key` or `.1.value`. */
  function StepText(f: Frame, c: nat): (s: bytes) {
    if !HasEntries(f) then [46] + Decimal(c)
    else [46] + Decimal(c / 2) + Suffix(c)
  }

  function TailText(f: Frame, p: Path): (s: bytes)
    requires Valid(f, p)
    decreases |p|
  {
    if p == [] then [] else StepText(f, p[0]) + TailText(Children(f)[p[0]], p[1..])
  }

  /** The path as the logs and the `TARGET` option write it. */
  function PathText(f: Frame, p: Path): (s: bytes)
    requires Valid(f, p)
  {
    ROOT + TailText(f, p)
  }

  predicate StartsWithDot(s: bytes) { s == [] || s[0] == 46 }

  lemma NumberNotShorter(m: nat, n: nat, r: bytes, s: bytes)
    requires StartsWithDot(r) && Decimal(m) + r == Decimal(n) + s
    ensures |Decimal(m)| >= |Decimal(n)|
  {
    var a, b := Decimal(m), Decimal(n);
    assert AllDigits(b);
    assert forall i :: 0 <= i < |b| ==> (a + r)[i] == b[i];
    assert r != [] ==> (a + r)[|a|] == 46;
  }

  /** Two numbers followed by a dot or nothing can be told apart. */
  lemma NumberThenDot(m: nat, n: nat, r: bytes, s: bytes)
    requires StartsWithDot(r) && StartsWithDot(s) && Decimal(m) + r == Decimal(n) + s
    ensures m == n && r == s
  {
    NumberNotShorter(m, n, r, s);
    NumberNotShorter(n, m, s, r);
    hide Decimal;
    var a, b := Decimal(m), Decimal(n);
    assert a == (a + r)[..|a|] && b == (b + s)[..|b|];
    assert r == (a + r)[|a|..] && s == (b + s)[|b|..];
    DecimalInjective(m, n);
  }

  function Suffix(c: nat): (s: bytes) { if c % 2 == 0 then KEY else VALUE }

  lemma SuffixInjective(c: nat, d: nat, r: bytes, s: bytes)
    requires Suffix(c) + r == Suffix(d) + s
    ensures c % 2 == d % 2 && r == s
  {
    assert (Suffix(c) + r)[1] == Suffix(c)[1] && (Suffix(d) + s)[1] == Suffix(d)[1];
    assert r == (Suffix(c) + r)[|Suffix(c)|..] && s == (Suffix(d) + s)[|Suffix(d)|..];
  }

  lemma StepTextSplit(f: Frame, c: nat, r: bytes)
    requires StartsWithDot(r)
    ensures var tail := if HasEntries(f) then Suffix(c) + r else r;
      StartsWithDot(tail) &&
      (StepText(f, c) + r)[1..] == Decimal(if HasEntries(f) then c / 2 else c) + tail
  {
    hide Decimal;
    if HasEntries(f) {
      Assoc([46] + Decimal(c / 2), Suffix(c), r);
      Assoc([46], Decimal(c / 2), Suffix(c) + r);
    } else {
      Assoc([46], Decimal(c), r);
    }
  }

  lemma StepTextInjective(f: Frame, c: nat, d: nat, r: bytes, s: bytes)
    requires StartsWithDot(r) && StartsWithDot(s) && StepText(f, c) + r == StepText(f, d) + s
    ensures c == d && r == s
  {
    StepTextSplit(f, c, r);
    StepTextSplit(f, d, s);
    hide StepText, Decimal, Suffix;
    if HasEntries(f) {
      NumberThenDot(c / 2, d / 2, Suffix(c) + r, Suffix(d) + s);
      SuffixInjective(c, d, r, s);
    } else {
      NumberThenDot(c, d, r, s);
    }
  }

  /** The printed path determines the frame it addresses. */
  lemma {:induction false} TailTextInjective(f: Frame, p: Path, q: Path)
    requires Valid(f, p) && Valid(f, q) && TailText(f, p) == TailText(f, q)
    ensures p == q
    decreases |p|
  {
    if p != [] && q != [] {
      var r, s := TailText(Children(f)[p[0]], p[1..]), TailText(Children(f)[q[0]], q[1..]);
      StepTextInjective(f, p[0], q[0], r, s);
      TailTextInjective(Children(f)[p[0]], p[1..], q[1..]);
    }
  }

  lemma PathTextInjective(f: Frame, p: Path, q: Path)
    requires Valid(f, p) && Valid(f, q) && PathText(f, p) == PathText(f, q)
    ensures p == q
  {
    assert TailText(f, p) == PathText(f, p)[4..] && TailText(f, q) == PathText(f, q)[4..];
    TailTextInjective(f, p, q);
  }

  // ------------------------------------------------------- what a path says

  lemma {:induction false} ChildPath(f: Frame, p: Path, c: nat)
    requires Valid(f, p) && c < |Children(FrameAt(f, p))|
    ensures Valid(f, p + [c]) && FrameAt(f, p + [c]) == Children(FrameAt(f, p))[c]
    ensures PathText(f, p + [c]) == PathText(f, p) + StepText(FrameAt(f, p), c)
    decreases |p|
  {
    ChildTail(f, p, c);
    Assoc(ROOT, TailText(f, p), StepText(FrameAt(f, p), c));
  }

  lemma {:induction false} ChildTail(f: Frame, p: Path, c: nat)
    requires Valid(f, p) && c < |Children(FrameAt(f, p))|
    ensures Valid(f, p + [c]) && FrameAt(f, p + [c]) == Children(FrameAt(f, p))[c]
    ensures TailText(f, p + [c]) == TailText(f, p) + StepText(FrameAt(f, p), c)
    decreases |p|
  {
    hide StepText;
    if p == [] {
      assert [] + [c] == [c] && [c][1..] == [];
      assert StepText(f, c) + [] == StepText(f, c) == [] + StepText(f, c);
    } else {
      var g := Children(f)[p[0]];
      assert (p + [c])[1..] == p[1..] + [c];
      ChildTail(g, p[1..], c);
      Assoc(StepText(f, p[0]), TailText(g, p[1..]), StepText(FrameAt(f, p), c));
    }
  }

  /** The root prints as `root`. */
  lemma RootText(f: Frame)
    ensures PathText(f, []) == [114, 111, 111, 116]
  {
    assert ROOT + [] == ROOT;
  }

  /** An item of an array, a set or a push adds a dot and its position. */
  lemma ItemText(f: Frame, p: Path, i: nat)
    requires Valid(f, p)
    ensures var g := FrameAt(f, p);
      (g.Array? || g.Set? || g.Push?) && i < |g.items| ==>
        && Valid(f, p + [i]) && FrameAt(f, p + [i]) == g.items[i]
        && PathText(f, p + [i]) == PathText(f, p) + ([46] + Decimal(i))
  {
    hide Decimal, FrameAt, PathText;
    var g := FrameAt(f, p);
    if (g.Array? || g.Set? || g.Push?) && i < |g.items| { ChildPath(f, p, i); }
  }

  lemma {:induction false} FlattenAt(entries: seq<Entry>, i: nat)
    requires i < |entries|
    ensures Flatten(entries)[2 * i] == entries[i].key && Flatten(entries)[2 * i + 1] == entries[i].value
  {
    if i > 0 { FlattenAt(entries[1..], i - 1); }
  }

  lemma EntryStepText(g: Frame, i: nat)
    requires HasEntries(g)
    ensures StepText(g, 2 * i) == [46] + Decimal(i) + [46, 107, 101, 121]
    ensures StepText(g, 2 * i + 1) == [46] + Decimal(i) + [46, 118, 97, 108, 117, 101]
  {
    hide Decimal;
  }

  /** The key of an entry of a map or an attribute is the child before its value; it
      adds a dot, the position of the entry and `.key`, and the value `.value`. */
  lemma EntryText(f: Frame, p: Path, i: nat)
    requires Valid(f, p)
    ensures var g := FrameAt(f, p);
      (g.Map? || g.Attribute?) && i < |g.entries| ==>
        && Valid(f, p + [2 * i]) && FrameAt(f, p + [2 * i]) == g.entries[i].key
        && PathText(f, p + [2 * i]) == PathText(f, p) + ([46] + Decimal(i) + [46, 107, 101, 121])
        && Valid(f, p + [2 * i + 1]) && FrameAt(f, p + [2 * i + 1]) == g.entries[i].value
        && PathText(f, p + [2 * i + 1]) == PathText(f, p) + ([46] + Decimal(i) + [46, 118, 97, 108, 117, 101])
  {
    hide Decimal, FrameAt, PathText, Valid, Flatten, StepText;
    var g := FrameAt(f, p);
    if (g.Map? || g.Attribute?) && i < |g.entries| {
      FlattenAt(g.entries, i);
      EntryStepText(g, i);
      ChildPath(f, p, 2 * i);
      ChildPath(f, p, 2 * i + 1);
    }
  }
}
