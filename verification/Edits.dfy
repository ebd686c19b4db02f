/** Edits of a frame tree, and what their log says about the edited tree. */
module Edits {
  import opened Bytes
  import opened Frames
  import opened Paths

  /** Replace the frame, or keep it and edit its children one by one. */
  datatype Edit = Replaced(frame: Frame) | Kept(edits: seq<Edit>)

  /** One log entry: where, what was there, and what is there now. */
  datatype Change = Change(path: Path, before: Frame, after: Frame)

  predicate Fits(f: Frame, e: Edit)
    decreases e
  {
    e.Kept? ==>
      |e.edits| == |Children(f)| && forall i :: 0 <= i < |e.edits| ==> Fits(Children(f)[i], e.edits[i])
  }

  function Apply(f: Frame, e: Edit): (r: Frame)
    requires Fits(f, e)
    decreases e, 1
  {
    if e.Replaced? then e.frame else WithChildren(f, ApplyAll(Children(f), e.edits))
  }

  function ApplyAll(fs: seq<Frame>, es: seq<Edit>): (gs: seq<Frame>)
    requires |fs| == |es| && forall i :: 0 <= i < |es| ==> Fits(fs[i], es[i])
    ensures |gs| == |fs|
    ensures forall i :: 0 <= i < |gs| ==> gs[i] == Apply(fs[i], es[i])
    decreases es, 0
  {
    if es == [] then []
    else ApplyAll(fs[..|fs| - 1], es[..|es| - 1]) + [Apply(fs[|fs| - 1], es[|es| - 1])]
  }

  /** The same changes seen from above, through child `i`. */
  function Under(i: nat, cs: seq<Change>): (r: seq<Change>)
    ensures |r| == |cs|
    ensures forall k :: 0 <= k < |cs| ==> r[k] == cs[k].(path := [i] + cs[k].path)
  {
    seq(|cs|, k requires 0 <= k < |cs| => cs[k].(path := [i] + cs[k].path))
  }

  /** The same changes in a tree that hangs at `path`. */
  function Rebased(path: Path, cs: seq<Change>): (r: seq<Change>)
    ensures |r| == |cs|
    ensures forall k :: 0 <= k < |cs| ==> r[k] == cs[k].(path := path + cs[k].path)
  {
    seq(|cs|, k requires 0 <= k < |cs| => cs[k].(path := path + cs[k].path))
  }

  function Log(f: Frame, e: Edit): (r: seq<Change>)
    requires Fits(f, e)
    decreases e, 1
  {
    if e.Replaced? then [Change([], f, e.frame)] else LogAll(Children(f), e.edits)
  }

  function LogAll(fs: seq<Frame>, es: seq<Edit>): (r: seq<Change>)
    requires |fs| == |es| && forall i :: 0 <= i < |es| ==> Fits(fs[i], es[i])
    decreases es, 0
  {
    if es == [] then []
    else LogAll(fs[..|fs| - 1], es[..|es| - 1]) + Under(|es| - 1, Log(fs[|fs| - 1], es[|es| - 1]))
  }

  /** A logged path goes through a child, and is logged there. */
  lemma {:induction false} LogAllMember(fs: seq<Frame>, es: seq<Edit>, c: Change)
    requires |fs| == |es| && forall i :: 0 <= i < |es| ==> Fits(fs[i], es[i])
    requires c in LogAll(fs, es)
    ensures c.path != [] && c.path[0] < |fs| && c.(path := c.path[1..]) in Log(fs[c.path[0]], es[c.path[0]])
    decreases |es|
  {
    hide Log, Fits;
    var n := |es| - 1;
    if c in LogAll(fs[..n], es[..n]) {
      LogAllMember(fs[..n], es[..n], c);
    } else {
      var cs := Log(fs[n], es[n]);
      var k :| 0 <= k < |cs| && Under(n, cs)[k] == c;
      assert c.path[1..] == cs[k].path;
    }
  }

  lemma {:induction false} LogAllContains(fs: seq<Frame>, es: seq<Edit>, i: nat, c: Change)
    requires |fs| == |es| && forall i :: 0 <= i < |es| ==> Fits(fs[i], es[i])
    requires i < |es| && c in Log(fs[i], es[i])
    ensures c.(path := [i] + c.path) in LogAll(fs, es)
    decreases |es|
  {
    hide Log, Fits;
    var n := |es| - 1;
    if i < n {
      LogAllContains(fs[..n], es[..n], i, c);
    } else {
      var cs := Log(fs[n], es[n]);
      var k :| 0 <= k < |cs| && cs[k] == c;
      assert Under(n, cs)[k] == c.(path := [i] + c.path);
    }
  }

  lemma ApplyChildren(f: Frame, e: Edit)
    requires Fits(f, e) && e.Kept?
    ensures Children(Apply(f, e)) == ApplyAll(Children(f), e.edits) && SameNode(f, Apply(f, e))
  {
    ChildrenOfWithChildren(f, ApplyAll(Children(f), e.edits));
    SameNodeOfWithChildren(f, ApplyAll(Children(f), e.edits));
    hide ApplyAll, Fits, SameNode, WithChildren, Children;
  }

  /** Each change is what happened at its path. */
  lemma {:induction false} ChangesAreReal(f: Frame, e: Edit, c: Change)
    requires Fits(f, e) && c in Log(f, e)
    ensures Valid(f, c.path) && FrameAt(f, c.path) == c.before
    ensures Valid(Apply(f, e), c.path) && FrameAt(Apply(f, e), c.path) == c.after
    decreases e
  {
    if e.Kept? {
      LogAllMember(Children(f), e.edits, c);
      ApplyChildren(f, e);
      var i := c.path[0];
      ChangesAreReal(Children(f)[i], e.edits[i], c.(path := c.path[1..]));
      hide Log, Fits, Apply;
    }
  }

  predicate Untouched(cs: seq<Change>, p: Path) { forall k :: 0 <= k < |cs| ==> !Below(cs[k].path, p) }

  lemma UntouchedBelow(f: Frame, e: Edit, p: Path)
    requires Fits(f, e) && e.Kept? && p != [] && p[0] < |Children(f)| && Untouched(Log(f, e), p)
    ensures Untouched(Log(Children(f)[p[0]], e.edits[p[0]]), p[1..])
  {
    var i := p[0];
    var cs := Log(Children(f)[i], e.edits[i]);
    assert p == [i] + p[1..];
    forall k | 0 <= k < |cs| ensures !Below(cs[k].path, p[1..]) {
      LogAllContains(Children(f), e.edits, i, cs[k]);
      var c := cs[k].(path := [i] + cs[k].path);
      assert c in Log(f, e);
      assert !Below(c.path, p);
    }
  }

  lemma ReplacedIsTouched(f: Frame, e: Edit, p: Path)
    requires Fits(f, e) && e.Replaced?
    ensures !Untouched(Log(f, e), p)
  {
    assert Below(Log(f, e)[0].path, p);
  }

  /** Outside the logged subtrees the two trees have the same paths and nodes. */
  lemma {:induction false} OutsideIsUnchanged(f: Frame, e: Edit, p: Path)
    requires Fits(f, e) && Untouched(Log(f, e), p)
    ensures Valid(f, p) <==> Valid(Apply(f, e), p)
    ensures Valid(f, p) ==>
      var a, b := FrameAt(f, p), FrameAt(Apply(f, e), p); SameNode(a, b) && |Children(a)| == |Children(b)|
    decreases |p|
  {
    if e.Replaced? {
      ReplacedIsTouched(f, e, p);
    } else {
      ApplyChildren(f, e);
      if p != [] && p[0] < |Children(f)| {
        UntouchedBelow(f, e, p);
        OutsideIsUnchanged(Children(f)[p[0]], e.edits[p[0]], p[1..]);
      }
      hide Log, Fits, Apply, Untouched;
    }
  }

  lemma PrefixPrecedes(p: Path, q: Path)
    requires Below(p, q)
    ensures p == q || Precedes(p, q)
    decreases |p|
  {
    if p != [] {
      assert p[1..] <= q[1..] && p == [p[0]] + p[1..] && q == [q[0]] + q[1..];
      PrefixPrecedes(p[1..], q[1..]);
    }
  }

  lemma OrderedIsDistinct(p: Path, q: Path)
    requires Precedes(p, q) && !Below(p, q)
    ensures !Below(q, p)
  {
    if Below(q, p) {
      PrefixPrecedes(q, p);
      if q != p { PrecedesIsTransitive(p, q, p); }
      PrecedesIsIrreflexive(p);
    }
  }

  lemma LogAllParts(fs: seq<Frame>, es: seq<Edit>)
    requires |fs| == |es| && forall i :: 0 <= i < |es| ==> Fits(fs[i], es[i])
    ensures if es == [] then LogAll(fs, es) == []
            else
              var n := |es| - 1; LogAll(fs, es) == LogAll(fs[..n], es[..n]) + Under(n, Log(fs[n], es[n]))
  {
    hide Log, Fits;
  }

  lemma EarlierChild(p: Path, q: Path)
    requires p != [] && q != [] && p[0] < q[0]
    ensures Precedes(p, q) && !Below(p, q)
  {}

  lemma OrderedUnder(n: nat, p: Path, q: Path)
    requires Precedes(p, q) && !Below(p, q)
    ensures Precedes([n] + p, [n] + q) && !Below([n] + p, [n] + q)
  {
    assert ([n] + p)[1..] == p && ([n] + q)[1..] == q;
  }

  lemma LogIsOrdered(f: Frame, e: Edit, j: nat, k: nat)
    requires Fits(f, e) && j < k < |Log(f, e)|
    ensures var cs := Log(f, e); Precedes(cs[j].path, cs[k].path) && !Below(cs[j].path, cs[k].path)
    decreases e, 1
  {
    LogAllIsOrdered(Children(f), e.edits, j, k);
  }

  lemma {:induction false} LogAllIsOrdered(fs: seq<Frame>, es: seq<Edit>, j: nat, k: nat)
    requires |fs| == |es| && forall i :: 0 <= i < |es| ==> Fits(fs[i], es[i])
    requires j < k < |LogAll(fs, es)|
    ensures var cs := LogAll(fs, es); Precedes(cs[j].path, cs[k].path) && !Below(cs[j].path, cs[k].path)
    decreases es, 0
  {
    hide Log, LogAll, Fits, Below, Precedes;
    LogAllParts(fs, es);
    var n := |es| - 1;
    var head, tail := LogAll(fs[..n], es[..n]), Log(fs[n], es[n]);
    if k < |head| {
      LogAllIsOrdered(fs[..n], es[..n], j, k);
    } else if j < |head| {
      LogAllMember(fs[..n], es[..n], head[j]);
      EarlierChild(head[j].path, [n] + tail[k - |head|].path);
    } else {
      LogIsOrdered(fs[n], es[n], j - |head|, k - |head|);
      OrderedUnder(n, tail[j - |head|].path, tail[k - |head|].path);
    }
  }

  /** The log of an edit frames it: its paths are in pre-order and none lies
      below another, each entry says truly what was and is at its path, and
      everywhere else the trees have the same paths and nodes. */
  lemma LogFramesTheEdit(f: Frame, e: Edit)
    requires Fits(f, e)
    ensures var cs := Log(f, e); forall j, k :: 0 <= j < k < |cs| ==>
      Precedes(cs[j].path, cs[k].path) && !Below(cs[j].path, cs[k].path) && !Below(cs[k].path, cs[j].path)
    ensures var g := Apply(f, e); forall c :: c in Log(f, e) ==>
      Valid(f, c.path) && FrameAt(f, c.path) == c.before && Valid(g, c.path) && FrameAt(g, c.path) == c.after
    ensures var g := Apply(f, e); forall p :: Untouched(Log(f, e), p) ==> (Valid(f, p) <==> Valid(g, p))
    ensures var g := Apply(f, e); forall p :: Untouched(Log(f, e), p) && Valid(f, p) ==>
      SameNode(FrameAt(f, p), FrameAt(g, p)) && |Children(FrameAt(f, p))| == |Children(FrameAt(g, p))|
  {
    var cs := Log(f, e);
    forall j, k | 0 <= j < k < |cs|
      ensures Precedes(cs[j].path, cs[k].path) && !Below(cs[j].path, cs[k].path) && !Below(cs[k].path, cs[j].path)
    {
      LogIsOrdered(f, e, j, k);
      OrderedIsDistinct(cs[j].path, cs[k].path);
    }
    hide Log, Fits, Apply, FrameAt, Valid, Untouched;
    forall c | c in cs
      ensures Valid(f, c.path) && FrameAt(f, c.path) == c.before
      ensures Valid(Apply(f, e), c.path) && FrameAt(Apply(f, e), c.path) == c.after
    {
      ChangesAreReal(f, e, c);
    }
    forall p | Untouched(cs, p) ensures Valid(f, p) <==> Valid(Apply(f, e), p) { OutsideIsUnchanged(f, e, p); }
    forall p | Untouched(cs, p) && Valid(f, p)
      ensures SameNode(FrameAt(f, p), FrameAt(Apply(f, e), p))
      ensures |Children(FrameAt(f, p))| == |Children(FrameAt(Apply(f, e), p))|
    {
      OutsideIsUnchanged(f, e, p);
    }
  }

  // ---------------------------------------------------- what an edit preserves

  /** `p` does not look below the node. */
  ghost predicate Shallow(p: Frame -> bool) {
    forall f, fs :: |fs| == |Children(f)| && p(f) ==> p(WithChildren(f, fs))
  }

  ghost predicate ChangesKeep(cs: seq<Change>, p: Frame -> bool) {
    forall k :: 0 <= k < |cs| && p(cs[k].before) ==> Every(cs[k].after, p)
  }

  lemma ChildChanges(f: Frame, e: Edit, i: nat, c: Change)
    requires Fits(f, e) && e.Kept? && i < |e.edits| && c in Log(Children(f)[i], e.edits[i])
    ensures c.(path := [i] + c.path) in Log(f, e)
  {
    LogAllContains(Children(f), e.edits, i, c);
  }

  lemma ChildChangesKeep(f: Frame, e: Edit, i: nat, p: Frame -> bool)
    requires Fits(f, e) && e.Kept? && i < |e.edits| && ChangesKeep(Log(f, e), p)
    ensures ChangesKeep(Log(Children(f)[i], e.edits[i]), p)
  {
    var cs := Log(Children(f)[i], e.edits[i]);
    forall k | 0 <= k < |cs| && p(cs[k].before) ensures Every(cs[k].after, p) { ChildChanges(f, e, i, cs[k]); }
  }

  lemma {:induction false} EditKeepsEvery(f: Frame, e: Edit, p: Frame -> bool)
    requires Fits(f, e) && Every(f, p) && Shallow(p) && ChangesKeep(Log(f, e), p)
    ensures Every(Apply(f, e), p)
    decreases e
  {
    if e.Replaced? {
      assert Log(f, e)[0] == Change([], f, e.frame);
    } else {
      EveryAllMembers(Children(f), p);
      ApplyChildren(f, e);
      var gs := ApplyAll(Children(f), e.edits);
      hide Log, ChangesKeep;
      forall i | 0 <= i < |gs| ensures Every(gs[i], p) {
        ChildChangesKeep(f, e, i, p);
        EditKeepsEvery(Children(f)[i], e.edits[i], p);
      }
      assert p(WithChildren(f, gs));
      hide Fits, Shallow;
      EveryAllMembers(gs, p);
      assert Apply(f, e) == WithChildren(f, gs);
    }
  }

  lemma {:induction false} DepthAllBound(fs: seq<Frame>, d: nat)
    ensures DepthAll(fs) <= d <==> forall i :: 0 <= i < |fs| ==> Depth(fs[i]) <= d
  {
    hide Depth;
    if fs != [] {
      DepthAllBound(fs[1..], d);
      assert forall i :: 0 < i < |fs| ==> fs[i] == fs[1..][i - 1];
    }
  }

  /** If no change deepens its subtree by more than `extra` levels, neither does
      the edit. */
  lemma {:induction false} EditBoundsDepth(f: Frame, e: Edit, extra: nat)
    requires Fits(f, e)
    requires forall k :: 0 <= k < |Log(f, e)| ==> Depth(Log(f, e)[k].after) <= Depth(Log(f, e)[k].before) + extra
    ensures Depth(Apply(f, e)) <= Depth(f) + extra
    decreases e
  {
    if e.Replaced? {
      assert Log(f, e)[0].before == f;
    } else {
      ApplyChildren(f, e);
      var gs := ApplyAll(Children(f), e.edits);
      DepthAllBound(Children(f), DepthAll(Children(f)));
      forall i | 0 <= i < |gs| ensures Depth(gs[i]) <= DepthAll(Children(f)) + extra {
        var cs := Log(Children(f)[i], e.edits[i]);
        forall k | 0 <= k < |cs| ensures Depth(cs[k].after) <= Depth(cs[k].before) + extra {
          ChildChanges(f, e, i, cs[k]);
        }
        EditBoundsDepth(Children(f)[i], e.edits[i], extra);
      }
      DepthAllBound(gs, DepthAll(Children(f)) + extra);
    }
  }

  // ------------------------------------------------------------- one replacement

  /** `f` with the subtree at `p` replaced. */
  function Put(f: Frame, p: Path, g: Frame): (r: Frame)
    requires Valid(f, p)
    decreases |p|
  {
    if p == [] then g
    else WithChildren(f, Children(f)[p[0] := Put(Children(f)[p[0]], p[1..], g)])
  }

  function NoEdit(f: Frame): (r: Edit)
    decreases Nodes(f)
  {
    NodesOfChildren(f);
    Kept(seq(|Children(f)|, i requires 0 <= i < |Children(f)| =>
      NodesOfMember(Children(f), i);
      NoEdit(Children(f)[i])))
  }

  /** All logs but that of child `i` are empty. */
  lemma {:induction false} LogAllSingle(fs: seq<Frame>, es: seq<Edit>, i: nat)
    requires |fs| == |es| && forall j :: 0 <= j < |es| ==> Fits(fs[j], es[j])
    requires forall j :: 0 <= j < |es| && j != i ==> Log(fs[j], es[j]) == []
    ensures LogAll(fs, es) == if i < |es| then Under(i, Log(fs[i], es[i])) else []
  {
    hide Log, Fits;
    if es != [] {
      var n := |es| - 1;
      LogAllSingle(fs[..n], es[..n], i);
      if i != n { assert Under(n, Log(fs[n], es[n])) == []; }
    }
  }

  lemma {:induction false} NoEditIsIdentity(f: Frame)
    ensures Fits(f, NoEdit(f)) && Apply(f, NoEdit(f)) == f && Log(f, NoEdit(f)) == []
    decreases Nodes(f)
  {
    NodesOfChildren(f);
    var fs, e := Children(f), NoEdit(f);
    forall i | 0 <= i < |fs|
      ensures Fits(fs[i], e.edits[i]) && Apply(fs[i], e.edits[i]) == fs[i] && Log(fs[i], e.edits[i]) == []
    {
      NodesOfMember(fs, i);
      NoEditIsIdentity(fs[i]);
    }
    LogAllSingle(fs, e.edits, |fs|);
    assert ApplyAll(fs, e.edits) == fs;
    ChildrenOfWithChildren(f, fs);
  }

  function PutEdit(f: Frame, p: Path, g: Frame): (r: Edit)
    requires Valid(f, p)
    decreases |p|
  {
    if p == [] then Replaced(g)
    else Kept(NoEdit(f).edits[p[0] := PutEdit(Children(f)[p[0]], p[1..], g)])
  }

  lemma EditOneChild(f: Frame, i: nat, es: seq<Edit>)
    requires i < |Children(f)| == |es| && forall j :: 0 <= j < |es| ==> Fits(Children(f)[j], es[j])
    requires forall j :: 0 <= j < |es| && j != i ==>
      Apply(Children(f)[j], es[j]) == Children(f)[j] && Log(Children(f)[j], es[j]) == []
    ensures Fits(f, Kept(es)) && Apply(f, Kept(es)) == WithChildren(f, Children(f)[i := Apply(Children(f)[i], es[i])])
    ensures Log(f, Kept(es)) == Under(i, Log(Children(f)[i], es[i]))
  {
    hide Fits, Apply, ApplyAll, Log, LogAll, Children;
    LogAllSingle(Children(f), es, i);
    ApplyAllSingle(Children(f), es, i);
    KeptParts(f, es);
  }

  lemma ApplyAllSingle(fs: seq<Frame>, es: seq<Edit>, i: nat)
    requires i < |fs| == |es| && forall j :: 0 <= j < |es| ==> Fits(fs[j], es[j])
    requires forall j :: 0 <= j < |es| && j != i ==> Apply(fs[j], es[j]) == fs[j]
    ensures ApplyAll(fs, es) == fs[i := Apply(fs[i], es[i])]
  {
    hide Fits, Apply;
  }

  lemma KeptParts(f: Frame, es: seq<Edit>)
    requires |es| == |Children(f)| && forall j :: 0 <= j < |es| ==> Fits(Children(f)[j], es[j])
    ensures Fits(f, Kept(es)) && Apply(f, Kept(es)) == WithChildren(f, ApplyAll(Children(f), es))
    ensures Log(f, Kept(es)) == LogAll(Children(f), es)
  {
    hide ApplyAll, LogAll, Children;
  }

  lemma NoEditsFit(f: Frame)
    ensures NoEdit(f).Kept?
    ensures var es := NoEdit(f).edits; |es| == |Children(f)| && forall j :: 0 <= j < |es| ==>
      Fits(Children(f)[j], es[j]) && Apply(Children(f)[j], es[j]) == Children(f)[j] && Log(Children(f)[j], es[j]) == []
  {
    forall j | 0 <= j < |Children(f)|
      ensures var e := NoEdit(f).edits[j];
        Fits(Children(f)[j], e) && Apply(Children(f)[j], e) == Children(f)[j] && Log(Children(f)[j], e) == []
    {
      NoEditIsIdentity(Children(f)[j]);
      assert NoEdit(f).edits[j] == NoEdit(Children(f)[j]);
    }
  }

  /** The edit replaces `before` at `p` by `after`, and nothing else. */
  ghost predicate Puts(f: Frame, e: Edit, p: Path, after: Frame)
    requires Valid(f, p)
  {
    Fits(f, e) && Apply(f, e) == Put(f, p, after) && Log(f, e) == [Change(p, FrameAt(f, p), after)]
  }

  lemma PutBelow(f: Frame, p: Path, g: Frame, es: seq<Edit>, e: Edit)
    requires Valid(f, p) && p != [] && Puts(Children(f)[p[0]], e, p[1..], g)
    requires NoEdit(f).Kept? && |NoEdit(f).edits| == |Children(f)| && es == NoEdit(f).edits[p[0] := e]
    ensures Puts(f, Kept(es), p, g)
  {
    NoEditsFit(f);
    hide Fits, Apply, Log, NoEdit;
    EditOneChild(f, p[0], es);
    assert [p[0]] + p[1..] == p;
    assert Under(p[0], [Change(p[1..], FrameAt(f, p), g)]) == [Change(p, FrameAt(f, p), g)];
  }

  lemma {:induction false} PutIsAnEdit(f: Frame, p: Path, g: Frame)
    requires Valid(f, p)
    ensures Puts(f, PutEdit(f, p, g), p, g)
    decreases |p|
  {
    if p == [] {
      assert Log(f, Replaced(g)) == [Change([], f, g)];
    } else {
      hide Puts;
      var e := PutEdit(Children(f)[p[0]], p[1..], g);
      PutIsAnEdit(Children(f)[p[0]], p[1..], g);
      PutBelow(f, p, g, NoEdit(f).edits[p[0] := e], e);
    }
  }
}
