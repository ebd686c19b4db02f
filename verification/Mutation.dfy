/** Value mutation of a reply: which frames may change, how one is selected by a
    weighted offset, and what the two editing traversals do to the tree. */
module Mutation {
  import opened Bytes
  import opened Frames
  import opened Paths
  import opened Edits
  import Draws
  import opened Weights
  import opened Scalars
  import opened RoundTrip
  import Framing
  import Generator
  import Parser

  datatype EvilMode = Off | Random | Mutate | Overflow

  /** The `FRAMING` option; a length fault has a probability of its own. */
  datatype FramingChoice = Auto | Silent | Length(chance: Draws.Chance, target: Framing.Target, kind: Option<Framing.Kind>)

  datatype Settings = Settings(
    mode: EvilMode, many: bool, replace: bool, chance: Draws.Chance, depth: DepthMode, generator: Generator.Config,
    framing: FramingChoice)

  predicate Active(s: Settings) { s.mode.Mutate? || s.mode.Overflow? }

  /** Which frames mutation may change: every frame under REPLACE, and otherwise the
      scalars with a value, flags and inline commands only under MUTATE. */
  predicate MayChange(s: Settings, f: Frame) {
    match f
    case SimpleString(_) => true
    case SimpleError(_) => true
    case Integer(_) => true
    case BulkString(_) => true
    case Double(_) => true
    case BigNumber(_) => true
    case BulkError(_) => true
    case VerbatimString(_) => true
    case Boolean(_) => s.replace || s.mode == Mutate
    case Inline(_) => s.replace || s.mode == Mutate
    case Null => s.replace
    case NullBulk => s.replace
    case NullArray => s.replace
    case Array(_) => s.replace
    case Set(_) => s.replace
    case Push(_) => s.replace
    case Map(_) => s.replace
    case Attribute(_) => s.replace
  }

  /** The test that the traversals make. */
  predicate Eligible(s: Settings, f: Frame)
    ensures Eligible(s, f) <==> MayChange(s, f)
  {
    s.replace || CanOverflow(f) || ((f.Boolean? || f.Inline?) && s.mode.Mutate?)
  }

  /** What one mutation may leave in place of the eligible frame `f`: always
      something else, and of the same kind unless a whole frame is replaced. */
  ghost predicate Outcome(s: Settings, f: Frame, g: Frame) {
    MayChange(s, f) && g != f &&
    if s.mode.Overflow? && !CanOverflow(f) then g == Integer(I64_MAX)
    else if s.mode.Mutate? && s.replace then
      Generator.Generated(s.generator, g, 1) || g == Integer(0) || g == Integer(1)
    else Varied(s.generator, f, g, s.mode.Overflow?)
  }

  ghost predicate Outcomes(s: Settings, cs: seq<Change>) {
    forall k :: 0 <= k < |cs| ==> Outcome(s, cs[k].before, cs[k].after)
  }

  method MutateOne(s: Settings, f: Frame) returns (g: Frame)
    requires Active(s) && MayChange(s, f) && (f.Integer? ==> IsI64(f.number))
    ensures Outcome(s, f, g)
  {
    hide Varied, Generator.Generated;
    if s.mode.Overflow? && !CanOverflow(f) {
      g := Integer(I64_MAX);
    } else if s.mode.Mutate? && s.replace {
      g := Generator.RandomFrame(s.generator);
      if g == f { g := if f == Integer(0) then Integer(1) else Integer(0); }
    } else {
      var draws := Generator.AnyNumberDraws();
      g := MutateScalar(s.generator, f, s.mode.Overflow?, draws);
      VariedDiffers(s.generator, f, g, s.mode.Overflow?);
    }
  }

  lemma VariedDiffers(config: Generator.Config, f: Frame, g: Frame, overflow: bool)
    ensures Varied(config, f, g, overflow) ==> f != g
  {}

  // ------------------------------------------------------------ weights

  /** The weight of every visited frame: zero unless it is eligible. */
  function EligibleWeights(s: Settings, vs: seq<Visit>): (ws: seq<nat>)
    ensures |ws| == |vs|
    ensures forall k :: 0 <= k < |vs| ==>
      ws[k] == if MayChange(s, vs[k].frame) then Weight(s.depth, |vs[k].path|) else 0
  {
    seq(|vs|, k requires 0 <= k < |vs| => if MayChange(s, vs[k].frame) then Weight(s.depth, |vs[k].path|) else 0)
  }

  /** The visits up to and not including those of child `i`. */
  function VisitsBefore(f: Frame, path: Path, i: nat): (r: seq<Visit>)
    requires i <= |Children(f)|
  {
    [Visit(path, f)] + PreorderAll(Children(f)[..i], path, 0)
  }

  lemma {:induction false} PreorderAllAppend(fs: seq<Frame>, gs: seq<Frame>, path: Path, first: nat)
    ensures PreorderAll(fs + gs, path, first) == PreorderAll(fs, path, first) + PreorderAll(gs, path, first + |fs|)
  {
    hide Preorder;
    if fs == [] {
      assert fs + gs == gs;
    } else {
      assert (fs + gs)[1..] == fs[1..] + gs;
      PreorderAllAppend(fs[1..], gs, path, first + 1);
      Assoc(Preorder(fs[0], path + [first]), PreorderAll(fs[1..], path, first + 1), PreorderAll(gs, path, first + |fs|));
    }
  }

  lemma PreorderOfOne(g: Frame, path: Path, i: nat)
    ensures PreorderAll([g], path, i) == Preorder(g, path + [i])
  {
    assert [g][1..] == [];
    hide Preorder;
  }

  lemma VisitsGrow(f: Frame, path: Path, i: nat)
    requires i < |Children(f)|
    ensures VisitsBefore(f, path, i + 1) == VisitsBefore(f, path, i) + Preorder(Children(f)[i], path + [i])
  {
    hide Preorder, PreorderAll;
    var fs := Children(f);
    assert fs[..i + 1] == fs[..i] + [fs[i]];
    PreorderAllAppend(fs[..i], [fs[i]], path, 0);
    PreorderOfOne(fs[i], path, i);
    Assoc([Visit(path, f)], PreorderAll(fs[..i], path, 0), Preorder(fs[i], path + [i]));
  }

  lemma VisitsArePrefix(f: Frame, path: Path, i: nat)
    requires i <= |Children(f)|
    ensures VisitsBefore(f, path, i) <= Preorder(f, path)
  {
    var fs := Children(f);
    assert Preorder(f, path) == [Visit(path, f)] + PreorderAll(fs, path, 0);
    hide Preorder, PreorderAll;
    assert fs == fs[..i] + fs[i..];
    PreorderAllAppend(fs[..i], fs[i..], path, 0);
    Assoc([Visit(path, f)], PreorderAll(fs[..i], path, 0), PreorderAll(fs[i..], path, i));
  }

  lemma VisitsStep(f: Frame, path: Path, i: nat)
    requires i < |Children(f)|
    ensures VisitsBefore(f, path, i + 1) == VisitsBefore(f, path, i) + Preorder(Children(f)[i], path + [i])
    ensures VisitsBefore(f, path, i + 1) <= Preorder(f, path)
  {
    VisitsGrow(f, path, i);
    VisitsArePrefix(f, path, i + 1);
  }

  lemma VisitsEnds(f: Frame, path: Path)
    ensures VisitsBefore(f, path, 0) == [Visit(path, f)]
    ensures VisitsBefore(f, path, |Children(f)|) == Preorder(f, path)
  {
    assert Children(f)[..|Children(f)|] == Children(f);
  }

  lemma WeightsAppend(s: Settings, vs: seq<Visit>, us: seq<Visit>)
    ensures EligibleWeights(s, vs + us) == EligibleWeights(s, vs) + EligibleWeights(s, us)
    ensures Sum(EligibleWeights(s, vs + us)) == Sum(EligibleWeights(s, vs)) + Sum(EligibleWeights(s, us))
  {
    SumAppend(EligibleWeights(s, vs), EligibleWeights(s, us));
    hide Sum, Eligible, MayChange, Weight;
    assert EligibleWeights(s, vs + us) == EligibleWeights(s, vs) + EligibleWeights(s, us);
  }

  lemma OwnWeight(s: Settings, f: Frame, path: Path)
    ensures Sum(EligibleWeights(s, VisitsBefore(f, path, 0))) == if MayChange(s, f) then Weight(s.depth, |path|) else 0
  {
    VisitsEnds(f, path);
    var ws := EligibleWeights(s, [Visit(path, f)]);
    assert ws[..0] == [];
    hide Eligible, MayChange, Weight;
  }

  /** The summing traversal computes the total of the weights. */
  method EligibleWeight(s: Settings, f: Frame, depth: nat, ghost path: Path) returns (total: nat)
    requires depth == |path|
    ensures total == Sum(EligibleWeights(s, Preorder(f, path)))
    decreases Nodes(f)
  {
    hide Sum, Weight, Preorder, VisitsBefore, Eligible, MayChange;
    var fs := Children(f);
    NodesOfChildren(f);
    OwnWeight(s, f, path);
    VisitsEnds(f, path);
    total := if Eligible(s, f) then Weight(s.depth, depth) else 0;
    for i := 0 to |fs|
      invariant total == Sum(EligibleWeights(s, VisitsBefore(f, path, i)))
    {
      NodesOfMember(fs, i);
      var child := EligibleWeight(s, fs[i], depth + 1, path + [i]);
      VisitsStep(f, path, i);
      WeightsAppend(s, VisitsBefore(f, path, i), Preorder(fs[i], path + [i]));
      total := total + child;
    }
  }

  /** The total and every partial sum fit in 128 bits below 2^63 frames. */
  lemma EligibleWeightFitsInU128(s: Settings, f: Frame)
    requires Nodes(f) <= Pow2(63)
    ensures Sum(EligibleWeights(s, Preorder(f, []))) < Pow2(128)
  {
    hide Sum, Weight, Preorder, Pow2, Eligible, MayChange, Nodes;
    PreorderLength(f, []);
    var vs := Preorder(f, []);
    forall k | 0 <= k < |vs| ensures EligibleWeights(s, vs)[k] <= Pow2(64) { WeightBound(s.depth, |vs[k].path|); }
    SumFitsInU128(EligibleWeights(s, vs));
  }

  method SelectWeight(s: Settings, f: Frame, draw: nat -> nat) returns (offset: Option<nat>)
    requires Draws.IsDraw(draw)
    ensures var total := Sum(EligibleWeights(s, Preorder(f, [])));
      offset == (if total == 0 then None else Some(draw(total))) && (offset.Some? ==> offset.value < total)
  {
    var total := EligibleWeight(s, f, 0, []);
    if total == 0 { return None; }
    offset := Some(draw(total));
  }

  // --------------------------------------------------------- the selected frame

  /** The offset `r` selects the `k`-th visited frame, and `g` differs from `f`
      by the one change `c` made there. */
  ghost predicate Hit(s: Settings, f: Frame, path: Path, r: nat, k: nat, c: Change, g: Frame) {
    && var vs := Preorder(f, path);
    && k < |vs| && Selected(EligibleWeights(s, vs), r, k)
    && c.path == vs[k].path && c.before == vs[k].frame && Outcome(s, c.before, c.after)
    && Reports(f, path, vs[k]) && g == Put(f, c.path[|path|..], c.after)
  }

  lemma SelectedShift(a: seq<nat>, b: seq<nat>, ws: seq<nat>, r: nat, k: nat)
    requires Selected(b, r, k) && a + b <= ws
    ensures Selected(ws, Sum(a) + r, |a| + k)
  {
    hide Sum, Selected;
    SelectedInRange(b, r, k);
    TakeOfPrefix(a, b, ws, k);
    SumAppend(a, b[..k]);
    SelectedByParts(b, ws, r, k, Sum(a), |a|);
  }

  lemma SelectedInRange(ws: seq<nat>, r: nat, k: nat)
    requires Selected(ws, r, k)
    ensures k < |ws|
  {}

  lemma SelectedByParts(b: seq<nat>, ws: seq<nat>, r: nat, k: nat, base: nat, n: nat)
    requires Selected(b, r, k) && n + k < |ws| && Sum(ws[..n + k]) == base + Sum(b[..k]) && ws[n + k] == b[k]
    ensures Selected(ws, base + r, n + k)
  {
    hide Sum;
  }

  lemma TakeOfPrefix(a: seq<nat>, b: seq<nat>, ws: seq<nat>, k: nat)
    requires a + b <= ws && k < |b|
    ensures |a| + k < |ws| && ws[..|a| + k] == a + b[..k] && ws[|a| + k] == b[k]
  {
    assert ws[..|a + b|] == a + b;
    assert (a + b)[..|a| + k] == a + b[..k];
    assert ws[..|a| + k] == ws[..|a + b|][..|a| + k];
    assert ws[|a| + k] == (a + b)[|a| + k];
  }

  lemma HitHere(s: Settings, f: Frame, path: Path, r: nat, after: Frame)
    requires MayChange(s, f) && r < Weight(s.depth, |path|) && Outcome(s, f, after)
    ensures Hit(s, f, path, r, 0, Change(path, f, after), after)
  {
    var ws := EligibleWeights(s, Preorder(f, path));
    assert ws[..0] == [];
    PreorderReports(f, path, 0);
    assert path[|path|..] == [];
    hide Eligible, MayChange, Weight, Outcome;
  }

  lemma PutThrough(f: Frame, i: nat, q: Path, g: Frame)
    requires i < |Children(f)| && Valid(Children(f)[i], q)
    ensures Valid(f, [i] + q) && Put(f, [i] + q, g) == WithChildren(f, Children(f)[i := Put(Children(f)[i], q, g)])
  {
    assert ([i] + q)[1..] == q;
  }

  lemma ReportedPath(f: Frame, path: Path, v: Visit)
    ensures Reports(f, path, v) ==> |v.path| >= |path| && Valid(f, v.path[|path|..])
  {}

  lemma HitBelow(s: Settings, f: Frame, path: Path, i: nat, r: nat, k: nat, c: Change, g: Frame)
    requires i < |Children(f)| && Hit(s, Children(f)[i], path + [i], r, k, c, g)
    ensures Hit(s, f, path, Sum(EligibleWeights(s, VisitsBefore(f, path, i))) + r, |VisitsBefore(f, path, i)| + k, c,
                WithChildren(f, Children(f)[i := g]))
  {
    hide Preorder, Sum, Outcome, VisitsBefore, EligibleWeights, Reports, Eligible, MayChange, Put, Valid, Children, WithChildren;
    var child, head := Children(f)[i], VisitsBefore(f, path, i);
    var us, vs := Preorder(child, path + [i]), Preorder(f, path);
    VisitsStep(f, path, i);
    ReportedPath(child, path + [i], us[k]);
    ReportsFromChild(f, path, i, us[k]);
    assert vs[|head| + k] == us[k];
    PutThrough(f, i, c.path[|path| + 1..], c.after);
    WeightsOfPrefix(s, head + us, vs);
    WeightsAppend(s, head, us);
    SelectedShift(EligibleWeights(s, head), EligibleWeights(s, us), EligibleWeights(s, vs), r, k);
  }

  lemma WeightsOfPrefix(s: Settings, us: seq<Visit>, vs: seq<Visit>)
    requires us <= vs
    ensures EligibleWeights(s, us) <= EligibleWeights(s, vs)
  {
    assert vs == us + vs[|us|..];
    WeightsAppend(s, us, vs[|us|..]);
  }

  class Editor {
    const settings: Settings
    /** The weight still to skip before the selected frame. */
    var remaining: nat
    var mutations: seq<Change>

    constructor (settings: Settings, remaining: nat)
      ensures this.settings == settings && this.remaining == remaining && mutations == []
    {
      this.settings := settings;
      this.remaining := remaining;
      mutations := [];
    }

    /** Edits the frame the offset selects, and no other; without one, only
        subtracts the total weight. The last two results witness the choice. */
    method MutateSelected(f: Frame, path: Path) returns (g: Frame, done: bool, ghost k: nat, ghost c: Change)
      requires Active(settings) && Every(f, ParsedNode)
      modifies this
      ensures var total := Sum(EligibleWeights(settings, Preorder(f, path)));
        && done == (old(remaining) < total)
        && (!done ==> g == f && mutations == old(mutations) && remaining == old(remaining) - total)
      ensures done ==> mutations == old(mutations) + [c] && Hit(settings, f, path, old(remaining), k, c, g)
      decreases Nodes(f)
    {
      hide Sum, Preorder, VisitsBefore, Outcome, Hit, EligibleWeights;
      var fs := Children(f);
      NodesOfChildren(f);
      EveryAllMembers(fs, ParsedNode);
      OwnWeight(settings, f, path);
      VisitsEnds(f, path);
      k, c := 0, Change(path, f, f);
      if Eligible(settings, f) {
        var weight := Weight(settings.depth, |path|);
        if remaining < weight {
          g := MutateOne(settings, f);
          c := Change(path, f, g);
          HitHere(settings, f, path, remaining, g);
          HitIsBelowTotal(settings, f, path, remaining, 0, c, g);
          mutations := mutations + [Change(path, f, g)];
          done := true;
          return;
        }
        remaining := remaining - weight;
      }
      for i := 0 to |fs|
        invariant mutations == old(mutations)
        invariant remaining + Sum(EligibleWeights(settings, VisitsBefore(f, path, i))) == old(remaining)
      {
        NodesOfMember(fs, i);
        ghost var r := remaining;
        var child;
        child, done, k, c := MutateSelected(fs[i], path + [i]);
        if done {
          HitBelow(settings, f, path, i, r, k, c, child);
          g := WithChildren(f, fs[i := child]);
          k := |VisitsBefore(f, path, i)| + k;
          HitIsBelowTotal(settings, f, path, old(remaining), k, c, g);
          return;
        }
        VisitsStep(f, path, i);
        WeightsAppend(settings, VisitsBefore(f, path, i), Preorder(fs[i], path + [i]));
      }
      g, done := f, false;
    }

    /** Edits any of the eligible frames, never below an edited one, and every one
        whose chance is full and that is not below another. */
    method MutateFrame(f: Frame, path: Path, deepest: nat) returns (g: Frame, ghost e: Edit)
      requires Active(settings) && Every(f, ParsedNode)
      modifies this`mutations
      ensures Fits(f, e) && g == Apply(f, e) && Outcomes(settings, Log(f, e))
      ensures mutations == old(mutations) + Rebased(path, Log(f, e))
      ensures settings.chance.Never? ==> Log(f, e) == []
      ensures Reaches(settings, f, Log(f, e), |path|, deepest)
      decreases Nodes(f), 1
    {
      hide Outcome, Rebased, Eligible, MayChange, Reaches;
      if Eligible(settings, f) {
        var apply := Draws.Toss(Scaled(settings.chance, settings.depth, |path|, deepest));
        if apply {
          g := MutateOne(settings, f);
          e := Replaced(g);
          assert Log(f, e) == [Change([], f, g)];
          RebasedHere(path, f, g);
          mutations := mutations + [Change(path, f, g)];
          ReplacedReaches(settings, f, g, |path|, deepest);
          return;
        }
      }
      hide Fits, Log, Apply, Outcomes, EditedSoFar, Every;
      var gs;
      ghost var es;
      gs, es := MutateChildren(f, path, deepest);
      e := Kept(es);
      g := WithChildren(f, gs);
      EditedWhole(f, es, gs);
      KeptReaches(settings, f, es, |path|, deepest);
    }

    method MutateChildren(f: Frame, path: Path, deepest: nat) returns (gs: seq<Frame>, ghost es: seq<Edit>)
      requires Active(settings) && Every(f, ParsedNode)
      modifies this`mutations
      ensures EditedSoFar(Children(f), es, gs) && Outcomes(settings, LogAll(Children(f), es))
      ensures mutations == old(mutations) + Rebased(path, LogAll(Children(f), es))
      ensures settings.chance.Never? ==> LogAll(Children(f), es) == []
      ensures ReachesAll(settings, Children(f), es, |path| + 1, deepest)
      decreases Nodes(f), 0
    {
      var fs := Children(f);
      NodesOfChildren(f);
      EveryAllMembers(fs, ParsedNode);
      assert EveryAll(fs, ParsedNode);
      hide Outcome, Rebased, Fits, Log, LogAll, Apply, ApplyAll, Outcomes, Every, EveryAll, EditedSoFar, Nodes, NodesAll;
      hide Reaches, ReachesAll, Children;
      RebasedNone(path);
      gs, es := [], [];
      EditedNone();
      assert fs[..0] == [];
      LogAllParts(fs[..0], es);
      OutcomesNone(settings);
      ReachesNone(settings, |path| + 1, deepest);
      for i := 0 to |fs|
        invariant |gs| == |es| == i && EditedSoFar(fs[..i], es, gs)
        invariant Outcomes(settings, LogAll(fs[..i], es))
        invariant mutations == old(mutations) + Rebased(path, LogAll(fs[..i], es))
        invariant settings.chance.Never? ==> LogAll(fs[..i], es) == []
        invariant ReachesAll(settings, fs[..i], es, |path| + 1, deepest)
      {
        NodesOfMember(fs, i);
        var child;
        ghost var edit;
        child, edit := MutateFrame(fs[i], path + [i], deepest);
        LoggedStep(settings, path, fs, es, gs, i, child, edit);
        ReachesStep(settings, fs, es, i, edit, |path| + 1, deepest);
        Assoc(old(mutations), Rebased(path, LogAll(fs[..i], es)), Rebased(path + [i], Log(fs[i], edit)));
        es := es + [edit];
        gs := gs + [child];
      }
      assert fs[..|fs|] == fs;
    }
  }

  // ------------------------------------------------------- at full probability

  /** The eligible frame at `p` has the full probability. */
  predicate Sure(s: Settings, f: Frame, p: Path, level: nat, deepest: nat) {
    Valid(f, p) && MayChange(s, FrameAt(f, p)) && Scaled(s.chance, s.depth, level + |p|, deepest).Always?
  }

  /** Every such frame is at or below a logged path. */
  ghost predicate Reaches(s: Settings, f: Frame, cs: seq<Change>, level: nat, deepest: nat) {
    forall p :: Sure(s, f, p, level, deepest) ==> !Untouched(cs, p)
  }

  ghost predicate ReachesAll(s: Settings, fs: seq<Frame>, es: seq<Edit>, level: nat, deepest: nat) {
    |fs| == |es| && forall i :: 0 <= i < |fs| ==> Fits(fs[i], es[i]) && Reaches(s, fs[i], Log(fs[i], es[i]), level, deepest)
  }

  lemma ReachesNone(s: Settings, level: nat, deepest: nat)
    ensures ReachesAll(s, [], [], level, deepest)
  {}

  lemma ReachesStep(s: Settings, fs: seq<Frame>, es: seq<Edit>, i: nat, e: Edit, level: nat, deepest: nat)
    requires i < |fs| && ReachesAll(s, fs[..i], es, level, deepest)
    requires Fits(fs[i], e) && Reaches(s, fs[i], Log(fs[i], e), level, deepest)
    ensures ReachesAll(s, fs[..i + 1], es + [e], level, deepest)
  {
    hide Reaches, Fits, Log;
    assert fs[..i + 1][..i] == fs[..i];
    forall j | 0 <= j <= i
      ensures Fits(fs[j], (es + [e])[j]) && Reaches(s, fs[j], Log(fs[j], (es + [e])[j]), level, deepest)
    {
      if j < i { assert fs[..i][j] == fs[j] && (es + [e])[j] == es[j]; }
    }
  }

  lemma ReplacedReaches(s: Settings, f: Frame, g: Frame, level: nat, deepest: nat)
    ensures Reaches(s, f, [Change([], f, g)], level, deepest)
  {
    forall p | Sure(s, f, p, level, deepest) ensures !Untouched([Change([], f, g)], p) {
      assert Below([Change([], f, g)][0].path, p);
    }
  }

  lemma KeptReaches(s: Settings, f: Frame, es: seq<Edit>, level: nat, deepest: nat)
    requires ReachesAll(s, Children(f), es, level + 1, deepest)
    requires MayChange(s, f) ==> !Scaled(s.chance, s.depth, level, deepest).Always?
    ensures Reaches(s, f, LogAll(Children(f), es), level, deepest)
  {
    forall p | Sure(s, f, p, level, deepest) ensures !Untouched(LogAll(Children(f), es), p) {
      ChildReaches(s, f, es, p, level, deepest);
    }
  }

  lemma ChildReaches(s: Settings, f: Frame, es: seq<Edit>, p: Path, level: nat, deepest: nat)
    requires ReachesAll(s, Children(f), es, level + 1, deepest) && Sure(s, f, p, level, deepest)
    requires MayChange(s, f) ==> !Scaled(s.chance, s.depth, level, deepest).Always?
    ensures !Untouched(LogAll(Children(f), es), p)
  {
    hide Eligible, MayChange, Log, Fits;
    assert p != [];
    var i, q := p[0], p[1..];
    var cs := Log(Children(f)[i], es[i]);
    assert Sure(s, Children(f)[i], q, level + 1, deepest);
    assert Reaches(s, Children(f)[i], cs, level + 1, deepest);
    var k :| 0 <= k < |cs| && Below(cs[k].path, q);
    LogAllContains(Children(f), es, i, cs[k]);
    var c := cs[k].(path := [i] + cs[k].path);
    assert Below(c.path, p) by { assert p == [i] + q; }
    var m :| 0 <= m < |LogAll(Children(f), es)| && LogAll(Children(f), es)[m] == c;
  }

  /** The deepest level that holds an eligible frame, if any. */
  predicate IsDeepestEligible(s: Settings, vs: seq<Visit>, deepest: Option<nat>) {
    && (forall k :: 0 <= k < |vs| && MayChange(s, vs[k].frame) ==> deepest.Some? && |vs[k].path| <= deepest.value)
    && (deepest.Some? ==> exists k :: 0 <= k < |vs| && MayChange(s, vs[k].frame) && |vs[k].path| == deepest.value)
  }

  function Deeper(a: Option<nat>, b: Option<nat>): (r: Option<nat>) {
    if a.None? then b else if b.None? || b.value <= a.value then a else b
  }

  lemma DeeperAppend(s: Settings, vs: seq<Visit>, us: seq<Visit>, a: Option<nat>, b: Option<nat>)
    requires IsDeepestEligible(s, vs, a) && IsDeepestEligible(s, us, b)
    ensures IsDeepestEligible(s, vs + us, Deeper(a, b))
  {
    hide Eligible, MayChange;
    var ws := vs + us;
    assert forall k :: 0 <= k < |vs| ==> ws[k] == vs[k];
    assert forall k :: 0 <= k < |us| ==> ws[|vs| + k] == us[k];
    if Deeper(a, b).Some? {
      if Deeper(a, b) == a {
        var k :| 0 <= k < |vs| && MayChange(s, vs[k].frame) && |vs[k].path| == a.value;
        assert MayChange(s, ws[k].frame);
      } else {
        var k :| 0 <= k < |us| && MayChange(s, us[k].frame) && |us[k].path| == b.value;
        assert MayChange(s, ws[|vs| + k].frame);
      }
    }
  }

  method EligibleMaxDepth(s: Settings, f: Frame, depth: nat, ghost path: Path) returns (deepest: Option<nat>)
    requires depth == |path|
    ensures IsDeepestEligible(s, Preorder(f, path), deepest)
    decreases Nodes(f)
  {
    hide Preorder, VisitsBefore, Eligible, MayChange, IsDeepestEligible;
    var fs := Children(f);
    NodesOfChildren(f);
    VisitsEnds(f, path);
    deepest := if Eligible(s, f) then Some(depth) else None;
    DeepestHere(s, f, path, deepest);
    for i := 0 to |fs|
      invariant IsDeepestEligible(s, VisitsBefore(f, path, i), deepest)
    {
      NodesOfMember(fs, i);
      var child := EligibleMaxDepth(s, fs[i], depth + 1, path + [i]);
      VisitsStep(f, path, i);
      DeeperAppend(s, VisitsBefore(f, path, i), Preorder(fs[i], path + [i]), deepest, child);
      deepest := Deeper(deepest, child);
    }
  }

  lemma DeepestHere(s: Settings, f: Frame, path: Path, deepest: Option<nat>)
    requires deepest == if MayChange(s, f) then Some(|path|) else None
    ensures IsDeepestEligible(s, [Visit(path, f)], deepest)
  {
    hide Eligible, MayChange;
    assert [Visit(path, f)][0] == Visit(path, f);
  }

  lemma HitIsBelowTotal(s: Settings, f: Frame, path: Path, r: nat, k: nat, c: Change, g: Frame)
    requires Hit(s, f, path, r, k, c, g)
    ensures r < Sum(EligibleWeights(s, Preorder(f, path)))
  {
    SelectedBelowSum(EligibleWeights(s, Preorder(f, path)), r, k);
    hide Preorder, Sum, Outcome, EligibleWeights, Reports, Put;
  }

  // -------------------------------------------------- the edits made on the way

  lemma RebasedHere(path: Path, f: Frame, g: Frame)
    ensures Rebased(path, [Change([], f, g)]) == [Change(path, f, g)]
  {
    assert path + [] == path;
  }

  lemma RebasedNone(path: Path)
    ensures Rebased(path, []) == []
  {}

  lemma RebasedAppend(path: Path, cs: seq<Change>, ds: seq<Change>)
    ensures Rebased(path, cs + ds) == Rebased(path, cs) + Rebased(path, ds)
  {}

  lemma RebasedUnder(path: Path, i: nat, cs: seq<Change>)
    ensures Rebased(path, Under(i, cs)) == Rebased(path + [i], cs)
  {
    forall k | 0 <= k < |cs| ensures path + ([i] + cs[k].path) == path + [i] + cs[k].path {}
  }

  ghost predicate EditedSoFar(fs: seq<Frame>, es: seq<Edit>, gs: seq<Frame>) {
    |fs| == |es| == |gs| && forall j :: 0 <= j < |es| ==> Fits(fs[j], es[j]) && gs[j] == Apply(fs[j], es[j])
  }

  lemma EditedNone()
    ensures EditedSoFar([], [], [])
  {}

  lemma OutcomesNone(s: Settings)
    ensures Outcomes(s, [])
  {}

  lemma LoggedStep(s: Settings, path: Path, fs: seq<Frame>, es: seq<Edit>, gs: seq<Frame>, i: nat, g: Frame, e: Edit)
    requires i < |fs| && EditedSoFar(fs[..i], es, gs) && Outcomes(s, LogAll(fs[..i], es))
    requires Fits(fs[i], e) && g == Apply(fs[i], e) && Outcomes(s, Log(fs[i], e))
    ensures EditedSoFar(fs[..i + 1], es + [e], gs + [g]) && Outcomes(s, LogAll(fs[..i + 1], es + [e]))
    ensures Rebased(path, LogAll(fs[..i + 1], es + [e]))
         == Rebased(path, LogAll(fs[..i], es)) + Rebased(path + [i], Log(fs[i], e))
    ensures LogAll(fs[..i], es) == [] && Log(fs[i], e) == [] ==> LogAll(fs[..i + 1], es + [e]) == []
  {
    hide Fits, Log, Apply, Outcome, Rebased;
    assert fs[..i + 1][..i] == fs[..i] && (es + [e])[..i] == es;
    assert LogAll(fs[..i + 1], es + [e]) == LogAll(fs[..i], es) + Under(i, Log(fs[i], e));
    RebasedAppend(path, LogAll(fs[..i], es), Under(i, Log(fs[i], e)));
    RebasedUnder(path, i, Log(fs[i], e));
  }

  lemma EditedWhole(f: Frame, es: seq<Edit>, gs: seq<Frame>)
    requires EditedSoFar(Children(f), es, gs)
    ensures Fits(f, Kept(es)) && Apply(f, Kept(es)) == WithChildren(f, gs)
    ensures Log(f, Kept(es)) == LogAll(Children(f), es)
  {
    assert ApplyAll(Children(f), es) == gs;
  }
}
