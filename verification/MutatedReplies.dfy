/** What a client receives once value mutation and length faults are done. */
module MutatedReplies {
  import opened Bytes
  import opened Frames
  import opened Paths
  import opened Edits
  import opened Scalars
  import opened RoundTrip
  import opened Mutation
  import opened Weights
  import Draws
  import Framing
  import Generator
  import Parser
  import Reservoir

  // ------------------------------------------------------------ node by node

  lemma NodesAreShallow()
    ensures Shallow(PlainNode) && Shallow(ParsedNode)
  {
    forall f, fs | |fs| == |Children(f)| && PlainNode(f) ensures PlainNode(WithChildren(f, fs)) {}
  }

  lemma GeneratedIsPlain(config: Generator.Config, g: Frame)
    requires Generator.Generated(config, g, 1)
    ensures Plain(g) && Depth(g) <= 3
  {
    hide Every, Depth;
    if config.violations { EveryWeaken(g, Generator.BoundedNode, PlainNode); }
    else if config.protocol.Resp2? { EveryWeaken(g, Generator.Resp2Node, PlainNode); }
    else { EveryWeaken(g, Generator.Resp3Node, PlainNode); }
  }

  /** Levels that one mutation may add. */
  function Extra(s: Settings): (n: nat) { if s.mode.Mutate? && s.replace then 2 else 0 }

  lemma LeafOutcome(s: Settings, f: Frame, g: Frame)
    requires Outcome(s, f, g) && !(s.mode.Mutate? && s.replace && Generator.Generated(s.generator, g, 1))
    ensures Children(g) == [] && ParsedNode(g) && (PlainNode(f) ==> PlainNode(g))
  {
    hide Generator.Generated, IsExtreme;
  }

  lemma OutcomeIsWellFormed(s: Settings, f: Frame, g: Frame)
    requires Outcome(s, f, g)
    ensures Every(g, ParsedNode) && (PlainNode(f) ==> Plain(g)) && Depth(g) <= Depth(f) + Extra(s)
  {
    hide Generator.Generated, Outcome, Every;
    if s.mode.Mutate? && s.replace && Generator.Generated(s.generator, g, 1) {
      GeneratedIsPlain(s.generator, g);
      EveryWeaken(g, PlainNode, ParsedNode);
    } else {
      LeafOutcome(s, f, g);
      EveryLeaf(g, ParsedNode);
      EveryLeaf(g, PlainNode);
      assert Depth(g) == 1;
    }
  }

  lemma EditIsWellFormed(s: Settings, f: Frame, e: Edit)
    requires Fits(f, e) && Outcomes(s, Log(f, e))
    ensures Every(f, ParsedNode) ==> Every(Apply(f, e), ParsedNode)
    ensures Plain(f) ==> Plain(Apply(f, e))
    ensures Depth(Apply(f, e)) <= Depth(f) + Extra(s)
  {
    hide Fits, Log, Apply, Outcome, Shallow;
    var cs := Log(f, e);
    forall k | 0 <= k < |cs|
      ensures Every(cs[k].after, ParsedNode) && (PlainNode(cs[k].before) ==> Every(cs[k].after, PlainNode))
      ensures Depth(cs[k].after) <= Depth(cs[k].before) + Extra(s)
    {
      OutcomeIsWellFormed(s, cs[k].before, cs[k].after);
    }
    NodesAreShallow();
    hide Every, Depth;
    if Every(f, ParsedNode) { EditKeepsEvery(f, e, ParsedNode); }
    if Plain(f) { EditKeepsEvery(f, e, PlainNode); }
    EditBoundsDepth(f, e, Extra(s));
  }

  // ------------------------------------------------------------------- theorems

  /** Every logged change is a real one, so the reply differs as a tree and on the
      wire as soon as anything is logged. */
  lemma LoggedMutationShows(s: Settings, f: Frame, e: Edit)
    requires Fits(f, e) && Outcomes(s, Log(f, e)) && Log(f, e) != []
    ensures Apply(f, e) != f
    ensures Plain(f) ==> Encode(Apply(f, e)) != Encode(f)
  {
    var c := Log(f, e)[0];
    ChangesAreReal(f, e, c);
    assert Outcome(s, c.before, c.after);
    assert c.before != c.after;
    hide Fits, Log, Apply, Encode;
    if Plain(f) && Encode(Apply(f, e)) == Encode(f) {
      EditIsWellFormed(s, f, e);
      assert Encode(f) + [] == Encode(Apply(f, e)) + [];
      PlainIsRecoverable(f);
      PlainIsRecoverable(Apply(f, e));
      EncodingIsPrefixFree(f, Apply(f, e), [], []);
    }
  }

  /** Value mutation alone never breaks the framing: the emitted bytes parse to
      exactly the mutated tree if and only if they are within the limits, and the
      nesting cannot exceed its limit when the reply leaves room for a generated
      frame (126 levels under REPLACE, 128 otherwise). */
  lemma MutatedRepliesParse(s: Settings, f: Frame, e: Edit)
    requires Plain(f) && Fits(f, e) && Outcomes(s, Log(f, e))
    ensures var g := Apply(f, e); Parser.ParseFrame(Encode(g)) == Parser.Ok(g) <==>
      |Encode(g)| <= Parser.MAX_FRAME_BYTES && Depth(g) <= Parser.MAX_FRAME_DEPTH
    ensures var g := Apply(f, e); Depth(f) + Extra(s) <= Parser.MAX_FRAME_DEPTH ==>
      (Parser.ParseFrame(Encode(g)) == Parser.Ok(g) <==> |Encode(g)| <= Parser.MAX_FRAME_BYTES)
  {
    EditIsWellFormed(s, f, e);
    hide Fits, Log, Apply, Encode, Depth, Every, Parser.ParseFrame;
    PlainIsRecoverable(Apply(f, e));
    ParseUndoesEncode(Apply(f, e));
  }

  lemma {:induction false} NothingBelowLeaf(f: Frame, p: Path, q: Path)
    requires Below(p, q) && Valid(f, p) && Children(FrameAt(f, p)) == []
    ensures Valid(f, q) <==> q == p
    decreases |p|
  {
    if p != [] {
      assert p[1..] <= q[1..] && p == [p[0]] + p[1..] && q == [q[0]] + q[1..];
      NothingBelowLeaf(Children(f)[p[0]], p[1..], q[1..]);
    }
  }

  lemma PreservedOutcome(s: Settings, f: Frame, g: Frame)
    requires Outcome(s, f, g) && !s.replace
    ensures SameKind(f, g) && Children(f) == [] && Children(g) == []
  {
    hide Generator.Generated, IsExtreme;
  }

  lemma SameNodeSameKind(f: Frame, g: Frame)
    requires SameNode(f, g)
    ensures SameKind(f, g)
  {}

  /** Under PRESERVE the shape of the reply stays: both trees have the same paths,
      with the same constructor and as many children at each. */
  lemma PreserveKeepsShape(s: Settings, f: Frame, e: Edit, p: Path)
    requires Fits(f, e) && Outcomes(s, Log(f, e)) && !s.replace
    ensures Valid(f, p) <==> Valid(Apply(f, e), p)
    ensures Valid(f, p) ==>
      var a, b := FrameAt(f, p), FrameAt(Apply(f, e), p); SameKind(a, b) && |Children(a)| == |Children(b)|
  {
    hide Fits, Log, Apply, Outcome, SameKind, SameNode, Children;
    var cs := Log(f, e);
    if Untouched(cs, p) {
      OutsideIsUnchanged(f, e, p);
      if Valid(f, p) { SameNodeSameKind(FrameAt(f, p), FrameAt(Apply(f, e), p)); }
    } else {
      var k :| 0 <= k < |cs| && Below(cs[k].path, p);
      ChangesAreReal(f, e, cs[k]);
      PreservedOutcome(s, cs[k].before, cs[k].after);
      NothingBelowLeaf(f, cs[k].path, p);
      NothingBelowLeaf(Apply(f, e), cs[k].path, p);
    }
  }

  // ------------------------------------------------------------- kind by kind

  /** A scalar with a value. */
  predicate IsValue(g: Frame) {
    || g.SimpleString? || g.SimpleError? || g.Integer? || g.BulkString? || g.Double? || g.BigNumber?
    || g.BulkError? || g.VerbatimString?
  }

  ghost predicate LoggedAbove(cs: seq<Change>, p: Path) { exists k :: 0 <= k < |cs| && Below(cs[k].path, p) }

  /** Where MANY reaches all it may, at any depth: every scalar with a value, flags and
      inline commands under MUTATE, and every frame under REPLACE. */
  lemma KindsReached(s: Settings, f: Frame, cs: seq<Change>, p: Path)
    requires AllReached(s, f, cs) && s.depth.Any? && Valid(f, p)
    ensures var g := FrameAt(f, p);
      s.replace || IsValue(g) || (s.mode.Mutate? && (g.Boolean? || g.Inline?)) ==> LoggedAbove(cs, p)
  {
    hide Valid, FrameAt, Below;
    assert MayChange(s, FrameAt(f, p)) ==> !Untouched(cs, p);
  }

  /** Without REPLACE nothing else is ever logged. */
  lemma NothingElseLogged(s: Settings, cs: seq<Change>, k: nat)
    requires Outcomes(s, cs) && k < |cs| && !s.replace
    ensures var g := cs[k].before; IsValue(g) || (s.mode.Mutate? && (g.Boolean? || g.Inline?))
  {
    assert Outcome(s, cs[k].before, cs[k].after);
    hide Varied, Generator.Generated, CanOverflow;
  }

  /** Where ONE finds nothing to change, there is none of these. */
  lemma NoKindLeft(s: Settings, f: Frame, p: Path)
    requires NothingEligible(s, f) && Valid(f, p)
    ensures var g := FrameAt(f, p); !s.replace && !IsValue(g) && !(s.mode.Mutate? && (g.Boolean? || g.Inline?))
  {
    hide Valid, FrameAt;
    assert !MayChange(s, FrameAt(f, p));
  }

  // ----------------------------------------------------------------- the reply

  datatype Reply = Reply(bytes: bytes, mutations: seq<Change>, fault: Option<Framing.Fault>)

  /** The framing settings for a tree of that depth, its root being one level. */
  function LengthMode(s: Settings, depth: nat): (r: Framing.Mode)
    requires depth > 0
  {
    match s.framing
    case Auto => Framing.Auto(Scaled(s.chance, s.depth, 0, depth - 1), s.many, s.mode.Overflow?)
    case Silent => Framing.Off
    case Length(chance, target, kind) => Framing.Length(chance, target, kind)
  }

  lemma LengthsFit(f: Frame)
    requires Every(f, ParsedNode)
    ensures Every(f, Framing.LengthFits)
  {
    EveryWeaken(f, ParsedNode, Framing.LengthFits);
  }

  /** The draws for a length fault: those of the reservoir, and the one over the total
      weight of the headers. */
  datatype LengthDraws = LengthDraws(rolls: nat -> nat, header: nat -> nat)

  ghost predicate AreLengthDraws(d: LengthDraws) { Reservoir.AreRolls(d.rolls) && Draws.IsDraw(d.header) }

  /** A configured fault hits the header that the draws select in the tree, with the kind
      asked for; an automatic one hits the root, with the length plus one, or with the
      64-bit maximum under OVERFLOW. */
  ghost predicate HitsSelected(s: Settings, f: Frame, d: LengthDraws, fault: Framing.Fault) {
    match s.framing
    case Silent => false
    case Auto =>
      && fault.header.path == [] && DeclaredLength(f) == Some(fault.header.original)
      && fault.replacement == Decimal(if s.mode == Overflow then 9223372036854775807 else fault.header.original + 1)
    case Length(_, target, kind) =>
      && (kind.Some? ==> fault.kind == kind.value) && Framing.Corrupts(fault.header.original, fault.kind, fault.replacement)
      && Framing.IsSelection(f, target, s.depth, Reservoir.Taken(d.rolls, |Preorder(f, [])|), d.header, Some(fault.header))
  }

  /** At full probability a length fault fails only if the tree admits none; at zero
      probability it never happens. */
  ghost predicate FaultAsSure(s: Settings, f: Frame, fault: Option<Framing.Fault>) {
    match s.framing
    case Silent => fault.None?
    case Auto =>
      && (s.chance.Never? || !s.many ==> fault.None?)
      && (s.many && s.chance.Always? && (s.depth.Any? || Depth(f) == 1) && fault.None? ==> DeclaredLength(f).None?)
    case Length(chance, target, kind) =>
      && (chance.Never? ==> fault.None?)
      && (chance.Always? && fault.None? ==> Framing.NoCandidate(f, target))
  }

  method LengthFault(s: Settings, f: Frame, depth: nat, d: LengthDraws) returns (fault: Option<Framing.Fault>)
    requires Every(f, Framing.LengthFits) && depth == Depth(f) && AreLengthDraws(d)
    ensures fault.Some? ==> Framing.IsFault(f, LengthMode(s, depth), fault.value) && HitsSelected(s, f, d, fault.value)
    ensures FaultAsSure(s, f, fault)
  {
    hide Preorder, Every, Depth, Framing.IsFault, Framing.IsSelection, Framing.NoCandidate, Reservoir.InRange;
    hide Framing.Corrupts, Decimal;
    var script := Reservoir.Taken(d.rolls, |Preorder(f, [])|);
    fault := Framing.MutateLength(f, LengthMode(s, depth), s.depth, script, d.header);
    if fault.Some? { FaultInWords(f, LengthMode(s, depth), fault.value); }
  }

  lemma FaultInWords(f: Frame, mode: Framing.Mode, fault: Framing.Fault)
    requires Framing.IsFault(f, mode, fault)
    ensures match mode
      case Off => false
      case Auto(_, _, overflow) =>
        && fault.header.path == [] && DeclaredLength(f) == Some(fault.header.original)
        && fault.replacement == Decimal(if overflow then I64_MAX else fault.header.original + 1)
      case Length(_, _, kind) =>
        (kind.Some? ==> fault.kind == kind.value) && Framing.Corrupts(fault.header.original, fault.kind, fault.replacement)
  {
    Framing.VisitRoot(f);
    hide Preorder, Nodes, Decimal, Encode, Framing.Corrupts, Framing.Candidate, DeclaredLength;
  }

  lemma SilentIsNoFault(s: Settings)
    ensures s.framing.Silent? ==> forall f, fault :: FaultAsSure(s, f, fault) ==> fault.None?
  {}

  ghost predicate NothingEligible(s: Settings, f: Frame) { forall p :: Valid(f, p) ==> !MayChange(s, FrameAt(f, p)) }

  /** A total weight of zero means that nothing is eligible. */
  lemma NoWeight(s: Settings, f: Frame)
    requires Sum(EligibleWeights(s, Preorder(f, []))) == 0
    ensures NothingEligible(s, f)
  {
    var vs := Preorder(f, []);
    var ws := EligibleWeights(s, vs);
    hide Preorder, Sum, Eligible, MayChange, Weight, FrameAt, Valid;
    forall p | Valid(f, p) ensures !MayChange(s, FrameAt(f, p)) {
      var k := PreorderIsComplete(f, [], p);
      assert vs[k].frame == FrameAt(f, p);
      Framing.ZeroSum(ws, k);
    }
  }

  /** The path leads to the frame whose interval holds the draw. */
  ghost predicate Drawn(s: Settings, f: Frame, draw: nat -> nat, path: Path) {
    var vs := Preorder(f, []);
    var ws := EligibleWeights(s, vs);
    exists k: nat :: k < |vs| && Selected(ws, draw(Sum(ws)), k) && vs[k].path == path
  }

  /** The frame that the draw selects, replaced; the log has that one entry. */
  method MutateSelection(s: Settings, f: Frame, draw: nat -> nat)
      returns (g: Frame, mutations: seq<Change>, ghost e: Edit)
    requires Active(s) && Every(f, ParsedNode) && Draws.IsDraw(draw)
    ensures Fits(f, e) && g == Apply(f, e) && mutations == Log(f, e) && Outcomes(s, mutations)
    ensures |mutations| <= 1 && (s.chance.Never? ==> mutations == [])
    ensures s.chance.Always? && mutations == [] ==> NothingEligible(s, f)
    ensures mutations != [] ==> Drawn(s, f, draw, mutations[0].path)
  {
    hide Preorder, Sum, Outcome, Fits, Apply, Log, NoEdit, Valid, Put, Selected, EligibleWeights;
    g, mutations, e := f, [], NoEdit(f);
    NoEditIsIdentity(f);
    var apply := Draws.Toss(s.chance);
    if !apply { return; }
    var offset := SelectWeight(s, f, draw);
    if offset.None? {
      NoWeight(s, f);
      return;
    }
    var editor := new Editor(s, offset.value);
    var done;
    ghost var k, c;
    g, done, k, c := editor.MutateSelected(f, []);
    mutations := editor.mutations;
    assert mutations == [c];
    assert c.path[0..] == c.path;
    HitIsReported(s, f, offset.value, k, c, g);
    PutIsAnEdit(f, c.path, c.after);
    e := PutEdit(f, c.path, c.after);
  }

  lemma HitIsReported(s: Settings, f: Frame, r: nat, k: nat, c: Change, g: Frame)
    requires Hit(s, f, [], r, k, c, g)
    ensures Valid(f, c.path) && FrameAt(f, c.path) == c.before && g == Put(f, c.path, c.after)
  {
    assert c.path[0..] == c.path;
    hide Preorder, Outcome, EligibleWeights, Selected, Put;
  }

  /** At full probability, and only there, the frames that must be reached. */
  ghost predicate AllReached(s: Settings, f: Frame, cs: seq<Change>) {
    forall p :: Valid(f, p) && MayChange(s, FrameAt(f, p)) && (s.depth.Any? || IsDeepestPath(s, f, p)) ==> !Untouched(cs, p)
  }

  /** No eligible frame is deeper than the one at `p`. */
  ghost predicate IsDeepestPath(s: Settings, f: Frame, p: Path) {
    forall q :: Valid(f, q) && MayChange(s, FrameAt(f, q)) ==> |q| <= |p|
  }

  lemma SureAreReached(s: Settings, f: Frame, cs: seq<Change>, deepest: Option<nat>)
    requires s.chance.Always? && IsDeepestEligible(s, Preorder(f, []), deepest)
    requires Reaches(s, f, cs, 0, if deepest.Some? then deepest.value else 0)
    ensures AllReached(s, f, cs)
  {
    hide Preorder, Eligible, MayChange, Untouched, Valid, FrameAt, IsDeepestEligible, IsDeepestPath;
    forall p | Valid(f, p) && MayChange(s, FrameAt(f, p)) && (s.depth.Any? || IsDeepestPath(s, f, p))
      ensures !Untouched(cs, p)
    {
      if s.depth.Inner? { DeepestPathLevel(s, f, deepest, p); }
      assert Sure(s, f, p, 0, if deepest.Some? then deepest.value else 0);
    }
  }

  lemma DeepestPathLevel(s: Settings, f: Frame, deepest: Option<nat>, p: Path)
    requires IsDeepestEligible(s, Preorder(f, []), deepest)
    requires Valid(f, p) && MayChange(s, FrameAt(f, p)) && IsDeepestPath(s, f, p)
    ensures deepest.Some? ==> |p| >= deepest.value
  {
    hide Preorder, Eligible, MayChange, Valid, FrameAt;
    if deepest.Some? {
      var vs := Preorder(f, []);
      var k :| 0 <= k < |vs| && MayChange(s, vs[k].frame) && |vs[k].path| == deepest.value;
      VisitsAreAddresses(f);
      assert Valid(f, vs[k].path) && FrameAt(f, vs[k].path) == vs[k].frame;
    }
  }

  /** The reply for every setting: the encoding of an edited tree, and possibly a
      length fault in it. ONE makes at most one mutation of either sort, a configured
      length fault first; MANY applies its length fault to the edited tree. At full
      probability what can be mutated is. */
  method MutateReply(s: Settings, f: Frame, draw: nat -> nat, d: LengthDraws) returns (r: Reply, ghost e: Edit)
    requires Every(f, ParsedNode) && Draws.IsDraw(draw) && AreLengthDraws(d)
    ensures Fits(f, e) && Outcomes(s, Log(f, e)) && r.mutations == Log(f, e)
    ensures r.fault.None? ==> r.bytes == Encode(Apply(f, e))
    ensures r.fault.Some? ==>
      Framing.IsFault(Apply(f, e), LengthMode(s, Depth(Apply(f, e))), r.fault.value) && r.bytes == r.fault.value.bytes
    ensures !s.many ==> |r.mutations| + (if r.fault.Some? then 1 else 0) <= 1
    ensures !s.many && r.fault.Some? ==> s.framing.Length?
    ensures r.fault.Some? ==> HitsSelected(s, Apply(f, e), d, r.fault.value)
    ensures Active(s) && (s.many || s.framing.Length?) ==> FaultAsSure(s, if s.many then Apply(f, e) else f, r.fault)
    ensures !s.many && r.mutations != [] ==> Drawn(s, f, draw, r.mutations[0].path)
    ensures !Active(s) || s.chance.Never? ==> r.mutations == []
    ensures !Active(s) || s.framing.Silent? ==> r.fault.None?
    ensures Active(s) && s.many && s.chance.Always? ==> AllReached(s, f, r.mutations)
    ensures Active(s) && !s.many && s.chance.Always? && r.fault.None? && r.mutations == [] ==> NothingEligible(s, f)
  {
    hide Encode, Fits, Apply, Log, NoEdit, Outcome, Framing.IsFault, Preorder, Every, Depth, Reaches, AllReached, NothingEligible;
    hide IsDeepestEligible, Drawn, Draws.IsDraw, HitsSelected, FaultAsSure, AreLengthDraws;
    SilentIsNoFault(s);
    e := NoEdit(f);
    NoEditIsIdentity(f);
    if !Active(s) {
      return Reply(Encode(f), [], None), e;
    }
    LengthsFit(f);
    if !s.many && s.framing.Length? {
      var early := LengthFault(s, f, Depth(f), d);
      if early.Some? {
        return Reply(early.value.bytes, [], early), e;
      }
    }
    var g, mutations;
    if !s.many {
      g, mutations, e := MutateSelection(s, f, draw);
    } else {
      var deepest := EligibleMaxDepth(s, f, 0, []);
      var editor := new Editor(s, 0);
      g, e := editor.MutateFrame(f, [], if deepest.Some? then deepest.value else 0);
      mutations := editor.mutations;
      RebasedAtRoot(Log(f, e));
      if s.chance.Always? { SureAreReached(s, f, Log(f, e), deepest); }
    }
    if s.many {
      EditIsWellFormed(s, f, e);
      LengthsFit(g);
      var depth := Framing.TreeDepth(g);
      var fault := LengthFault(s, g, depth + 1, d);
      if fault.Some? {
        return Reply(fault.value.bytes, mutations, fault), e;
      }
    }
    r := Reply(Encode(g), mutations, None);
  }

  lemma RebasedAtRoot(cs: seq<Change>)
    ensures Rebased([], cs) == cs
  {
    forall k | 0 <= k < |cs| ensures [] + cs[k].path == cs[k].path {}
  }
}
