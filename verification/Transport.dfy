/** Delivery settings and the plans drawn from them: extra replies, a cut, a
    connection fault and chunk boundaries, by arithmetic on lengths. */
module Transport {
  import opened Bytes
  import Draws

  /** `+EVILRESP` and CRLF. */
  const EXTRA_REPLY: bytes := [43, 69, 86, 73, 76, 82, 69, 83, 80, 13, 10]
  const MAX_BOUNDARIES: nat := 64

  datatype Cut = CutOff | CutRandom | CutAt(at: nat)

  datatype Chunks = ChunksOff | ChunksRandom | ChunksAt(offsets: seq<nat>)

  datatype Action = NoFault | Close | Reset | Stall

  datatype Point = Before | After | WholeReply | AnyOffset | Offset(at: nat)

  datatype Config = Config(
    truncate: Cut, extra: nat, chunks: Chunks, chance: Draws.Chance, action: Action, point: Point, duration: nat)

  const DEFAULT: Config := Config(CutOff, 0, ChunksOff, Draws.Always, NoFault, After, 10_000)

  predicate Enabled(c: Config) { !c.action.NoFault? || !c.truncate.CutOff? || c.extra != 0 || !c.chunks.ChunksOff? }

  // -------------------------------------------------------------- the settings

  /** Positive and strictly increasing. */
  predicate Ascending(s: seq<nat>) {
    (forall i :: 0 <= i < |s| ==> s[i] > 0) && forall i, j :: 0 <= i < j < |s| ==> s[i] < s[j]
  }

  /** An option with its value; `None` is a value that does not parse. */
  datatype Setting =
    | Truncate(cut: Option<Cut>)
    | Extra(count: Option<nat>)
    | ChunkWord(chunks: Chunks)
    | ChunkList(parts: seq<Option<nat>>)
    | Probability(chance: Option<Draws.Chance>)
    | Fault(action: Option<Action>)
    | At(point: Option<Point>)
    | Duration(milliseconds: Option<nat>)
    | Unknown

  function Slot(s: Setting): (n: nat) {
    match s
    case Truncate(_) => 0
    case Extra(_) => 1
    case ChunkWord(_) => 2
    case ChunkList(_) => 2
    case Probability(_) => 3
    case Fault(_) => 4
    case At(_) => 5
    case Duration(_) => 6
    case Unknown => 7
  }

  function Values(parts: seq<Option<nat>>): (r: seq<nat>)
    requires forall i :: 0 <= i < |parts| ==> parts[i].Some?
    ensures |r| == |parts| && forall i :: 0 <= i < |r| ==> r[i] == parts[i].value
  {
    seq(|parts|, i requires 0 <= i < |parts| => parts[i].value)
  }

  predicate IsChunkList(parts: seq<Option<nat>>) {
    |parts| <= MAX_BOUNDARIES && (forall i :: 0 <= i < |parts| ==> parts[i].Some?) && Ascending(Values(parts))
  }

  /** The value is one that the option accepts. */
  predicate Acceptable(s: Setting) {
    match s
    case Truncate(cut) => cut.Some?
    case Extra(count) => count.Some? && count.value <= 16
    case ChunkWord(chunks) => !chunks.ChunksAt?
    case ChunkList(parts) => IsChunkList(parts)
    case Probability(chance) => chance.Some?
    case Fault(action) => action.Some?
    case At(point) => point.Some?
    case Duration(ms) => ms.Some? && 1 <= ms.value <= 3_600_000
    case Unknown => false
  }

  function Set(c: Config, s: Setting): (r: Config)
    requires Acceptable(s)
  {
    match s
    case Truncate(cut) => c.(truncate := cut.value)
    case Extra(count) => c.(extra := count.value)
    case ChunkWord(chunks) => c.(chunks := chunks)
    case ChunkList(parts) => c.(chunks := ChunksAt(Values(parts)))
    case Probability(chance) => c.(chance := chance.value)
    case Fault(action) => c.(action := action.value)
    case At(point) => c.(point := point.value)
    case Duration(ms) => c.(duration := ms.value)
  }

  predicate AllAcceptable(ss: seq<Setting>) { forall i :: 0 <= i < |ss| ==> Acceptable(ss[i]) }

  function SetAll(c: Config, ss: seq<Setting>): (r: Config)
    requires AllAcceptable(ss)
  {
    if ss == [] then c else Set(SetAll(c, ss[..|ss| - 1]), ss[|ss| - 1])
  }

  predicate Conflict(c: Config) { !c.action.NoFault? && !c.truncate.CutOff? }

  predicate NoDuplicates(ss: seq<Setting>) { forall i, j :: 0 <= i < j < |ss| ==> Slot(ss[i]) != Slot(ss[j]) }

  /** What every reachable configuration satisfies. */
  predicate Reachable(c: Config) {
    && c.extra <= 16
    && (c.chunks.ChunksAt? ==> |c.chunks.offsets| <= MAX_BOUNDARIES && Ascending(c.chunks.offsets))
    && !Conflict(c)
    && 1 <= c.duration <= 3_600_000
  }

  method ParseChunkList(parts: seq<Option<nat>>) returns (r: Option<Chunks>)
    ensures r.Some? <==> IsChunkList(parts)
    ensures r.Some? ==> r.value == ChunksAt(Values(parts))
  {
    var offsets: seq<nat> := [];
    for i := 0 to |parts|
      invariant |offsets| == i <= MAX_BOUNDARIES && forall j :: 0 <= j < i ==> parts[j] == Some(offsets[j])
      invariant Ascending(offsets)
    {
      if parts[i].None? { return None; }
      var next := parts[i].value;
      if |offsets| == MAX_BOUNDARIES || next == 0 || (offsets != [] && offsets[|offsets| - 1] >= next) {
        if next != 0 && |offsets| < MAX_BOUNDARIES { NotAscending(parts, i); }
        return None;
      }
      offsets := offsets + [next];
    }
    assert Values(parts) == offsets;
    r := Some(ChunksAt(offsets));
  }

  lemma NotAscending(parts: seq<Option<nat>>, i: nat)
    requires 0 < i < |parts| && parts[i - 1].Some? && parts[i].Some? && parts[i - 1].value >= parts[i].value
    ensures !IsChunkList(parts)
  {
    if forall j :: 0 <= j < |parts| ==> parts[j].Some? { assert !(Values(parts)[i - 1] < Values(parts)[i]); }
  }

  /** `TRANSPORT OFF` is the empty list with `off`. A rejected update leaves no
      trace; an accepted one applies every setting, each at most once. */
  method Updated(c: Config, off: bool, ss: seq<Setting>) returns (r: Option<Config>)
    ensures off ==> r == Some(Config(CutOff, 0, ChunksOff, Draws.Always, NoFault, After, 10_000))
    ensures !off ==>
      (r.Some? <==> ss != [] && AllAcceptable(ss) && NoDuplicates(ss)
                    && (SetAll(c, ss).action.NoFault? || SetAll(c, ss).truncate.CutOff?))
    ensures !off && r.Some? ==> r.value == SetAll(c, ss) && AllShown(ss, r.value) && RestKept(c, ss, r.value)
    ensures Reachable(c) && r.Some? ==> Reachable(r.value)
  {
    if off { return Some(DEFAULT); }
    if ss == [] { return None; }
    var config := c;
    var seen: set<nat> := {};
    for i := 0 to |ss|
      invariant AllAcceptable(ss[..i]) && NoDuplicates(ss[..i]) && config == SetAll(c, ss[..i])
      invariant forall n :: n in seen <==> exists j :: 0 <= j < i && Slot(ss[j]) == n
    {
      var s := ss[i];
      if s.ChunkList? {
        var chunks := ParseChunkList(s.parts);
        if chunks.None? { return None; }
        config := config.(chunks := chunks.value);
      } else {
        if !Acceptable(s) { return None; }
        config := Set(config, s);
      }
      if Slot(s) in seen { return None; }
      seen := seen + {Slot(s)};
      assert ss[..i + 1][..i] == ss[..i];
    }
    assert ss[..|ss|] == ss;
    if Conflict(config) { return None; }
    if Reachable(c) { SetAllReachable(c, ss); }
    SetAllShows(c, ss);
    r := Some(config);
  }

  lemma {:induction false} SetAllReachable(c: Config, ss: seq<Setting>)
    requires Reachable(c) && AllAcceptable(ss)
    ensures var d := SetAll(c, ss); !Conflict(d) ==> Reachable(d)
    ensures var d := SetAll(c, ss); Reachable(d.(action := NoFault))
  {
    if ss != [] { SetAllReachable(c, ss[..|ss| - 1]); }
  }

  // -------------------------------------------------- what an update comes to

  /** The configuration says what the setting asks for. */
  predicate Shows(s: Setting, d: Config) {
    match s
    case Truncate(cut) => cut == Some(d.truncate)
    case Extra(count) => count == Some(d.extra)
    case ChunkWord(chunks) => d.chunks == chunks
    case ChunkList(parts) =>
      && d.chunks.ChunksAt? && |d.chunks.offsets| == |parts|
      && forall i :: 0 <= i < |parts| ==> parts[i] == Some(d.chunks.offsets[i])
    case Probability(chance) => chance == Some(d.chance)
    case Fault(action) => action == Some(d.action)
    case At(point) => point == Some(d.point)
    case Duration(ms) => ms == Some(d.duration)
    case Unknown => false
  }

  predicate AllShown(ss: seq<Setting>, d: Config) { forall i :: 0 <= i < |ss| ==> Shows(ss[i], d) }

  /** What no setting names is as before. */
  predicate RestKept(c: Config, ss: seq<Setting>, d: Config) {
    && ((forall i :: 0 <= i < |ss| ==> !ss[i].Truncate?) ==> d.truncate == c.truncate)
    && ((forall i :: 0 <= i < |ss| ==> !ss[i].Extra?) ==> d.extra == c.extra)
    && ((forall i :: 0 <= i < |ss| ==> !ss[i].ChunkWord? && !ss[i].ChunkList?) ==> d.chunks == c.chunks)
    && ((forall i :: 0 <= i < |ss| ==> !ss[i].Probability?) ==> d.chance == c.chance)
    && ((forall i :: 0 <= i < |ss| ==> !ss[i].Fault?) ==> d.action == c.action)
    && ((forall i :: 0 <= i < |ss| ==> !ss[i].At?) ==> d.point == c.point)
    && ((forall i :: 0 <= i < |ss| ==> !ss[i].Duration?) ==> d.duration == c.duration)
  }

  lemma ShowsItself(c: Config, s: Setting)
    requires Acceptable(s)
    ensures Shows(s, Set(c, s))
  {}

  lemma ShowsStill(c: Config, s: Setting, t: Setting)
    requires Acceptable(t) && Shows(s, c) && Slot(s) != Slot(t)
    ensures Shows(s, Set(c, t))
  {}

  lemma {:induction false} SetAllShows(c: Config, ss: seq<Setting>)
    requires AllAcceptable(ss) && NoDuplicates(ss)
    ensures AllShown(ss, SetAll(c, ss)) && RestKept(c, ss, SetAll(c, ss))
  {
    hide RestKept, Set, Shows, Slot, Acceptable;
    if ss == [] {
      RestKeptNone(c);
    } else {
      var front, last := ss[..|ss| - 1], ss[|ss| - 1];
      SetAllShows(c, front);
      RestKeptStep(c, front, last, SetAll(c, front));
      assert front + [last] == ss;
      ShowsItself(SetAll(c, front), last);
      forall i | 0 <= i < |ss| ensures Shows(ss[i], SetAll(c, ss)) {
        if i < |front| {
          assert front[i] == ss[i];
          ShowsStill(SetAll(c, front), ss[i], last);
        }
      }
    }
  }

  lemma RestKeptNone(c: Config)
    ensures RestKept(c, [], c)
  {}

  lemma RestKeptStep(c: Config, front: seq<Setting>, last: Setting, d: Config)
    requires Acceptable(last) && RestKept(c, front, d)
    ensures RestKept(c, front + [last], Set(d, last))
  {
    var ss := front + [last];
    assert ss[|front|] == last;
    assert forall i :: 0 <= i < |front| ==> ss[i] == front[i];
    hide Acceptable, Slot;
  }

  /** The values that the options accept, and which options are one and the same. */
  lemma AcceptedValues(n: nat, parts: seq<Option<nat>>, s: Setting, t: Setting)
    ensures Acceptable(Extra(Some(n))) <==> n <= 16
    ensures Acceptable(Duration(Some(n))) <==> 1 <= n <= 3_600_000
    ensures Acceptable(ChunkList(parts)) <==>
      && |parts| <= 64 && (forall i :: 0 <= i < |parts| ==> parts[i].Some? && parts[i].value > 0)
      && forall i, j :: 0 <= i < j < |parts| ==> parts[i].value < parts[j].value
    ensures s in {Truncate(None), Extra(None), Probability(None), Fault(None), At(None), Duration(None), Unknown} ==>
      !Acceptable(s)
    ensures (s.Truncate? ==> (Acceptable(s) <==> s.cut.Some?)) && (s.Fault? ==> (Acceptable(s) <==> s.action.Some?))
    ensures (s.Probability? ==> (Acceptable(s) <==> s.chance.Some?)) && (s.At? ==> (Acceptable(s) <==> s.point.Some?))
    ensures Acceptable(ChunkWord(ChunksOff)) && Acceptable(ChunkWord(ChunksRandom))
    ensures Slot(s) == Slot(t) <==>
      || (s.Truncate? && t.Truncate?) || (s.Extra? && t.Extra?) || (s.Probability? && t.Probability?)
      || (s.Fault? && t.Fault?) || (s.At? && t.At?) || (s.Duration? && t.Duration?) || (s.Unknown? && t.Unknown?)
      || ((s.ChunkWord? || s.ChunkList?) && (t.ChunkWord? || t.ChunkList?))
  {
    ChunkListValues(parts);
    hide IsChunkList;
  }

  lemma ChunkListValues(parts: seq<Option<nat>>)
    ensures IsChunkList(parts) <==>
      && |parts| <= 64 && (forall i :: 0 <= i < |parts| ==> parts[i].Some? && parts[i].value > 0)
      && forall i, j :: 0 <= i < j < |parts| ==> parts[i].value < parts[j].value
  {
    if forall i :: 0 <= i < |parts| ==> parts[i].Some? {
      var values := Values(parts);
      assert forall i :: 0 <= i < |parts| ==> values[i] == parts[i].value;
      assert Ascending(values) <==>
        (forall i :: 0 <= i < |values| ==> values[i] > 0) && forall i, j :: 0 <= i < j < |values| ==> values[i] < values[j];
      hide Ascending, Values;
    }
  }

  // -------------------------------------------------------------------- plans

  datatype FaultPlan = FaultPlan(action: Action, point: Point, afterBytes: nat, duration: Option<nat>)

  datatype Plan = Plan(version: nat, extra: nat, truncateAt: Option<nat>, chunkEnds: seq<nat>, fault: Option<FaultPlan>)

  function Min(m: nat, n: nat): (r: nat) { if m < n then m else n }

  /** Length of the response with its extra replies. */
  function Extended(response: nat, extra: nat): (n: nat) { response + extra * |EXTRA_REPLY| }

  function Total(plan: Plan, response: nat): (n: nat) { Extended(response, plan.extra) }

  function CutLength(plan: Plan, response: nat): (n: nat)
    ensures n <= Total(plan, response)
  {
    if plan.truncateAt.Some? then Min(plan.truncateAt.value, Total(plan, response)) else Total(plan, response)
  }

  /** Length of what goes on the wire for a response of the given length. */
  function WireLength(plan: Plan, response: nat): (n: nat) {
    var cut := CutLength(plan, response);
    if plan.fault.Some? then Min(plan.fault.value.afterBytes, cut) else cut
  }

  /** Chunk ends are positive, strictly increasing, few, and end where the wire
      bytes end; a cut and a connection fault never coexist. */
  predicate WellFormed(plan: Plan, response: nat) {
    && Ascending(plan.chunkEnds)
    && |plan.chunkEnds| <= MAX_BOUNDARIES + 1
    && (plan.chunkEnds == [] <==> WireLength(plan, response) == 0)
    && (plan.chunkEnds != [] ==> plan.chunkEnds[|plan.chunkEnds| - 1] == WireLength(plan, response))
    && !(plan.truncateAt.Some? && plan.fault.Some?)
    && (plan.truncateAt.Some? ==> plan.truncateAt.value < Total(plan, response))
    && (plan.fault.Some? ==> plan.fault.value.afterBytes <= Total(plan, response))
    && plan.version == (if plan.fault.Some? then 2 else 1)
    && plan.extra <= 16
  }

  /** The elements below `n`. */
  function Under(s: seq<nat>, n: nat): (r: seq<nat>)
    ensures |r| <= |s| && (n == 0 ==> r == [])
    ensures forall i :: 0 <= i < |r| ==> r[i] < n
    ensures forall i :: 0 <= i < |r| ==> exists j :: 0 <= j < |s| && s[j] == r[i]
  {
    if s == [] then []
    else
      var r := Under(s[..|s| - 1], n);
      if s[|s| - 1] < n then r + [s[|s| - 1]] else r
  }

  lemma AscendingAppend(s: seq<nat>, n: nat)
    requires Ascending(s) && n > 0 && forall i :: 0 <= i < |s| ==> s[i] < n
    ensures Ascending(s + [n])
  {}

  lemma {:induction false} UnderIsAscending(s: seq<nat>, n: nat)
    requires Ascending(s)
    ensures Ascending(Under(s, n))
  {
    if s != [] {
      var front, last := s[..|s| - 1], s[|s| - 1];
      UnderIsAscending(front, n);
      var r := Under(front, n);
      if last < n {
        forall i | 0 <= i < |r| ensures r[i] < last {
          var j :| 0 <= j < |front| && front[j] == r[i];
        }
        AscendingAppend(r, last);
      }
    }
  }

  function Ends(offsets: seq<nat>, length: nat): (r: seq<nat>) {
    Under(offsets, length) + (if length > 0 then [length] else [])
  }

  function Plain(length: nat): (r: Plan) { Plan(1, 0, None, Ends([], length), None) }

  lemma {:induction false} UnderUnder(s: seq<nat>, m: nat, n: nat)
    requires m <= n
    ensures Under(Under(s, n), m) == Under(s, m)
  {
    if s != [] {
      UnderUnder(s[..|s| - 1], m, n);
      var r := Under(s[..|s| - 1], n);
      if s[|s| - 1] < n { assert (r + [s[|s| - 1]])[..|r|] == r; }
    }
  }

  lemma {:induction false} UnderAll(s: seq<nat>, n: nat)
    requires forall i :: 0 <= i < |s| ==> s[i] < n
    ensures Under(s, n) == s
  {
    if s != [] { UnderAll(s[..|s| - 1], n); }
  }

  lemma UnderEnds(offsets: seq<nat>, m: nat, n: nat)
    requires m <= n
    ensures Under(Ends(offsets, n), m) == Under(offsets, m)
  {
    UnderUnder(offsets, m, n);
    if n > 0 { assert Ends(offsets, n)[..|Under(offsets, n)|] == Under(offsets, n); }
  }

  predicate IsBoundaryList(offsets: seq<nat>) { Ascending(offsets) && |offsets| <= MAX_BOUNDARIES }

  lemma NoBoundaries()
    ensures IsBoundaryList([])
  {}

  lemma EndsAreWellFormed(offsets: seq<nat>, length: nat)
    requires IsBoundaryList(offsets)
    ensures var ends := Ends(offsets, length);
      Ascending(ends) && |ends| <= MAX_BOUNDARIES + 1 && (ends == [] <==> length == 0)
      && (ends != [] ==> ends[|ends| - 1] == length)
  {
    UnderIsAscending(offsets, length);
    if length > 0 { AscendingAppend(Under(offsets, length), length); }
  }

  /** Stops the plan after the fault's offset. */
  method SetFault(plan: Plan, fault: FaultPlan, ghost offsets: seq<nat>, ghost length: nat) returns (r: Plan)
    requires plan.chunkEnds == Ends(offsets, length) && fault.afterBytes <= length
    ensures r == plan.(version := 2, fault := Some(fault), chunkEnds := Ends(offsets, fault.afterBytes))
  {
    hide Under;
    UnderEnds(offsets, fault.afterBytes, length);
    var kept := Under(plan.chunkEnds, fault.afterBytes);
    if fault.afterBytes > 0 { kept := kept + [fault.afterBytes]; }
    r := plan.(version := 2, chunkEnds := kept, fault := Some(fault));
  }

  /** The fault is the configured one, at its point of a reply of that length. */
  predicate IsFaultOf(c: Config, length: nat, fault: FaultPlan) {
    && !c.chance.Never? && !c.action.NoFault? && fault.afterBytes <= length
    && fault.action == c.action && fault.point == c.point
    && (c.point.Before? || c.point.After? ==> fault.afterBytes == 0)
    && (c.point.WholeReply? ==> fault.afterBytes == length)
    && (c.point.Offset? ==> fault.afterBytes == c.point.at)
    && (c.point.AnyOffset? && length > 0 ==> fault.afterBytes < length)
    && fault.duration == if c.action.Stall? then Some(c.duration) else None
  }

  /** At full probability only an offset beyond the reply stops a fault. */
  predicate MustFault(c: Config, length: nat) {
    c.chance.Always? && !c.action.NoFault? && (c.point.Offset? ==> c.point.at <= length)
  }

  method PlanFault(c: Config, length: nat) returns (fault: Option<FaultPlan>)
    ensures fault.Some? ==> IsFaultOf(c, length, fault.value)
    ensures MustFault(c, length) ==> fault.Some?
  {
    if c.action.NoFault? || c.chance.Never? { return None; }
    var apply := Draws.Toss(c.chance);
    if !apply { return None; }
    var after := 0;
    match c.point {
      case WholeReply => after := length;
      case AnyOffset => if length > 0 { after := Draws.Below(length); }
      case Offset(n) =>
        if n > length { return None; }
        after := n;
      case _ =>
    }
    fault := Some(FaultPlan(c.action, c.point, after, if c.action.Stall? then Some(c.duration) else None));
  }

  /** `s` with `n` in its place, once. */
  function Insert(s: seq<nat>, n: nat): (r: seq<nat>)
    ensures r != [] && |r| <= |s| + 1
    ensures forall i :: 0 <= i < |r| ==> r[i] == n || exists j :: 0 <= j < |s| && s[j] == r[i]
    ensures n in r && forall x :: x in s ==> x in r
  {
    if s == [] then [n]
    else
      var last := s[|s| - 1];
      if last < n then s + [n]
      else if last == n then s
      else Insert(s[..|s| - 1], n) + [last]
  }

  lemma {:induction false} InsertIsAscending(s: seq<nat>, n: nat)
    requires Ascending(s) && n > 0
    ensures Ascending(Insert(s, n))
  {
    if s != [] {
      var front, last := s[..|s| - 1], s[|s| - 1];
      if last < n {
        AscendingAppend(s, n);
      } else if n < last {
        InsertIsAscending(front, n);
        var r := Insert(front, n);
        forall i | 0 <= i < |r| ensures r[i] < last {
          if r[i] != n { var j :| 0 <= j < |front| && front[j] == r[i]; }
        }
        AscendingAppend(r, last);
      }
    }
  }

  lemma AscendingNone()
    ensures Ascending([])
  {}

  lemma ReachableExtra(c: Config)
    requires Reachable(c)
    ensures c.extra <= 16
  {}

  lemma EndsOf(offsets: seq<nat>, length: nat, ends: seq<nat>)
    requires ends == if length > 0 then Under(offsets, length) + [length] else Under(offsets, length)
    ensures ends == Ends(offsets, length)
  {
    hide Under;
  }

  /** Boundaries inside so many bytes, at least one if there is room for it. */
  predicate AreRandom(offsets: seq<nat>, length: nat) {
    (length > 1 <==> offsets != []) && forall i :: 0 <= i < |offsets| ==> offsets[i] < length
  }

  /** Random boundaries: the distinct draws in increasing order. */
  method RandomOffsets(length: nat) returns (offsets: seq<nat>)
    requires length > 1
    ensures Ascending(offsets) && |offsets| <= MAX_BOUNDARIES && AreRandom(offsets, length)
  {
    hide Ascending;
    var most := Min(MAX_BOUNDARIES, length - 1);
    var count := Draws.Below(most);
    offsets := [];
    AscendingNone();
    for i := 0 to count + 1
      invariant Ascending(offsets) && |offsets| <= i && (i > 0 ==> offsets != [])
      invariant forall i :: 0 <= i < |offsets| ==> offsets[i] < length
    {
      var n := Draws.Below(length - 1);
      InsertIsAscending(offsets, n + 1);
      offsets := Insert(offsets, n + 1);
    }
  }

  /** The cut that the settings make of that many bytes. */
  predicate IsCutOf(c: Config, total: nat, truncateAt: Option<nat>) {
    match c.truncate
    case CutOff => truncateAt == None
    case CutAt(at) => truncateAt == if at < total then Some(at) else None
    case CutRandom => if total == 0 then truncateAt == None else truncateAt.Some? && truncateAt.value < total
  }

  method DrawCut(c: Config, total: nat) returns (truncateAt: Option<nat>)
    ensures IsCutOf(c, total, truncateAt)
    ensures truncateAt.Some? ==> truncateAt.value < total
  {
    truncateAt := None;
    if c.truncate.CutAt? && c.truncate.at < total {
      truncateAt := Some(c.truncate.at);
    } else if c.truncate.CutRandom? && total > 0 {
      var at := Draws.Below(total);
      truncateAt := Some(at);
    }
  }

  /** The boundaries that the settings make for that many bytes. */
  predicate AreBoundariesOf(c: Config, length: nat, offsets: seq<nat>) {
    match c.chunks
    case ChunksOff => offsets == []
    case ChunksAt(list) => offsets == list
    case ChunksRandom => AreRandom(offsets, length)
  }

  /** The boundaries, and the list they were cut from. */
  method DrawBoundaries(c: Config, length: nat) returns (boundaries: seq<nat>, ghost offsets: seq<nat>)
    requires Reachable(c)
    ensures IsBoundaryList(offsets) && boundaries == Under(offsets, length)
    ensures AreBoundariesOf(c, length, offsets)
  {
    match c.chunks {
      case ChunksOff =>
        boundaries, offsets := [], [];
      case ChunksAt(list) =>
        boundaries, offsets := Under(list, length), list;
      case ChunksRandom =>
        boundaries := [];
        if length > 1 {
          boundaries := RandomOffsets(length);
          UnderAll(boundaries, length);
        }
        offsets := boundaries;
    }
  }

  /** Extra replies, cut and boundaries are those of the settings. */
  predicate IsDrawn(c: Config, response: nat, plan: Plan, offsets: seq<nat>) {
    && !c.chance.Never? && Enabled(c) && plan.extra == c.extra
    && IsCutOf(c, Extended(response, c.extra), plan.truncateAt)
    && AreBoundariesOf(c, CutLength(plan, response), offsets)
  }

  /** The plan without a connection fault; `offsets` are the boundaries drawn. */
  method DeliveryPlan(c: Config, response: nat) returns (plan: Plan, ghost offsets: seq<nat>)
    requires Reachable(c)
    ensures WellFormed(plan, response) && plan.fault.None?
    ensures IsBoundaryList(offsets) && plan.chunkEnds == Ends(offsets, WireLength(plan, response))
    ensures (plan == Plain(response) && offsets == []) || IsDrawn(c, response, plan, offsets)
    ensures c.chance.Always? && Enabled(c) ==> IsDrawn(c, response, plan, offsets)
  {
    hide WellFormed, WireLength, Ends, IsBoundaryList, Reachable, Extended;
    plan, offsets := Plain(response), [];
    NoBoundaries();
    PlainIsWellFormed(response);
    if !Enabled(c) || c.chance.Never? { return; }
    var apply := Draws.Toss(c.chance);
    if !apply { return; }
    ReachableExtra(c);
    var total := Extended(response, c.extra);
    var truncateAt := DrawCut(c, total);
    var length := if truncateAt.Some? then truncateAt.value else total;
    var boundaries;
    boundaries, offsets := DrawBoundaries(c, length);
    if length > 0 { boundaries := boundaries + [length]; }
    EndsOf(offsets, length, boundaries);
    plan := Plan(1, c.extra, truncateAt, boundaries, None);
    DrawnIsWellFormed(plan, offsets, response, length);
  }

  lemma PlainIsWellFormed(response: nat)
    ensures WellFormed(Plain(response), response) && WireLength(Plain(response), response) == response
  {
    NoBoundaries();
    EndsAreWellFormed([], response);
    assert Extended(response, 0) == response;
    hide Extended, Ends, Ascending;
  }

  lemma DrawnIsWellFormed(plan: Plan, offsets: seq<nat>, response: nat, length: nat)
    requires plan.version == 1 && plan.fault.None? && plan.extra <= 16
    requires plan.truncateAt.Some? ==> plan.truncateAt.value < Total(plan, response)
    requires length == if plan.truncateAt.Some? then plan.truncateAt.value else Total(plan, response)
    requires IsBoundaryList(offsets) && plan.chunkEnds == Ends(offsets, length)
    ensures WellFormed(plan, response) && WireLength(plan, response) == length
  {
    EndsAreWellFormed(offsets, length);
    hide Extended, Ends, Ascending;
  }

  lemma FaultedIsWellFormed(plan: Plan, fault: FaultPlan, offsets: seq<nat>, response: nat)
    requires WellFormed(plan, response) && plan.truncateAt.None? && fault.afterBytes <= Total(plan, response)
    requires IsBoundaryList(offsets)
    ensures WellFormed(plan.(version := 2, fault := Some(fault), chunkEnds := Ends(offsets, fault.afterBytes)), response)
  {
    EndsAreWellFormed(offsets, fault.afterBytes);
    hide Ascending, Ends;
  }

  /** The plan for a reply: its extra replies, cut, boundaries and fault are those of
      the settings, or absent; at full probability they are there, at zero they are
      not. */
  predicate IsPlanned(c: Config, response: nat, plan: Plan, offsets: seq<nat>) {
    && plan.chunkEnds == Ends(offsets, WireLength(plan, response))
    && (IsDrawn(c, response, plan, offsets)
        || (plan.extra == 0 && plan.truncateAt.None? && offsets == [] && (plan.fault.None? ==> plan == Plain(response))))
    && (plan.fault.Some? ==> !c.point.Before? && IsFaultOf(c, Total(plan, response), plan.fault.value))
    && (c.chance.Never? || !Enabled(c) ==> plan == Plain(response))
    && (c.chance.Always? ==>
          && plan.extra == c.extra && IsCutOf(c, response + 11 * c.extra, plan.truncateAt)
          && AreBoundariesOf(c, CutLength(plan, response), offsets))
    && (c.chance.Always? && Enabled(c) ==> IsDrawn(c, response, plan, offsets))
    && (!c.point.Before? && MustFault(c, Total(plan, response)) ==> plan.fault.Some?)
  }

  /** The plan of a fault before the command: nothing is sent. */
  predicate IsPlannedBefore(c: Config, plan: Plan) {
    && c.point.Before? && plan.chunkEnds == [] && plan.fault.Some? && IsFaultOf(c, 0, plan.fault.value)
    && plan.extra == 0 && plan.truncateAt.None?
  }

  /** The whole plan: whatever is drawn, it is well formed, its cut, fault and
      boundaries are those of the settings, and a fault only shortens it. */
  method PlanDelivery(c: Config, response: nat) returns (plan: Plan, ghost offsets: seq<nat>)
    requires Reachable(c)
    ensures WellFormed(plan, response) && IsPlanned(c, response, plan, offsets)
  {
    hide Ends, Ascending;
    plan, offsets := DeliveryPlan(c, response);
    if !c.point.Before? {
      var length := Extended(response, plan.extra);
      var fault := PlanFault(c, length);
      if fault.Some? {
        FaultedIsWellFormed(plan, fault.value, offsets, response);
        plan := SetFault(plan, fault.value, offsets, length);
      }
    }
  }

  /** A fault before the command is forwarded: nothing is sent. */
  method BeforePlan(c: Config) returns (plan: Option<Plan>)
    ensures c.point.Before? && MustFault(c, 0) ==> plan.Some?
    ensures plan.Some? ==>
      && IsPlannedBefore(c, plan.value)
      && forall n: nat :: WireLength(plan.value, n) == 0 && WellFormed(plan.value, n)
  {
    if !c.point.Before? { return None; }
    var fault := PlanFault(c, 0);
    if fault.None? { return None; }
    var r := SetFault(Plain(0), fault.value, [], 0);
    plan := Some(r);
  }

  /** One extra reply is `+EVILRESP` with its CRLF. */
  lemma CopiesSpelled(n: nat)
    ensures Copies(0) == [] && Copies(n + 1) == Copies(n) + [43, 69, 86, 73, 76, 82, 69, 83, 80, 13, 10]
  {}

  function Copies(n: nat): (s: bytes)
    ensures |s| == n * |EXTRA_REPLY|
  {
    if n == 0 then [] else Copies(n - 1) + EXTRA_REPLY
  }

  /** The bytes to send: a prefix of the response and the extra replies. */
  method WireBytes(plan: Plan, response: bytes) returns (wire: bytes)
    ensures wire <= response + Copies(plan.extra)
    ensures |wire| == WireLength(plan, |response|)
  {
    wire := response;
    for i := 0 to plan.extra
      invariant wire == response + Copies(i)
    {
      Assoc(response, Copies(i), EXTRA_REPLY);
      wire := wire + EXTRA_REPLY;
    }
    if plan.truncateAt.Some? { wire := wire[..Min(plan.truncateAt.value, |wire|)]; }
    if plan.fault.Some? { wire := wire[..Min(plan.fault.value.afterBytes, |wire|)]; }
  }
}
