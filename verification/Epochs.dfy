/** The reset protocol: connections share an epoch and a command counter; a
    read/write barrier and a second check keep a reset from mixing with
    allocation. Every step below is atomic, and any connection may move next. */
module Epochs {
  /** Where a connection stands. Reading, Admitted and Issued hold the barrier for
      reading; Writing, Bumped and Zeroed hold it for writing. */
  datatype Phase = Idle | Checked | Reading | Admitted | Issued | Resetting | Writing | Bumped | Zeroed | Closed

  datatype Conn = Conn(epoch: nat, phase: Phase)

  /** An index handed out, with the connection's epoch and the global one then. */
  datatype Grant = Grant(conn: nat, index: nat, local: nat, global: nat)

  datatype State = State(epoch: nat, ids: nat, conns: map<nat, Conn>, grants: seq<Grant>)

  datatype Action =
    | Accept | Check(reset: bool) | AcquireRead | Recheck | Allocate | ReleaseRead
    | AcquireWrite | Bump | Zero | ReleaseWrite | Close

  predicate Reads(p: Phase) { p.Reading? || p.Admitted? || p.Issued? }

  predicate Writes(p: Phase) { p.Writing? || p.Bumped? || p.Zeroed? }

  predicate In(s: State, c: nat, p: Phase) { c in s.conns && s.conns[c].phase == p }

  predicate AnyReader(s: State) { exists c :: c in s.conns && Reads(s.conns[c].phase) }

  predicate AnyWriter(s: State) { exists c :: c in s.conns && Writes(s.conns[c].phase) }

  predicate Stale(s: State, c: nat) { c in s.conns && s.conns[c].epoch != s.epoch }

  function Move(s: State, c: nat, p: Phase): (r: State)
    requires c in s.conns
  {
    s.(conns := s.conns[c := s.conns[c].(phase := p)])
  }

  const START: State := State(0, 0, map[], [])

  predicate Next(s: State, t: State, c: nat, a: Action) {
    match a
    case Accept => c !in s.conns && t == s.(conns := s.conns[c := Conn(s.epoch, Idle)])
    case Check(reset) =>
      In(s, c, Idle) && t == Move(s, c, if Stale(s, c) then Closed else if reset then Resetting else Checked)
    case AcquireRead => In(s, c, Checked) && !AnyWriter(s) && t == Move(s, c, Reading)
    case Recheck => In(s, c, Reading) && t == Move(s, c, if Stale(s, c) then Closed else Admitted)
    case Allocate =>
      && In(s, c, Admitted)
      && t == Move(s, c, Issued).(ids := s.ids + 1, grants := s.grants + [Grant(c, s.ids, s.conns[c].epoch, s.epoch)])
    case ReleaseRead => In(s, c, Issued) && t == Move(s, c, Idle)
    case AcquireWrite => In(s, c, Resetting) && !AnyReader(s) && !AnyWriter(s) && t == Move(s, c, Writing)
    case Bump =>
      In(s, c, Writing) && t == s.(epoch := s.epoch + 1, conns := s.conns[c := Conn(s.epoch + 1, Bumped)])
    case Zero => In(s, c, Bumped) && t == Move(s, c, Zeroed).(ids := 0)
    case ReleaseWrite => In(s, c, Zeroed) && t == Move(s, c, Idle)
    case Close => In(s, c, Idle) && t == Move(s, c, Closed)
  }

  /** The indexes handed out under the global epoch `e`, in order. */
  function Indexes(grants: seq<Grant>, e: nat): (r: seq<nat>) {
    if grants == [] then []
    else
      var g, before := grants[|grants| - 1], Indexes(grants[..|grants| - 1], e);
      if g.global == e then before + [g.index] else before
  }

  /** 0, 1, 2 and so on. */
  predicate CountsUp(s: seq<nat>) { forall i :: 0 <= i < |s| ==> s[i] == i }

  ghost predicate SomeBumped(s: State) { exists c :: In(s, c, Bumped) }

  /** The barrier: a writer excludes every other holder. */
  ghost predicate Exclusive(s: State) {
    forall c, d :: c in s.conns && d in s.conns && Writes(s.conns[c].phase) && c != d ==>
      !Writes(s.conns[d].phase) && !Reads(s.conns[d].phase)
  }

  ghost predicate Current(s: State) {
    && (forall c :: c in s.conns ==> s.conns[c].epoch <= s.epoch)
    && (forall c :: c in s.conns && (s.conns[c].phase.Admitted? || s.conns[c].phase.Bumped?) ==>
          s.conns[c].epoch == s.epoch)
  }

  ghost predicate Counted(s: State) {
    && (forall k :: 0 <= k < |s.grants| ==> s.grants[k].local == s.grants[k].global <= s.epoch)
    && (forall e: nat :: CountsUp(Indexes(s.grants, e)))
    && (if SomeBumped(s) then Indexes(s.grants, s.epoch) == [] else s.ids == |Indexes(s.grants, s.epoch)|)
  }

  ghost predicate Inv(s: State) { Exclusive(s) && Current(s) && Counted(s) }

  lemma {:induction false} NoneLater(grants: seq<Grant>, e: nat)
    requires forall k :: 0 <= k < |grants| ==> grants[k].global < e
    ensures Indexes(grants, e) == []
  {
    if grants != [] { NoneLater(grants[..|grants| - 1], e); }
  }

  lemma GrantStep(grants: seq<Grant>, g: Grant, e: nat)
    ensures Indexes(grants + [g], e) == if g.global == e then Indexes(grants, e) + [g.index] else Indexes(grants, e)
  {
    assert (grants + [g])[..|grants|] == grants;
  }

  lemma ExclusiveStep(s: State, t: State, c: nat, a: Action)
    requires Exclusive(s) && Next(s, t, c, a)
    ensures Exclusive(t)
  {
    OnlyOneMoves(s, t, c, a);
    hide Next, Reads, Writes;
  }

  /** One connection moves; it comes to hold the barrier only when that is allowed. */
  lemma OnlyOneMoves(s: State, t: State, c: nat, a: Action)
    requires Next(s, t, c, a)
    ensures forall d :: d != c ==> (d in t.conns <==> d in s.conns) && (d in s.conns ==> t.conns[d] == s.conns[d])
    ensures c in t.conns
    ensures Writes(t.conns[c].phase) ==>
      (!AnyReader(s) && !AnyWriter(s)) || (c in s.conns && Writes(s.conns[c].phase))
    ensures Reads(t.conns[c].phase) ==> !AnyWriter(s) || (c in s.conns && Reads(s.conns[c].phase))
  {
    hide AnyReader, AnyWriter;
  }

  lemma CurrentStep(s: State, t: State, c: nat, a: Action)
    requires Exclusive(s) && Current(s) && Next(s, t, c, a)
    ensures Current(t)
  {}

  lemma BumpedStep(s: State, t: State, c: nat, a: Action)
    requires Exclusive(s) && Next(s, t, c, a)
    ensures a.Bump? ==> SomeBumped(t)
    ensures a.Zero? ==> SomeBumped(s) && !SomeBumped(t)
    ensures a.Allocate? ==> !SomeBumped(s)
    ensures !a.Bump? && !a.Zero? ==> SomeBumped(t) == SomeBumped(s)
  {
    if a.Bump? { assert In(t, c, Bumped); }
    if a.Zero? { assert In(s, c, Bumped); }
    if !a.Bump? && !a.Zero? {
      if SomeBumped(s) {
        var d :| In(s, d, Bumped);
        assert d != c && In(t, d, Bumped);
      }
      if SomeBumped(t) {
        var d :| In(t, d, Bumped);
        assert d != c && In(s, d, Bumped);
      }
    }
  }

  lemma CountedStep(s: State, t: State, c: nat, a: Action)
    requires Inv(s) && Next(s, t, c, a)
    ensures Counted(t)
  {
    BumpedStep(s, t, c, a);
    hide SomeBumped;
    if a.Allocate? {
      var g := Grant(c, s.ids, s.conns[c].epoch, s.epoch);
      forall e: nat ensures CountsUp(Indexes(t.grants, e)) { GrantStep(s.grants, g, e); }
      GrantStep(s.grants, g, s.epoch);
    } else if a.Bump? {
      NoneLater(s.grants, t.epoch);
    }
  }

  lemma InvStep(s: State, t: State, c: nat, a: Action)
    requires Inv(s) && Next(s, t, c, a)
    ensures Inv(t)
  {
    ExclusiveStep(s, t, c, a);
    CurrentStep(s, t, c, a);
    CountedStep(s, t, c, a);
  }

  // ------------------------------------------------------------------ whole runs

  datatype Turn = Turn(conn: nat, action: Action)

  predicate Run(states: seq<State>, moves: seq<Turn>) {
    && |states| == |moves| + 1 && states[0] == START
    && forall i :: 0 <= i < |moves| ==> Next(states[i], states[i + 1], moves[i].conn, moves[i].action)
  }

  lemma {:induction false} InvHolds(states: seq<State>, moves: seq<Turn>, i: nat)
    requires Run(states, moves) && i < |states|
    ensures Inv(states[i])
  {
    if i == 0 {
      assert forall e: nat :: Indexes(START.grants, e) == [];
    } else {
      InvHolds(states, moves, i - 1);
      InvStep(states[i - 1], states[i], moves[i - 1].conn, moves[i - 1].action);
    }
  }

  /** In every reachable state, and for every epoch, the indexes handed out under
      that epoch are 0 to n-1, each once and in order, each to a connection whose
      own epoch was the global one; while no reset is under way, the counter is
      the number handed out since the last one. */
  lemma IndexesAreExact(states: seq<State>, moves: seq<Turn>, i: nat)
    requires Run(states, moves) && i < |states|
    ensures forall e: nat :: CountsUp(Indexes(states[i].grants, e))
    ensures forall k :: 0 <= k < |states[i].grants| ==> states[i].grants[k].local == states[i].grants[k].global
    ensures !AnyWriter(states[i]) ==> states[i].ids == |Indexes(states[i].grants, states[i].epoch)|
  {
    InvHolds(states, moves, i);
    var s := states[i];
    if SomeBumped(s) {
      var c :| In(s, c, Bumped);
      assert Writes(s.conns[c].phase);
    }
  }

  lemma StaleStep(s: State, t: State, d: nat, a: Action, c: nat)
    requires Inv(s) && Next(s, t, d, a) && Stale(s, c) && !(d == c && a.Bump?)
    ensures Stale(t, c) && t.conns[c].epoch == s.conns[c].epoch
    ensures s.grants <= t.grants && forall k :: |s.grants| <= k < |t.grants| ==> t.grants[k].conn != c
  {}

  /** A connection left behind by a reset gets no further index, however the others
      interleave, unless it performs a reset of its own. */
  lemma {:induction false} StaleGetsNothing(states: seq<State>, moves: seq<Turn>, c: nat, i: nat, j: nat)
    requires Run(states, moves) && i <= j < |states| && Stale(states[i], c)
    requires forall k :: i <= k < j ==> moves[k] != Turn(c, Bump)
    ensures Stale(states[j], c)
    ensures states[i].grants <= states[j].grants
    ensures forall k :: |states[i].grants| <= k < |states[j].grants| ==> states[j].grants[k].conn != c
  {
    if i < j {
      StaleGetsNothing(states, moves, c, i, j - 1);
      InvHolds(states, moves, j - 1);
      StaleStep(states[j - 1], states[j], moves[j - 1].conn, moves[j - 1].action, c);
    }
  }

  // -------------------------------------------------------------------- progress

  /** Whenever no reset holds the barrier, a new connection can be accepted and at once
      get the next index, under the epoch of that moment. */
  lemma NewConnectionIsServed(s: State, c: nat) returns (states: seq<State>)
    requires c !in s.conns && !AnyWriter(s)
    ensures |states| == 6 && states[0] == s
    ensures Next(states[0], states[1], c, Accept) && Next(states[1], states[2], c, Check(false))
    ensures Next(states[2], states[3], c, AcquireRead) && Next(states[3], states[4], c, Recheck)
    ensures Next(states[4], states[5], c, Allocate)
    ensures states[5].grants == s.grants + [Grant(c, s.ids, s.epoch, s.epoch)] && states[5].ids == s.ids + 1
    ensures states[5].epoch == s.epoch
  {
    var s1 := s.(conns := s.conns[c := Conn(s.epoch, Idle)]);
    var s2, s3, s4 := Move(s1, c, Checked), Move(Move(s1, c, Checked), c, Reading), Move(Move(Move(s1, c, Checked), c, Reading), c, Admitted);
    var s5 := Move(s4, c, Issued).(ids := s.ids + 1, grants := s.grants + [Grant(c, s.ids, s.epoch, s.epoch)]);
    assert !AnyWriter(s2) by {
      forall d | d in s2.conns ensures !Writes(s2.conns[d].phase) {
        if d != c { assert d in s.conns && s2.conns[d] == s.conns[d]; }
      }
    }
    states := [s, s1, s2, s3, s4, s5];
  }

  /** Whenever the barrier is free, a current idle connection can reset: the epoch goes
      up by one, the counter starts again, no index is taken back, and the connection
      is current again. */
  lemma ResetGoesThrough(s: State, c: nat) returns (states: seq<State>)
    requires In(s, c, Idle) && !Stale(s, c) && !AnyReader(s) && !AnyWriter(s)
    ensures |states| == 6 && states[0] == s
    ensures Next(states[0], states[1], c, Check(true)) && Next(states[1], states[2], c, AcquireWrite)
    ensures Next(states[2], states[3], c, Bump) && Next(states[3], states[4], c, Zero)
    ensures Next(states[4], states[5], c, ReleaseWrite)
    ensures states[5].epoch == s.epoch + 1 && states[5].ids == 0 && states[5].grants == s.grants
    ensures states[5].conns == s.conns[c := Conn(s.epoch + 1, Idle)]
  {
    var s1 := Move(s, c, Resetting);
    var s2 := Move(s1, c, Writing);
    var s3 := s2.(epoch := s.epoch + 1, conns := s2.conns[c := Conn(s.epoch + 1, Bumped)]);
    var s4 := Move(s3, c, Zeroed).(ids := 0);
    var s5 := Move(s4, c, Idle);
    assert !AnyReader(s1) && !AnyWriter(s1) by {
      forall d | d in s1.conns ensures !Writes(s1.conns[d].phase) && !Reads(s1.conns[d].phase) {
        if d != c { assert d in s.conns && s1.conns[d] == s.conns[d]; }
      }
    }
    states := [s, s1, s2, s3, s4, s5];
  }

  /** After that reset every other connection is stale, and its next check or recheck
      closes it. */
  lemma OthersAreClosed(s: State, t: State, d: nat, a: Action)
    requires Stale(s, d) && (a.Check? || a.Recheck?) && Next(s, t, d, a)
    ensures t.conns[d].phase == Closed && t.grants == s.grants && t.ids == s.ids
  {}

  // ------------------------------------------------------------------ refinement

  /** The service as a client sees it: one atomic reset, one atomic allocation. */
  datatype Service = Service(epoch: nat, count: nat)

  function View(s: State): (r: Service) { Service(s.epoch, |Indexes(s.grants, s.epoch)|) }

  /** Every step is one atomic reset, one atomic allocation of the next index to a
      current connection, or invisible. */
  lemma StepsRefineTheService(s: State, t: State, c: nat, a: Action)
    requires Inv(s) && Next(s, t, c, a)
    ensures a.Bump? ==> View(t) == Service(View(s).epoch + 1, 0)
    ensures a.Allocate? ==>
      && View(t) == View(s).(count := View(s).count + 1)
      && !Stale(s, c) && t.grants == s.grants + [Grant(c, View(s).count, s.epoch, s.epoch)]
    ensures !a.Bump? && !a.Allocate? ==> View(t) == View(s) && t.grants == s.grants
  {
    BumpedStep(s, t, c, a);
    if a.Bump? { NoneLater(s.grants, t.epoch); }
    if a.Allocate? { GrantStep(s.grants, Grant(c, s.ids, s.conns[c].epoch, s.epoch), s.epoch); }
  }
}
