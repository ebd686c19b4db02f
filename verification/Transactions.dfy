/** The transaction tracker against a model of a server session: which command
    names it holds when the server runs a transaction. */
module Transactions {
  import opened Bytes
  import opened Frames
  import NormalForm
  import Upstream

  /** `+QUEUED` and CRLF. */
  const QUEUED: bytes := [43, 81, 85, 69, 85, 69, 68, 13, 10]
  /** `-EXECABORT` and a space. */
  const EXECABORT: bytes := [45, 69, 88, 69, 67, 65, 66, 79, 82, 84, 32]

  type Names = seq<string>

  /** A reply that ends a transaction by running it: an array or a null. */
  predicate IsResult(reply: bytes) { reply != [] && (reply[0] == 42 || reply[0] == 95) }

  predicate IsAbort(reply: bytes) { EXECABORT <= reply }

  predicate IsError(reply: bytes) { reply != [] && reply[0] == 45 && !IsAbort(reply) }

  function NameOf(argv: seq<string>): (r: string)
    requires argv != []
  {
    NormalForm.Upper(argv[0])
  }

  // --------------------------------------------------------------- the tracker

  /** What observing one exchange leaves queued, and what it returns. */
  function Observed(queued: Option<Names>, argv: seq<string>, reply: bytes): (r: (Option<Names>, Option<Names>)) {
    if argv == [] then (queued, None)
    else
      var name := NameOf(argv);
      if name == "MULTI" && reply == Upstream.OK_LINE then (Some([]), None)
      else if name == "DISCARD" && reply == Upstream.OK_LINE then (None, None)
      else if name == "EXEC" && (IsResult(reply) || IsAbort(reply)) then (None, queued)
      else if reply == QUEUED && queued.Some? then (Some(queued.value + [name]), None)
      else (queued, None)
  }

  class TransactionCommands {
    var queued: Option<Names>

    constructor ()
      ensures queued == None
    {
      queued := None;
    }

    method Observe(argv: seq<string>, reply: bytes) returns (finished: Option<Names>)
      modifies this
      ensures (queued, finished) == Observed(old(queued), argv, reply)
    {
      finished := None;
      if argv == [] { return; }
      var command := NameOf(argv);
      if command == "MULTI" && reply == Upstream.OK_LINE {
        queued := Some([]);
      } else if command == "DISCARD" && reply == Upstream.OK_LINE {
        queued := None;
      } else if command == "EXEC" && (IsResult(reply) || IsAbort(reply)) {
        finished := queued;
        queued := None;
      } else if reply == QUEUED {
        match queued {
          case Some(commands) => queued := Some(commands + [command]);
          case None =>
        }
      }
    }
  }

  /** What the tracker goes by, byte by byte: MULTI and DISCARD answered by `+OK`, EXEC
      answered by an array, a null or `-EXECABORT `, and `+QUEUED` for any other. */
  lemma ObservedSpelled(queued: Option<Names>, argv: seq<string>, reply: bytes)
    requires argv != []
    ensures var r := Observed(queued, argv, reply);
      var ok, accepted := reply == [43, 79, 75, 13, 10], reply == [43, 81, 85, 69, 85, 69, 68, 13, 10];
      var ended := reply != [] && (reply[0] == 42 || reply[0] == 95
        || (|reply| >= 11 && reply[..11] == [45, 69, 88, 69, 67, 65, 66, 79, 82, 84, 32]));
      if NormalForm.InAnyCase(argv[0], "MULTI") && ok then r == (Some([]), None)
      else if NormalForm.InAnyCase(argv[0], "DISCARD") && ok then r == (None, None)
      else if NormalForm.InAnyCase(argv[0], "EXEC") && ended then r == (None, queued)
      else if accepted && queued.Some? then r == (Some(queued.value + [NormalForm.Upper(argv[0])]), None)
      else r == (queued, None)
  {
    NormalForm.UpperIs(argv[0], "MULTI");
    NormalForm.UpperIs(argv[0], "DISCARD");
    NormalForm.UpperIs(argv[0], "EXEC");
    assert EXECABORT <= reply <==> |reply| >= 11 && reply[..11] == EXECABORT;
    hide NormalForm.Upper, NormalForm.InAnyCase;
  }

  // ---------------------------------------------------------------- the server

  /** A queued command; the proxy observes all but some cluster queries. */
  datatype Queued = Queued(name: string, observed: bool)

  /** A session of the server: outside a transaction, or in one. */
  datatype Server = Plain | InTransaction(queue: seq<Queued>)

  /** The server answers the command `name` by `reply`. A rejected command, or an
      error in any command, leaves the queue as it was, except that in a cluster a
      redirected EXEC discards it; an EXEC that the server refuses to run may abort
      the transaction; QUIT and RESET end it. */
  predicate Answers(s: Server, name: string, observed: bool, reply: bytes, t: Server) {
    match s
    case Plain =>
      if name == "MULTI" then (reply == Upstream.OK_LINE && t == InTransaction([])) || (IsError(reply) && t == Plain)
      else if name == "EXEC" then (IsError(reply) || IsAbort(reply)) && t == Plain
      else if name == "DISCARD" then IsError(reply) && t == Plain
      else t == Plain
    case InTransaction(queue) =>
      || (IsError(reply) && t == s)
      || if name == "EXEC" then (IsResult(reply) || IsAbort(reply) || IsError(reply)) && t == Plain
         else if name == "DISCARD" then reply == Upstream.OK_LINE && t == Plain
         else if name == "RESET" || name == "QUIT" then reply != QUEUED && t == Plain
         else name != "MULTI" && reply == QUEUED && t == InTransaction(queue + [Queued(name, observed)])
  }

  /** One thing that happens between the proxy and its upstream session. Commands
      that are answered locally or not forwarded reach neither side. */
  datatype Event =
    | Exchange(argv: seq<string>, reply: bytes)
    | Unobserved(argv: seq<string>, reply: bytes)
    | SessionLost

  datatype State = State(server: Server, queued: Option<Names>)

  predicate Happens(s: State, e: Event, t: State) {
    match e
    case Exchange(argv, reply) =>
      argv != [] && Answers(s.server, NameOf(argv), true, reply, t.server)
      && t.queued == Observed(s.queued, argv, reply).0
    case Unobserved(argv, reply) =>
      argv != [] && NameOf(argv) == "CLUSTER" && Answers(s.server, "CLUSTER", false, reply, t.server)
      && t.queued == s.queued
    case SessionLost => t == State(Plain, None)
  }

  function ObservedNames(queue: seq<Queued>): (r: Names) {
    if queue == [] then []
    else
      var last := queue[|queue| - 1];
      ObservedNames(queue[..|queue| - 1]) + (if last.observed then [last.name] else [])
  }

  function AllNames(queue: seq<Queued>): (r: Names)
    ensures |r| == |queue|
  {
    seq(|queue|, i requires 0 <= i < |queue| => queue[i].name)
  }

  predicate AllObserved(queue: seq<Queued>) { forall i :: 0 <= i < |queue| ==> queue[i].observed }

  lemma {:induction false} ObservedNamesAreAll(queue: seq<Queued>)
    ensures |ObservedNames(queue)| <= |queue|
    ensures ObservedNames(queue) == AllNames(queue) <==> AllObserved(queue)
    ensures |ObservedNames(queue)| == |queue| ==> AllObserved(queue)
  {
    if queue != [] {
      var front, last := queue[..|queue| - 1], queue[|queue| - 1];
      ObservedNamesAreAll(front);
      assert AllNames(queue) == AllNames(front) + [last.name];
      assert AllObserved(queue) <==> AllObserved(front) && last.observed;
    }
  }

  /** Whenever the server is in a transaction, the tracker holds the names of the
      observed part of its queue. */
  predicate Tracks(s: State) {
    s.server.InTransaction? ==> s.queued == Some(ObservedNames(s.server.queue))
  }

  lemma ResultIsNoLine(reply: bytes)
    ensures IsResult(reply) ==> !IsError(reply) && !IsAbort(reply) && reply != QUEUED && reply != Upstream.OK_LINE
    ensures IsAbort(reply) ==> !IsError(reply) && reply != QUEUED && reply != Upstream.OK_LINE
    ensures IsError(reply) ==> reply != QUEUED && reply != Upstream.OK_LINE
  {
    if IsAbort(reply) { assert reply[0] == EXECABORT[0]; }
  }

  lemma QueuedLast(queue: seq<Queued>, last: Queued)
    ensures ObservedNames(queue + [last]) == if last.observed then ObservedNames(queue) + [last.name] else ObservedNames(queue)
  {
    assert (queue + [last])[..|queue|] == queue;
  }

  lemma TracksStep(s: State, e: Event, t: State)
    requires Tracks(s) && Happens(s, e, t)
    ensures Tracks(t)
  {
    hide IsResult, IsAbort, IsError, NormalForm.Upper, NameOf;
    if !e.SessionLost? {
      ResultIsNoLine(e.reply);
      if s.server.InTransaction? && t.server.InTransaction? && t.server != s.server {
        QueuedLast(s.server.queue, t.server.queue[|s.server.queue|]);
      }
    }
  }

  lemma TracksStart()
    ensures Tracks(START)
  {}

  const START: State := State(Plain, None)

  predicate Run(states: seq<State>, events: seq<Event>) {
    && |states| == |events| + 1 && states[0] == START
    && forall i :: 0 <= i < |events| ==> Happens(states[i], events[i], states[i + 1])
  }

  lemma {:induction false} TracksAlways(states: seq<State>, events: seq<Event>, i: nat)
    requires Run(states, events) && i < |states|
    ensures Tracks(states[i])
  {
    hide Happens, Tracks;
    if i > 0 {
      TracksAlways(states, events, i - 1);
      TracksStep(states[i - 1], events[i - 1], states[i]);
    } else {
      TracksStart();
    }
  }

  /** Over every run of transactions, rejections, aborts, resets and lost sessions:
      in a transaction, the tracked names are the server's queue exactly when every
      queued command was observed, and the only ones that are not are the cluster
      queries that the proxy answers outside the mutation pipeline. */
  lemma TrackerSimulatesTheServer(states: seq<State>, events: seq<Event>, i: nat)
    requires Run(states, events) && i < |states| && states[i].server.InTransaction?
    ensures states[i].queued == Some(AllNames(states[i].server.queue)) <==> AllObserved(states[i].server.queue)
  {
    TracksAlways(states, events, i);
    ObservedNamesAreAll(states[i].server.queue);
  }

  lemma UpperMulti()
    ensures NormalForm.Upper("MULTI") == "MULTI"
  {}

  lemma UpperCluster()
    ensures NormalForm.Upper("CLUSTER") == "CLUSTER"
  {}

  lemma NamesOfCommands()
    ensures NameOf(["MULTI"]) == "MULTI" && NameOf(["CLUSTER", "NODES"]) == "CLUSTER"
  {
    UpperMulti();
    UpperCluster();
    hide NormalForm.Upper;
  }

  /** A concrete run in which they differ: MULTI, then CLUSTER NODES in cluster mode. */
  lemma UnobservedQueryIsMissed()
    ensures exists states: seq<State>, events: seq<Event> ::
      Run(states, events) && |states| == 3 && states[2].server.InTransaction? && states[2].queued == Some([])
      && AllNames(states[2].server.queue) == ["CLUSTER"]
  {
    hide NormalForm.Upper, NameOf;
    var multi, nodes := ["MULTI"], ["CLUSTER", "NODES"];
    NamesOfCommands();
    var s1 := State(InTransaction([]), Some([]));
    var queue := [Queued("CLUSTER", false)];
    var s2 := State(InTransaction(queue), Some([]));
    var states, events := [START, s1, s2], [Exchange(multi, Upstream.OK_LINE), Unobserved(nodes, QUEUED)];
    assert Happens(START, Exchange(multi, Upstream.OK_LINE), s1);
    assert Happens(s1, Unobserved(nodes, QUEUED), s2) by { assert [] + queue == queue; }
    assert AllNames(queue) == ["CLUSTER"];
    hide Happens;
    assert Run(states, events);
  }

  predicate IsExec(e: Event) { e.Exchange? && e.argv != [] && NameOf(e.argv) == "EXEC" }

  /** The list that EXEC returns is the queue that the server ran or aborted, and
      a list comes back only then, or for an abort outside a transaction; an EXEC
      that fails in any other way returns none. */
  lemma ExecReturnsTheQueue(states: seq<State>, events: seq<Event>, i: nat)
    requires Run(states, events) && i < |events| && IsExec(events[i])
    requires states[i].server.InTransaction? ==> AllObserved(states[i].server.queue)
    ensures var finished := Observed(states[i].queued, events[i].argv, events[i].reply).1;
      && (IsError(events[i].reply) ==> finished == None)
      && (states[i].server.InTransaction? && states[i + 1].server.Plain? && !IsError(events[i].reply) ==>
            finished == Some(AllNames(states[i].server.queue)))
      && (finished.Some? && !IsAbort(events[i].reply) ==>
            states[i].server.InTransaction? && states[i + 1].server.Plain?)
  {
    TracksAlways(states, events, i);
    ResultIsNoLine(events[i].reply);
    assert Happens(states[i], events[i], states[i + 1]);
    if states[i].server.InTransaction? { ObservedNamesAreAll(states[i].server.queue); }
    hide IsResult, IsAbort, IsError, NormalForm.Upper;
  }

  /** Each item of the transaction's reply is canonicalized under the command that
      the server queued for it. */
  lemma ItemsMeetTheirCommands(mode: NormalForm.Mode, states: seq<State>, events: seq<Event>, i: nat, items: seq<Frame>, k: nat)
    requires Run(states, events) && i < |events| && IsExec(events[i])
    requires states[i].server.InTransaction? && states[i + 1].server.Plain? && !IsError(events[i].reply)
    requires AllObserved(states[i].server.queue)
    requires k < |items| == |states[i].server.queue|
    ensures var finished := Observed(states[i].queued, events[i].argv, events[i].reply).1;
      finished.Some? &&
      NormalForm.CanonTransaction(mode, finished.value, Array(items))
        == Array(NormalForm.CanonItems(mode, finished.value, items)) &&
      NormalForm.CanonItems(mode, finished.value, items)[k]
        == NormalForm.CanonReply(mode, Some(states[i].server.queue[k].name), items[k])
  {
    ExecReturnsTheQueue(states, events, i);
    NormalForm.CanonItemsAt(mode, AllNames(states[i].server.queue), items, k);
    hide NormalForm.CanonReply, NormalForm.CanonItems, Observed;
  }

  /** The proxy identifies itself again only outside transactions, so its own
      commands are never queued among the client's. */
  lemma IdentificationIsOutsideTransactions(s: Server, argv: seq<string>, reply: bytes, t: Server)
    requires argv != [] && Answers(s, NameOf(argv), true, reply, t)
    requires Upstream.Authenticates(argv, reply) || Upstream.Greets(argv, reply)
    ensures s.Plain? && t.Plain?
  {
    assert NormalForm.Upper("AUTH") == "AUTH" && NormalForm.Upper("HELLO") == "HELLO";
    ResultIsNoLine(reply);
    hide NormalForm.Upper;
  }
}
