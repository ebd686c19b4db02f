/** The upstream session: identification, exchange and reconnection. The server
    is assumed to answer each message with one reply, in order, for as long as
    the session lives; every write, flush, read and connect may fail. */
module Upstream {
  import opened Bytes
  import opened Frames
  import Draws
  import NormalForm
  import Parser
  import RoundTrip

  const SLOTS: nat := 3

  /** What is written on a session: an identification command or a client's. */
  datatype Message = Identification(slot: nat) | Command(serial: nat)

  /** The reply to the message written at `position` on the session. */
  datatype Reply = Reply(position: nat, body: bytes)

  /** Everything that was ever written to the upstream, on whatever session, and the
      number of faults of the upstream. The environment keeps both: only `Dial` and
      the operations of a link change them. */
  class History {
    var log: seq<Message>
    var faults: nat

    constructor ()
      ensures log == [] && faults == 0
    {
      log, faults := [], 0;
    }

    /** Opens a connection. */
    method Dial() returns (ok: bool)
      modifies this`faults
      ensures faults == old(faults) + Fault(ok)
    {
      ok := Draws.Flip();
      faults := faults + Fault(ok);
    }
  }

  function Fault(ok: bool): (n: nat) { if ok then 0 else 1 }

  /** The client commands among the messages, in order. */
  function Commands(ms: seq<Message>): (serials: seq<nat>)
    ensures |serials| <= |ms|
  {
    if ms == [] then []
    else
      var m := ms[|ms| - 1];
      Commands(ms[..|ms| - 1]) + (if m.Command? then [m.serial] else [])
  }

  lemma {:induction false} CommandsOfConcat(ms: seq<Message>, ns: seq<Message>)
    ensures Commands(ms + ns) == Commands(ms) + Commands(ns)
  {
    if ns == [] {
      assert ms + ns == ms;
    } else {
      assert (ms + ns)[..|ms + ns| - 1] == ms + ns[..|ns| - 1];
      CommandsOfConcat(ms, ns[..|ns| - 1]);
    }
  }

  lemma {:induction false} IdentificationHasNoCommands(ms: seq<Message>)
    requires OnlyIdentification(ms)
    ensures Commands(ms) == []
  {
    if ms != [] { IdentificationHasNoCommands(ms[..|ms| - 1]); }
  }

  /** One session's stream to and from the upstream. */
  class Link {
    const history: History
    /** Messages whose writing was attempted, and the replies read. */
    var tried: seq<Message>
    var bodies: seq<bytes>

    constructor (history: History)
      ensures this.history == history && tried == [] && bodies == []
    {
      this.history := history;
      tried, bodies := [], [];
    }

    /** No reply is outstanding. */
    predicate Aligned()
      reads this
    {
      |bodies| == |tried|
    }

    method Write(m: Message) returns (ok: bool)
      modifies this`tried, history
      ensures tried == old(tried) + [m] && history.log == old(history.log) + [m]
      ensures history.faults == old(history.faults) + Fault(ok)
    {
      tried, history.log := tried + [m], history.log + [m];
      ok := Draws.Flip();
      history.faults := history.faults + Fault(ok);
    }

    method Flush() returns (ok: bool)
      modifies history`faults
      ensures history.faults == old(history.faults) + Fault(ok)
    {
      ok := Draws.Flip();
      history.faults := history.faults + Fault(ok);
    }

    /** The reply is no answer to the message: it identifies, and is neither accepted
        nor rejected. */
    static predicate Strange(m: Message, body: bytes) { m.Identification? && AnswerOf(body) == Unexpected }

    /** Waits for the next reply; there must be a message that it answers. A reply
        that does not come and a strange one are faults. */
    method Read() returns (reply: Option<Reply>)
      requires |bodies| < |tried|
      modifies this`bodies, history`faults
      ensures history.faults == old(history.faults) + Fault(reply.Some? && !Strange(tried[|old(bodies)|], reply.value.body))
      ensures reply.Some? ==> reply.value.position == |old(bodies)| && bodies == old(bodies) + [reply.value.body]
      ensures reply.None? ==> bodies == old(bodies)
    {
      var ok := Draws.Flip();
      if !ok {
        history.faults := history.faults + 1;
        return None;
      }
      var body := AnyBytes();
      history.faults := history.faults + Fault(!Strange(tried[|bodies|], body));
      reply := Some(Reply(|bodies|, body));
      bodies := bodies + [body];
    }
  }

  method AnyBytes() returns (s: bytes) { s := *; }

  /** The slots still pending, in order, as messages. */
  function Messages(pending: seq<bool>, n: nat): (ms: seq<Message>)
    requires n <= |pending|
    ensures |ms| <= n
  {
    if n == 0 then []
    else Messages(pending, n - 1) + (if pending[n - 1] then [Identification(n - 1)] else [])
  }

  predicate OnlyIdentification(ms: seq<Message>) { forall i :: 0 <= i < |ms| ==> ms[i].Identification? }

  lemma {:induction false} MessagesMonotone(p: seq<bool>, m: nat, n: nat)
    requires m <= n <= |p|
    ensures |Messages(p, m)| <= |Messages(p, n)|
  {
    if m < n { MessagesMonotone(p, m, n - 1); }
  }

  lemma {:induction false} MessagesIdentify(p: seq<bool>, n: nat)
    requires n <= |p|
    ensures OnlyIdentification(Messages(p, n))
  {
    if n > 0 { MessagesIdentify(p, n - 1); }
  }

  predicate EqualsIgnoringCase(a: string, b: string) { NormalForm.Upper(a) == NormalForm.Upper(b) }

  const OK_LINE: bytes := [43, 79, 75, 13, 10]

  predicate Authenticates(argv: seq<string>, reply: bytes) {
    argv != [] && EqualsIgnoringCase(argv[0], "AUTH") && reply == OK_LINE
  }

  predicate Greets(argv: seq<string>, reply: bytes) {
    argv != [] && EqualsIgnoringCase(argv[0], "HELLO") && reply != [] && (reply[0] == 42 || reply[0] == 37)
  }

  predicate SetsName(argv: seq<string>) {
    var index := if |argv| > 2 && EqualsIgnoringCase(argv[2], "AUTH") then 5 else 2;
    |argv| > index && EqualsIgnoringCase(argv[index], "SETNAME")
  }

  lemma SpelledInAnyCase(s: string, name: string)
    requires forall i :: 0 <= i < |name| ==> 'A' <= name[i] <= 'Z'
    ensures EqualsIgnoringCase(s, name) <==> NormalForm.InAnyCase(s, name)
  {
    hide NormalForm.Upper;
    NormalForm.UpperIs(name, name);
    NormalForm.UpperIs(s, name);
  }

  /** What counts as a login, an array or a map for HELLO, and where HELLO names the
      connection: after the protocol, or after the user and password of AUTH. */
  lemma LoginsSpelled(argv: seq<string>, reply: bytes)
    ensures Authenticates(argv, reply) <==>
      argv != [] && NormalForm.InAnyCase(argv[0], "AUTH") && reply == [43, 79, 75, 13, 10]
    ensures Greets(argv, reply) <==>
      argv != [] && NormalForm.InAnyCase(argv[0], "HELLO") && reply != [] && (reply[0] == 42 || reply[0] == 37)
    ensures SetsName(argv) <==>
      if |argv| > 2 && NormalForm.InAnyCase(argv[2], "AUTH")
      then |argv| > 5 && NormalForm.InAnyCase(argv[5], "SETNAME")
      else |argv| > 2 && NormalForm.InAnyCase(argv[2], "SETNAME")
  {
    hide EqualsIgnoringCase, NormalForm.InAnyCase;
    if |argv| > 0 {
      SpelledInAnyCase(argv[0], "AUTH");
      SpelledInAnyCase(argv[0], "HELLO");
    }
    if |argv| > 2 {
      SpelledInAnyCase(argv[2], "AUTH");
      SpelledInAnyCase(argv[2], "SETNAME");
    }
    if |argv| > 5 { SpelledInAnyCase(argv[5], "SETNAME"); }
  }

  /** Identification is accepted by the simple string `OK`, rejected by an error of
      either form, and anything else is no answer to it. */
  lemma AnswersSpelled(f: Frame)
    requires RoundTrip.Recoverable(f) && |Encode(f)| <= Parser.MAX_FRAME_BYTES && Depth(f) <= Parser.MAX_FRAME_DEPTH
    ensures AnswerOf(Encode(f)) ==
      if f == SimpleString([79, 75]) then Accepted
      else if f.SimpleError? || f.BulkError? then Rejected
      else Unexpected
  {
    RoundTrip.ParseUndoesEncode(f);
    hide Encode, Depth, Every, Parser.ParseFrame;
  }

  datatype Answer = Accepted | Rejected | Unexpected

  function AnswerOf(body: bytes): (r: Answer) {
    match Parser.ParseFrame(body)
    case Ok(SimpleString(text)) => if text == [79, 75] then Accepted else Unexpected
    case Ok(SimpleError(_)) => Rejected
    case Ok(BulkError(_)) => Rejected
    case _ => Unexpected
  }

  /** The reply read for each of the first `n` slots that were pending: accepted if
      the slot is now clear, rejected if it is not. */
  ghost predicate Answered(was: seq<bool>, now: seq<bool>, bodies: seq<bytes>, start: nat, n: nat) {
    n <= |was| && |now| == |was| && forall j :: 0 <= j < n && was[j] ==> AnsweredAt(was, now[j], bodies, start, j)
  }

  ghost predicate AnsweredAt(was: seq<bool>, still: bool, bodies: seq<bytes>, start: nat, j: nat)
    requires j < |was|
  {
    var k := start + |Messages(was, j)|;
    k < |bodies| && AnswerOf(bodies[k]) == if still then Rejected else Accepted
  }

  lemma AnsweredStep(
      was: seq<bool>, now: seq<bool>, later: seq<bool>, bodies: seq<bytes>, body: bytes, start: nat, i: nat)
    requires i < |was| == |now| == |later| && Answered(was, now, bodies, start, i) && |bodies| == start + |Messages(was, i)|
    requires later == now[i := later[i]] && AnswerOf(body) == if later[i] then Rejected else Accepted
    ensures Answered(was, later, bodies + [body], start, i + 1)
  {
    hide AnswerOf, Messages;
    forall j | 0 <= j <= i && was[j] ensures AnsweredAt(was, later[j], bodies + [body], start, j) {
      if j < i { assert AnsweredAt(was, now[j], bodies, start, j); }
    }
  }

  lemma AnsweredNone(was: seq<bool>, bodies: seq<bytes>)
    ensures Answered(was, was, bodies, |bodies|, 0)
  {}

  lemma AnsweredSkip(was: seq<bool>, now: seq<bool>, bodies: seq<bytes>, start: nat, i: nat)
    requires i < |was| && Answered(was, now, bodies, start, i) && !was[i]
    ensures Answered(was, now, bodies, start, i + 1)
  {}

  /** Since the given moment, `sent` was written on the link and nothing else anywhere. */
  ghost predicate Wrote(link: Link, tried: seq<Message>, log: seq<Message>, sent: seq<Message>)
    reads link, link.history
  {
    link.tried == tried + sent && link.history.log == log + sent
  }

  class Identity {
    var pending: seq<bool>

    constructor ()
      ensures pending == [true, true, true]
    {
      pending := [true, true, true];
    }

    /** Writes the commands of the pending slots, in order. */
    method WritePending(link: Link) returns (ok: bool)
      requires |pending| == SLOTS
      modifies link`tried, link.history
      ensures link.history.faults == old(link.history.faults) + Fault(ok)
      ensures ok ==> link.tried == old(link.tried) + Messages(pending, SLOTS)
      ensures exists sent :: OnlyIdentification(sent) && Wrote(link, old(link.tried), old(link.history.log), sent)
    {
      for i := 0 to |pending|
        invariant Wrote(link, old(link.tried), old(link.history.log), Messages(pending, i))
        invariant link.history.faults == old(link.history.faults)
        invariant OnlyIdentification(Messages(pending, i))
      {
        if pending[i] {
          Assoc(old(link.tried), Messages(pending, i), [Identification(i)]);
          Assoc(old(link.history.log), Messages(pending, i), [Identification(i)]);
          var written := link.Write(Identification(i));
          assert OnlyIdentification(Messages(pending, i) + [Identification(i)]);
          assert Wrote(link, old(link.tried), old(link.history.log), Messages(pending, i) + [Identification(i)]);
          if !written { return false; }
        }
      }
      ok := link.Flush();
    }

    /** Reads one reply for each pending slot and clears the accepted ones. */
    method ReadAnswers(link: Link) returns (ok: bool)
      requires |pending| == SLOTS && |link.tried| == |link.bodies| + |Messages(pending, SLOTS)|
      requires OnlyIdentification(link.tried[|link.bodies|..])
      modifies this, link`bodies, link.history`faults
      ensures link.history.faults == old(link.history.faults) + Fault(ok)
      ensures |pending| == SLOTS && forall i :: 0 <= i < SLOTS && pending[i] ==> old(pending)[i]
      ensures ok ==> link.Aligned() && old(link.bodies) <= link.bodies
      ensures ok ==> Answered(old(pending), pending, link.bodies, |old(link.bodies)|, SLOTS)
    {
      hide AnswerOf, Answered;
      AnsweredNone(pending, link.bodies);
      ghost var was, start := pending, |link.bodies|;
      for i := 0 to |pending|
        invariant |pending| == SLOTS
        invariant forall j :: i <= j < SLOTS ==> pending[j] == was[j]
        invariant forall j :: 0 <= j < i && pending[j] ==> was[j]
        invariant |link.bodies| == start + |Messages(was, i)| && old(link.bodies) <= link.bodies
        invariant Answered(was, pending, link.bodies, start, i)
        invariant link.history.faults == old(link.history.faults)
      {
        if !pending[i] {
          AnsweredSkip(was, pending, link.bodies, start, i);
          continue;
        }
        MessagesMonotone(was, i + 1, SLOTS);
        ghost var now, bodies := pending, link.bodies;
        assert link.tried[start..][|bodies| - start].Identification?;
        var reply := link.Read();
        if reply.None? { return false; }
        match AnswerOf(reply.value.body) {
          case Accepted => pending := pending[i := false];
          case Rejected =>
          case Unexpected => return false;
        }
        AnsweredStep(was, now, pending, bodies, reply.value.body, start, i);
      }
      ok := true;
    }

    /** Writes the pending commands, then reads one reply for each: it fails only by a
        fault; on success no reply is outstanding, and exactly the slots whose own
        reply accepted them are cleared. */
    method Apply(link: Link) returns (ok: bool)
      requires |pending| == SLOTS && link.Aligned()
      modifies this, link, link.history
      ensures link.history.faults == old(link.history.faults) + Fault(ok)
      ensures |pending| == SLOTS && forall i :: 0 <= i < SLOTS && pending[i] ==> old(pending)[i]
      ensures ok ==> link.Aligned() && link.tried == old(link.tried) + Messages(old(pending), SLOTS)
      ensures ok ==> old(link.bodies) <= link.bodies
      ensures ok ==> Answered(old(pending), pending, link.bodies, |old(link.bodies)|, SLOTS)
      ensures exists sent :: OnlyIdentification(sent) && Wrote(link, old(link.tried), old(link.history.log), sent)
    {
      hide Answered, Messages;
      ghost var start := |link.bodies|;
      ok := WritePending(link);
      if ok {
        assert link.tried[start..] == Messages(pending, SLOTS);
        MessagesIdentify(pending, SLOTS);
        ok := ReadAnswers(link);
      }
    }

    /** Whether to identify again after this exchange. */
    method RetryAfter(argv: seq<string>, reply: bytes) returns (again: bool)
      requires |pending| == SLOTS
      modifies this
      ensures |pending| == SLOTS && IsKept(old(pending), argv, reply, pending)
      ensures again == RetryDue(argv, reply, pending)
    {
      hide EqualsIgnoringCase;
      if argv == [] { return false; }
      if Greets(argv, reply) && SetsName(argv) { pending := pending[0 := false]; }
      again := (Authenticates(argv, reply) || Greets(argv, reply)) && (pending[0] || pending[1] || pending[2]);
    }
  }

  /** A greeting that set the client's own name gives up the name slot; every other
      slot is as before. */
  ghost predicate IsKept(was: seq<bool>, argv: seq<string>, reply: bytes, now: seq<bool>) {
    |now| == |was| && forall i :: 0 <= i < |was| ==> (now[i] <==> was[i] && !(i == 0 && Greets(argv, reply) && SetsName(argv)))
  }

  /** Identification is due after an accepted login while a slot is pending. */
  ghost predicate RetryDue(argv: seq<string>, reply: bytes, pending: seq<bool>) {
    (Authenticates(argv, reply) || Greets(argv, reply)) && exists i :: 0 <= i < |pending| && pending[i]
  }

  class Session {
    const link: Link
    const identity: Identity

    constructor (link: Link, identity: Identity)
      ensures this.link == link && this.identity == identity
    {
      this.link := link;
      this.identity := identity;
    }

    predicate Ready()
      reads link, identity
    {
      link.Aligned() && |identity.pending| == SLOTS
    }

    /** What a finished exchange wrote and read: the command, answered by the reply,
        and then the identification commands exactly when they were due, each slot
        cleared as its own reply says. */
    ghost predicate Exchanged(
        serial: nat, argv: seq<string>, reply: Reply, tried: seq<Message>, was: seq<bool>, kept: seq<bool>)
      reads link, identity
    {
      && reply.position == |tried| < |link.bodies| && link.bodies[|tried|] == reply.body
      && |was| == |kept| == SLOTS && IsKept(was, argv, reply.body, kept)
      && if RetryDue(argv, reply.body, kept)
         then link.tried == tried + [Command(serial)] + Messages(kept, SLOTS)
              && Answered(kept, identity.pending, link.bodies, |tried| + 1, SLOTS)
         else link.tried == tried + [Command(serial)] && identity.pending == kept
    }

    /** Writes the command and reads the one reply that answers it. */
    method Exchange(serial: nat, argv: seq<string>) returns (reply: Option<Reply>)
      requires Ready()
      modifies link, identity, link.history
      ensures link.history.faults == old(link.history.faults) + Fault(reply.Some?)
      ensures exists sent ::
        OnlyIdentification(sent) && Wrote(link, old(link.tried), old(link.history.log), [Command(serial)] + sent)
      ensures reply.Some? ==> Ready()
      ensures reply.Some? ==> exists kept ::
        Exchanged(serial, argv, reply.value, old(link.tried), old(identity.pending), kept)
    {
      hide Messages, Answered, IsKept, RetryDue;
      ghost var sent: seq<Message> := [];
      var ok := link.Write(Command(serial));
      assert Wrote(link, old(link.tried), old(link.history.log), [Command(serial)] + sent);
      if !ok { return None; }
      ok := link.Flush();
      if !ok { return None; }
      reply := link.Read();
      if reply.None? { return None; }
      var again := identity.RetryAfter(argv, reply.value.body);
      ghost var kept := identity.pending;
      if again {
        ghost var tried, log := link.tried, link.history.log;
        ok := identity.Apply(link);
        sent :| OnlyIdentification(sent) && Wrote(link, tried, log, sent);
        Assoc(old(link.tried), [Command(serial)], sent);
        Assoc(old(link.history.log), [Command(serial)], sent);
        assert Wrote(link, old(link.tried), old(link.history.log), [Command(serial)] + sent);
        if !ok { return None; }
      }
      assert Exchanged(serial, argv, reply.value, old(link.tried), old(identity.pending), kept);
    }
  }

  class UpstreamConnection {
    const history: History
    var session: Session?

    predicate Valid()
      reads this, session, if session == null then {} else {session.link, session.identity}
    {
      session == null || (session.link.history == history && session.Ready())
    }

    constructor (history: History)
      modifies history
      ensures Valid() && this.history == history
      ensures session == null || (fresh(session) && fresh(session.link) && fresh(session.identity))
      ensures Commands(history.log) == Commands(old(history.log))
      ensures history.faults == old(history.faults) + Fault(session != null)
    {
      this.history := history;
      session := null;
      new;
      session := Connect(history);
    }

    /** Forwards one command. Whatever fails, the upstream was sent no client command
        but this one, at most once; a reply comes back exactly if there was no fault,
        and is the answer to that very command; a failure leaves no session; and a
        session that is kept has no reply outstanding. */
    method Exchange(serial: nat, argv: seq<string>) returns (reply: Option<Reply>)
      requires Valid()
      modifies this, history, if session == null then {} else {session.link, session.identity}
      ensures Valid()
      ensures Commands(history.log) == Commands(old(history.log))
           || Commands(history.log) == Commands(old(history.log)) + [serial]
      ensures reply.None? <==> session == null
      ensures history.faults == old(history.faults) + Fault(reply.Some?)
      ensures reply.Some? ==> Commands(history.log) == Commands(old(history.log)) + [serial]
      ensures reply.Some? ==>
        && session.link.Aligned() && reply.value.position < |session.link.tried|
        && session.link.tried[reply.value.position] == Command(serial)
        && session.link.bodies[reply.value.position] == reply.value.body
      ensures session != null && session != old(session) ==>
        fresh(session) && fresh(session.link) && fresh(session.identity)
      ensures old(session) != null && session != null ==> session == old(session)
    {
      hide Commands;
      if session == null {
        session := Connect(history);
        if session == null { return None; }
      }
      ghost var tried, log := session.link.tried, history.log;
      reply := session.Exchange(serial, argv);
      ghost var sent :| OnlyIdentification(sent) && Wrote(session.link, tried, log, [Command(serial)] + sent);
      OneCommand(log, serial, sent);
      assert session.link.tried[|tried|] == Command(serial);
      if reply.None? { session := null; }
    }
  }

  lemma OneCommand(log: seq<Message>, serial: nat, sent: seq<Message>)
    requires OnlyIdentification(sent)
    ensures Commands(log + ([Command(serial)] + sent)) == Commands(log) + [serial]
  {
    CommandsOfConcat(log, [Command(serial)] + sent);
    CommandsOfConcat([Command(serial)], sent);
    IdentificationHasNoCommands(sent);
    assert Commands([Command(serial)]) == [serial];
  }

  /** Connects and identifies; a session that cannot identify is not kept. */
  method Connect(history: History) returns (session: Session?)
    modifies history
    ensures session != null ==>
      && fresh(session) && fresh(session.link) && fresh(session.identity)
      && session.link.history == history && session.Ready()
    ensures Commands(history.log) == Commands(old(history.log))
    ensures history.faults == old(history.faults) + Fault(session != null)
  {
    hide Commands;
    var reachable := history.Dial();
    if !reachable { return null; }
    var link := new Link(history);
    var identity := new Identity();
    var ok := identity.Apply(link);
    ghost var sent :| OnlyIdentification(sent) && Wrote(link, [], old(history.log), sent);
    CommandsOfConcat(old(history.log), sent);
    IdentificationHasNoCommands(sent);
    if !ok { return null; }
    session := new Session(link, identity);
  }

  datatype Outcome = Replied(serial: nat) | Lost

  function Losses(outcomes: seq<Outcome>): (n: nat)
    ensures n <= |outcomes|
  {
    if outcomes == [] then 0 else Losses(outcomes[..|outcomes| - 1]) + Fault(outcomes[|outcomes| - 1].Replied?)
  }

  lemma LossesStep(outcomes: seq<Outcome>, last: Outcome)
    ensures Losses(outcomes + [last]) == Losses(outcomes) + Fault(last.Replied?)
  {
    assert (outcomes + [last])[..|outcomes|] == outcomes;
  }

  /** A client's whole stream of commands: however the upstream fails, the upstream
      was sent each at most once, in order, and each reply relayed answers it. There
      is a fault for each command lost, and no other but one before the first. */
  method Serve(history: History, requests: seq<seq<string>>) returns (outcomes: seq<Outcome>, ghost sent: seq<nat>)
    modifies history
    ensures |outcomes| == |requests|
    ensures Losses(outcomes) <= history.faults - old(history.faults) <= Losses(outcomes) + 1
    ensures Commands(history.log) == Commands(old(history.log)) + sent
    ensures forall i, j :: 0 <= i < j < |sent| ==> sent[i] < sent[j]
    ensures forall i :: 0 <= i < |sent| ==> sent[i] < |requests|
    ensures forall i :: 0 <= i < |outcomes| && outcomes[i].Replied? ==> outcomes[i].serial == i && i in sent
  {
    hide Commands;
    outcomes, sent := [], [];
    var upstream := new UpstreamConnection(history);
    ghost var first := history.faults;
    for i := 0 to |requests|
      invariant upstream.Valid() && fresh(upstream) && upstream.history == history
      invariant upstream.session != null ==>
        fresh(upstream.session) && fresh(upstream.session.link) && fresh(upstream.session.identity)
      invariant |outcomes| == i && history.faults == first + Losses(outcomes)
      invariant Commands(history.log) == Commands(old(history.log)) + sent
      invariant forall k :: 0 <= k < i && outcomes[k].Replied? ==> outcomes[k].serial == k && k in sent
      invariant forall k :: 0 <= k < |sent| ==> sent[k] < i
      invariant forall j, k :: 0 <= j < k < |sent| ==> sent[j] < sent[k]
    {
      ghost var before := history.log;
      var reply := upstream.Exchange(i, requests[i]);
      ghost var more := if Commands(history.log) == Commands(before) then [] else [i];
      Assoc(Commands(old(history.log)), sent, more);
      sent := sent + more;
      if reply.Some? {
        var message := upstream.session.link.tried[reply.value.position];
        LossesStep(outcomes, Replied(message.serial));
        outcomes := outcomes + [Replied(message.serial)];
      } else {
        LossesStep(outcomes, Lost);
        outcomes := outcomes + [Lost];
      }
    }
  }
}
