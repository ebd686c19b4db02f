/** Execution of a delivery plan against a client writer that may accept little,
    nothing, be interrupted or fail at any call. */
module Delivery {
  import opened Bytes
  import opened Transport

  datatype Reaction = Accept(n: nat) | Interrupted | Failed

  datatype Failure = WriteZero | Refused

  datatype Outcome = Wrote(n: nat) | WriteInterrupted | WriteFailed

  /** One call of `write`: where it starts in the stream and how much it offers. */
  datatype Call = Call(at: nat, offered: nat)

  /** The client: it reacts as its script says, then accepts everything. */
  class Writer {
    var script: seq<Reaction>
    /** The bytes accepted, every write call, and where each flush found the stream. */
    var accepted: bytes
    var calls: seq<Call>
    var flushes: seq<nat>
    var closed: bool

    constructor (script: seq<Reaction>)
      ensures this.script == script && accepted == [] && calls == [] && flushes == [] && !closed
    {
      this.script := script;
      accepted, calls, flushes, closed := [], [], [], false;
    }

    method React() returns (r: Reaction)
      modifies this`script
      ensures old(script) == [] ==> script == [] && r == Accept(0x7fff_ffff)
      ensures old(script) != [] ==> r == old(script)[0] && script == old(script)[1..]
    {
      if script == [] { return Accept(0x7fff_ffff); }
      r := script[0];
      script := script[1..];
    }

    method Write(buffer: bytes) returns (r: Outcome)
      modifies this`script, this`accepted, this`calls
      ensures calls == old(calls) + [Call(|old(accepted)|, |buffer|)]
      ensures r.Wrote? ==> r.n <= |buffer| && accepted == old(accepted) + buffer[..r.n]
      ensures !r.Wrote? ==> accepted == old(accepted)
      ensures |script| <= |old(script)| && (r.WriteInterrupted? ==> |script| < |old(script)|)
    {
      calls := calls + [Call(|accepted|, |buffer|)];
      var reaction := React();
      match reaction {
        case Interrupted => r := WriteInterrupted;
        case Failed => r := WriteFailed;
        case Accept(n) =>
          var taken := Min(n, |buffer|);
          accepted := accepted + buffer[..taken];
          r := Wrote(taken);
      }
    }

    method Flush() returns (ok: bool)
      modifies this`script, this`flushes
      ensures ok ==> flushes == old(flushes) + [|accepted|]
      ensures !ok ==> flushes == old(flushes)
    {
      var reaction := React();
      ok := !reaction.Failed?;
      if ok { flushes := flushes + [|accepted|]; }
    }

    method Shutdown() returns (ok: bool)
      modifies this`script, this`closed
      ensures ok ==> closed
      ensures !ok ==> closed == old(closed)
    {
      var reaction := React();
      ok := !reaction.Failed?;
      if ok { closed := true; }
    }
  }

  datatype Stage = Writing | Flushing | ShuttingDown

  /** What the log says of one delivery. */
  datatype Report = Report(
    bytesWritten: nat, completedChunks: nat, shutdownCompleted: bool, stage: Option<Stage>, failure: Option<Failure>)

  function ChunkStart(ends: seq<nat>, i: nat): (n: nat)
    requires i <= |ends|
  {
    if i == 0 then 0 else ends[i - 1]
  }

  /** The call starts in chunk `i` and offers the rest of it. */
  predicate OffersRest(call: Call, base: nat, ends: seq<nat>, i: nat) {
    i < |ends| && base + ChunkStart(ends, i) <= call.at < base + ends[i] && call.at + call.offered == base + ends[i]
  }

  /** Every new call starts in the range and offers the rest of it. */
  ghost predicate OfferRest(before: seq<Call>, now: seq<Call>, low: nat, high: nat) {
    before <= now &&
    forall k :: |before| <= k < |now| ==> low <= now[k].at < high && now[k].at + now[k].offered == high
  }

  ghost predicate CallWithin(call: Call, base: nat, ends: seq<nat>) { exists i: nat :: OffersRest(call, base, ends, i) }

  /** Every new call offers the rest of the chunk it starts in. */
  ghost predicate CallsWithin(before: seq<Call>, now: seq<Call>, base: nat, ends: seq<nat>) {
    before <= now && forall k :: |before| <= k < |now| ==> CallWithin(now[k], base, ends)
  }

  lemma CallsNone(before: seq<Call>, base: nat, ends: seq<nat>)
    ensures CallsWithin(before, before, base, ends)
  {}

  lemma CallsStep(before: seq<Call>, now: seq<Call>, later: seq<Call>, base: nat, ends: seq<nat>, i: nat)
    requires CallsWithin(before, now, base, ends) && i < |ends|
    requires OfferRest(now, later, base + ChunkStart(ends, i), base + ends[i])
    ensures CallsWithin(before, later, base, ends)
  {
    forall k | |before| <= k < |later| ensures CallWithin(later[k], base, ends) {
      if k >= |now| {
        assert OffersRest(later[k], base, ends, i);
      } else {
        assert later[k] == now[k];
      }
    }
    assert forall k :: 0 <= k < |before| ==> before[k] == now[k] == later[k];
  }

  /** The report counts exactly the chunks sent whole, names the stage that
      failed, and claims success only for everything. */
  predicate IsExact(r: Report, length: nat, ends: seq<nat>, truncating: bool) {
    && r.completedChunks <= |ends| && r.stage.None? == r.failure.None?
    && ChunkStart(ends, r.completedChunks) <= r.bytesWritten
    && (r.shutdownCompleted <==> r.stage == None && truncating)
    && match r.stage
       case Some(Writing) => r.completedChunks < |ends| && r.bytesWritten < ends[r.completedChunks]
       case Some(Flushing) => r.completedChunks < |ends| && r.bytesWritten == ends[r.completedChunks]
       case Some(ShuttingDown) => r.completedChunks == |ends| && r.bytesWritten == length && truncating
       case None => r.completedChunks == |ends| && r.bytesWritten == length
  }

  function Shifted(base: nat, s: seq<nat>): (r: seq<nat>) { seq(|s|, i requires 0 <= i < |s| => base + s[i]) }

  /** The first `i` chunk ends, where the stream had got to, are the new flushes. */
  ghost predicate FlushedTo(before: seq<nat>, now: seq<nat>, base: nat, ends: seq<nat>, i: nat) {
    i <= |ends| && now == before + Shifted(base, ends[..i])
  }

  lemma FlushNone(before: seq<nat>, base: nat, ends: seq<nat>)
    ensures FlushedTo(before, before, base, ends, 0)
  {
    assert Shifted(base, ends[..0]) == [];
  }

  lemma FlushStep(before: seq<nat>, now: seq<nat>, later: seq<nat>, base: nat, ends: seq<nat>, i: nat,
      position: nat)
    requires i < |ends| && FlushedTo(before, now, base, ends, i) && position == base + ends[i] && later == now + [position]
    ensures FlushedTo(before, later, base, ends, i + 1)
  {
    assert Shifted(base, ends[..i + 1]) == Shifted(base, ends[..i]) + [position];
  }

  class Sender {
    const writer: Writer
    /** The outgoing bytes that the protocol fingerprints have hashed. */
    var fingerprinted: bytes
    var written: nat

    constructor (writer: Writer)
      ensures this.writer == writer && fingerprinted == [] && written == 0
    {
      this.writer := writer;
      fingerprinted, written := [], 0;
    }

    /** Writes `chunk`, in as many calls as it takes, each offering the rest. */
    method WriteCounted(chunk: bytes) returns (failure: Option<Failure>)
      modifies this, writer`script, writer`accepted, writer`calls
      ensures old(written) <= written <= old(written) + |chunk|
      ensures writer.accepted == old(writer.accepted) + chunk[..written - old(written)]
      ensures fingerprinted == old(fingerprinted) + chunk[..written - old(written)]
      ensures failure.None? <==> written == old(written) + |chunk|
      ensures OfferRest(old(writer.calls), writer.calls, |old(writer.accepted)|, |old(writer.accepted)| + |chunk|)
    {
      var offset := 0;
      while offset < |chunk|
        invariant 0 <= offset <= |chunk| && written == old(written) + offset
        invariant writer.accepted == old(writer.accepted) + chunk[..offset]
        invariant fingerprinted == old(fingerprinted) + chunk[..offset]
        invariant OfferRest(old(writer.calls), writer.calls, |old(writer.accepted)|, |old(writer.accepted)| + |chunk|)
        decreases |chunk| - offset, |writer.script|
      {
        var rest := chunk[offset..];
        var outcome := writer.Write(rest);
        match outcome {
          case Wrote(n) =>
            if n == 0 { return Some(WriteZero); }
            assert rest[..n] == chunk[offset..offset + n];
            JoinSlices(chunk, offset, offset + n);
            Assoc(old(writer.accepted), chunk[..offset], rest[..n]);
            Assoc(old(fingerprinted), chunk[..offset], rest[..n]);
            fingerprinted := fingerprinted + rest[..n];
            offset := offset + n;
            written := written + n;
          case WriteInterrupted =>
          case WriteFailed => return Some(Refused);
        }
      }
      failure := None;
    }

    /** The first `n` bytes are what was accepted, hashed and counted. */
    ghost predicate Sent(wire: bytes, n: nat, base: bytes, hashed: bytes)
      reads writer`accepted, this`fingerprinted, this`written
    {
      n <= |wire| && writer.accepted == base + wire[..n] && fingerprinted == hashed + wire[..n] && written == n
    }

    /** Writes the next chunk and flushes it; the stage is the one that failed. */
    method SendChunk(wire: bytes, end: nat, ghost base: bytes, ghost hashed: bytes)
      returns (stage: Option<Stage>, failure: Option<Failure>, ghost position: nat)
      requires written <= end <= |wire| && Sent(wire, written, base, hashed)
      modifies this, writer`script, writer`accepted, writer`calls, writer`flushes
      ensures old(written) <= written <= end && Sent(wire, written, base, hashed)
      ensures stage.None? == failure.None? && (stage.Some? ==> stage == Some(Writing) || stage == Some(Flushing))
      ensures stage == Some(Writing) ==> written < end
      ensures stage != Some(Writing) ==> written == end
      ensures position == |base| + end && (stage.None? ==> writer.flushes == old(writer.flushes) + [position])
      ensures stage.Some? ==> writer.flushes == old(writer.flushes)
      ensures OfferRest(old(writer.calls), writer.calls, |base| + old(written), |base| + end)
    {
      position := |base| + end;
      var start := written;
      var chunk := wire[start..end];
      failure := WriteCounted(chunk);
      assert chunk[..written - start] == wire[start..written];
      Advance(base, wire, start, written);
      Advance(hashed, wire, start, written);
      if failure.Some? { return Some(Writing), failure, position; }
      assert |writer.accepted| == position;
      var ok := writer.Flush();
      if !ok { return Some(Flushing), Some(Refused), position; }
      stage := None;
    }

    /** Sends chunk after chunk until one fails. */
    method SendChunks(wire: bytes, ends: seq<nat>, ghost base: bytes, ghost hashed: bytes)
      returns (completed: nat, stage: Option<Stage>, failure: Option<Failure>)
      requires AreEnds(ends, |wire|) && written == 0 && Sent(wire, 0, base, hashed)
      modifies this, writer`script, writer`accepted, writer`calls, writer`flushes
      ensures Sent(wire, written, base, hashed) && stage.None? == failure.None?
      ensures StoppedAt(stage, completed, written, ends, |wire|)
      ensures FlushedTo(old(writer.flushes), writer.flushes, |base|, ends, completed)
      ensures CallsWithin(old(writer.calls), writer.calls, |base|, ends)
    {
      hide CallsWithin, FlushedTo, OfferRest, AreEnds, Sent, StoppedAt, ChunkStart;
      StartIsZero(ends);
      FlushNone(writer.flushes, |base|, ends);
      CallsNone(writer.calls, |base|, ends);
      EndsBound(ends, |wire|);
      completed := 0;
      for i := 0 to |ends|
        invariant completed == i && written == ChunkStart(ends, i) && Sent(wire, written, base, hashed)
        invariant FlushedTo(old(writer.flushes), writer.flushes, |base|, ends, i)
        invariant CallsWithin(old(writer.calls), writer.calls, |base|, ends)
      {
        ghost var calls, flushes := writer.calls, writer.flushes;
        ghost var position;
        stage, failure, position := SendChunk(wire, ends[i], base, hashed);
        CallsStep(old(writer.calls), calls, writer.calls, |base|, ends, i);
        assert ChunkStart(ends, i + 1) == ends[i] by { NextStart(ends, i); }
        if stage.Some? {
          StoppedInside(stage, i, written, ends, |wire|);
          return;
        }
        FlushStep(old(writer.flushes), flushes, writer.flushes, |base|, ends, i, position);
        completed := completed + 1;
      }
      stage, failure := None, None;
      StoppedNever(ends, |wire|);
    }

    /** Delivers `wire` by chunks. Whatever the client does, what it accepted, what
        was fingerprinted and what is reported are the same prefix of `wire`; each
        completed chunk was flushed at its end; and success means all of it. */
    method Deliver(wire: bytes, ends: seq<nat>, truncating: bool) returns (r: Report)
      requires AreEnds(ends, |wire|)
      modifies this, writer
      ensures r.bytesWritten <= |wire| && fingerprinted == old(fingerprinted) + wire[..r.bytesWritten]
      ensures writer.accepted == old(writer.accepted) + wire[..r.bytesWritten]
      ensures IsExact(r, |wire|, ends, truncating)
      ensures FlushedTo(old(writer.flushes), writer.flushes, |old(writer.accepted)|, ends, r.completedChunks)
      ensures CallsWithin(old(writer.calls), writer.calls, |old(writer.accepted)|, ends)
      ensures writer.closed == (old(writer.closed) || r.shutdownCompleted)
    {
      hide CallsWithin, AreEnds, FlushedTo, IsExact;
      EndsBound(ends, |wire|);
      written := 0;
      var completed, stage, failure := SendChunks(wire, ends, writer.accepted, fingerprinted);
      r := Report(written, completed, false, stage, failure);
      if stage.Some? {
        StoppedIsExact(r, |wire|, ends, truncating);
        return;
      }
      r := r.(shutdownCompleted := truncating);
      if truncating {
        var ok := writer.Shutdown();
        if !ok { r := Report(written, completed, false, Some(ShuttingDown), Some(Refused)); }
      }
      CompleteIsExact(r, |wire|, ends, truncating);
    }
  }

  /** Chunk ends for that many bytes. */
  predicate AreEnds(ends: seq<nat>, length: nat) {
    Ascending(ends) && (ends == [] <==> length == 0) && (ends != [] ==> ends[|ends| - 1] == length)
  }

  lemma EndsBound(ends: seq<nat>, length: nat)
    requires AreEnds(ends, length)
    ensures forall i :: 0 <= i < |ends| ==> ChunkStart(ends, i) < ends[i] <= length
    ensures ChunkStart(ends, |ends|) == length
  {}

  /** Where sending stopped: nowhere, or in the chunk after the completed ones. */
  ghost predicate StoppedAt(stage: Option<Stage>, completed: nat, written: nat, ends: seq<nat>, length: nat) {
    if stage.None? then completed == |ends| && written == length
    else
      && (stage == Some(Writing) || stage == Some(Flushing)) && completed < |ends|
      && ChunkStart(ends, completed) <= written <= ends[completed]
      && (stage == Some(Writing) <==> written < ends[completed])
  }

  lemma StoppedInside(stage: Option<Stage>, i: nat, written: nat, ends: seq<nat>, length: nat)
    requires (stage == Some(Writing) || stage == Some(Flushing)) && i < |ends|
    requires ChunkStart(ends, i) <= written <= ends[i] && (stage == Some(Writing) <==> written < ends[i])
    ensures StoppedAt(stage, i, written, ends, length)
  {}

  lemma StoppedNever(ends: seq<nat>, length: nat)
    ensures StoppedAt(None, |ends|, length, ends, length)
  {}

  lemma StartIsZero(ends: seq<nat>)
    ensures ChunkStart(ends, 0) == 0
  {}

  lemma NextStart(ends: seq<nat>, i: nat)
    requires i < |ends|
    ensures ChunkStart(ends, i + 1) == ends[i]
  {}

  lemma StoppedIsExact(r: Report, length: nat, ends: seq<nat>, truncating: bool)
    requires r.stage == Some(Writing) || r.stage == Some(Flushing)
    requires r.failure.Some? && !r.shutdownCompleted && r.completedChunks < |ends|
    requires ChunkStart(ends, r.completedChunks) <= r.bytesWritten <= ends[r.completedChunks]
    requires r.stage == Some(Writing) <==> r.bytesWritten < ends[r.completedChunks]
    ensures IsExact(r, length, ends, truncating)
  {}

  lemma CompleteIsExact(r: Report, length: nat, ends: seq<nat>, truncating: bool)
    requires r.completedChunks == |ends| && r.bytesWritten == length && ChunkStart(ends, |ends|) <= length
    requires r.stage == None || (r.stage == Some(ShuttingDown) && truncating)
    requires r.stage.None? == r.failure.None? && (r.shutdownCompleted <==> r.stage == None && truncating)
    ensures IsExact(r, length, ends, truncating)
  {}

  lemma JoinSlices<T>(s: seq<T>, start: nat, stop: nat)
    requires start <= stop <= |s|
    ensures s[..start] + s[start..stop] == s[..stop]
  {}

  lemma Advance<T>(a: seq<T>, s: seq<T>, start: nat, stop: nat)
    requires start <= stop <= |s|
    ensures (a + s[..start]) + s[start..stop] == a + s[..stop]
  {
    JoinSlices(s, start, stop);
    Assoc(a, s[..start], s[start..stop]);
  }

  /** Planning and delivery together: for every reachable configuration, draw and
      client, the client receives a prefix of the response and its extra replies,
      all of the planned bytes if no error is reported. */
  method Respond(c: Config, response: bytes, sender: Sender) returns (plan: Plan, r: Report, ghost offsets: seq<nat>)
    requires Reachable(c)
    modifies sender, sender.writer
    ensures WellFormed(plan, |response|)
    ensures IsPlannedBefore(c, plan) || IsPlanned(c, |response|, plan, offsets)
    ensures c.point.Before? && MustFault(c, 0) ==> IsPlannedBefore(c, plan)
    ensures r.bytesWritten <= |response + Copies(plan.extra)|
    ensures sender.writer.accepted == old(sender.writer.accepted) + (response + Copies(plan.extra))[..r.bytesWritten]
    ensures sender.fingerprinted == old(sender.fingerprinted) + (response + Copies(plan.extra))[..r.bytesWritten]
    ensures IsExact(r, WireLength(plan, |response|), plan.chunkEnds, plan.truncateAt.Some?)
    ensures r.shutdownCompleted ==> plan.fault.None?
    ensures FlushedTo(old(sender.writer.flushes), sender.writer.flushes, |old(sender.writer.accepted)|, plan.chunkEnds,
                      r.completedChunks)
    ensures CallsWithin(old(sender.writer.calls), sender.writer.calls, |old(sender.writer.accepted)|, plan.chunkEnds)
    ensures sender.writer.closed == (old(sender.writer.closed) || r.shutdownCompleted)
  {
    hide IsPlanned, IsPlannedBefore, MustFault;
    offsets := [];
    var before := BeforePlan(c);
    if before.Some? {
      plan := before.value;
      assert WireLength(plan, |response|) == 0;
    } else {
      plan, offsets := PlanDelivery(c, |response|);
    }
    var wire := WireBytes(plan, response);
    r := sender.Deliver(wire, plan.chunkEnds, plan.truncateAt.Some?);
    assert wire[..r.bytesWritten] == (response + Copies(plan.extra))[..r.bytesWritten];
  }
}
