/** The reader as the program runs it: a loop over a byte stream, a growing
    buffer and a stack of unread-child counts. */
module ReaderMachine {
  import opened Bytes
  import opened Parser
  import opened Reader

  datatype IoError = InvalidData | UnexpectedEof

  datatype IoResult<+T> = Success(value: T) | Failure(kind: IoError)

  /** A buffered stream: everything the peer sends before it closes. */
  class Stream {
    const sent: bytes
    var position: nat

    constructor (sent: bytes)
      ensures this.sent == sent && position == 0
    {
      this.sent := sent;
      position := 0;
    }

    ghost predicate Valid()
      reads this
    {
      position <= |sent|
    }

    /** At most `limit` bytes. */
    method ReadUpTo(limit: nat) returns (r: bytes)
      requires Valid()
      modifies this`position
      ensures Valid() && position == old(position) + |r| && r == sent[old(position)..position]
      ensures |r| == if limit < |sent| - old(position) then limit else |sent| - old(position)
    {
      var n := if limit < |sent| - position then limit else |sent| - position;
      r := sent[position..position + n];
      position := position + n;
    }

    /** Through the first LF, or `limit` bytes, or the end of the stream. */
    method ReadUntilLf(limit: nat) returns (r: bytes)
      requires Valid()
      modifies this`position
      ensures Valid() && position == old(position) + |r| && r == sent[old(position)..position]
      ensures var lf := FirstLf(sent[old(position)..]);
        |r| == if lf.Some? && lf.value < limit then lf.value + 1
               else if limit < |sent| - old(position) then limit else |sent| - old(position)
    {
      var start := position;
      ghost var t := sent[start..];
      while position - start < limit && position < |sent|
        invariant start <= position <= |sent| && position - start <= limit
        invariant forall i :: 0 <= i < position - start ==> t[i] != LF
      {
        position := position + 1;
        if sent[position - 1] == LF {
          assert t[position - 1 - start] == LF;
          assert FirstLf(t).value == position - 1 - start;
          return sent[start..position];
        }
        assert t[position - 1 - start] != LF;
      }
      r := sent[start..position];
      assert FirstLf(t).Some? ==> FirstLf(t).value >= |r|;
    }
  }

  /** The line after a prefix byte, and the bytes taken for it. */
  method ReadLineRaw(stream: Stream, before: nat) returns (taken: bytes, line: IoResult<bytes>)
    requires stream.Valid() && before <= MAX_FRAME_BYTES
    modifies stream`position
    ensures stream.Valid() && stream.position == old(stream.position) + |taken|
    ensures taken == stream.sent[old(stream.position)..stream.position]
    ensures var t := ReaderLine(stream.sent[old(stream.position)..]);
      if t.Some? && before + |t.value| + 2 <= MAX_FRAME_BYTES
      then line == Success(t.value) && |taken| == |t.value| + 2
      else line.Failure?
  {
    ghost var s := stream.sent[stream.position..];
    taken := stream.ReadUntilLf(MAX_FRAME_BYTES - before);
    assert taken == s[..|taken|];
    if taken == [] { return taken, Failure(UnexpectedEof); }
    if |taken| < 2 || taken[|taken| - 2] != CR || taken[|taken| - 1] != LF {
      return taken, Failure(InvalidData);
    }
    var text := taken[..|taken| - 2];
    assert s[|taken| - 1] == LF;
    assert FirstLf(s).value == |taken| - 1;
    assert text == s[..|taken| - 2];
    line := Success(text);
  }

  /** The body and terminator after a blob header of length `len`. */
  method ReadBody(stream: Stream, before: nat, len: nat) returns (body: bytes, r: IoResult<()>)
    requires stream.Valid() && before <= MAX_FRAME_BYTES
    modifies stream`position
    ensures stream.Valid() && stream.position == old(stream.position) + |body|
    ensures body == stream.sent[old(stream.position)..stream.position]
    ensures r.Success? <==> before + len + 2 <= MAX_FRAME_BYTES && CrlfAt(stream.sent, old(stream.position) + len)
    ensures r.Success? ==> |body| == len + 2
  {
    if len + 2 > MAX_FRAME_BYTES - before { return [], Failure(InvalidData); }
    body := stream.ReadUpTo(len + 2);
    if |body| != len + 2 { return body, Failure(UnexpectedEof); }
    r := if CrlfAt(body, len) then Success(()) else Failure(InvalidData);
  }

  /** Everything a frame says before its first child. */
  method ReadHead(stream: Stream, before: nat) returns (taken: bytes, r: IoResult<Head>)
    requires stream.Valid() && before <= MAX_FRAME_BYTES
    modifies stream`position
    ensures stream.Valid() && stream.position == old(stream.position) + |taken|
    ensures taken == stream.sent[old(stream.position)..stream.position]
    ensures var head := HeadOf(stream.sent[old(stream.position)..]);
      if Fits(before, head) then r == Success(head) && |taken| == head.size else r.Failure?
  {
    hide HeadOf, ReaderLine, ParseLen, IsBlobPrefix, IsAggregatePrefix, ChildCount, CrlfAt;
    ghost var start := stream.position;
    ghost var t := stream.sent[start..];
    if before == MAX_FRAME_BYTES { return [], Failure(InvalidData); }
    var prefix := stream.ReadUpTo(1);
    if prefix == [] { HeadOfEnd(t); return [], Failure(UnexpectedEof); }
    var p := prefix[0];
    assert t != [] && t[0] == p && t[1..] == stream.sent[start + 1..];
    if !HeadOf(t).Bad? { HeadHasLine(t); }
    var tail, line := ReadLineRaw(stream, before + 1);
    taken := prefix + tail;
    JoinSlices(stream.sent, start, start + 1, stream.position);
    if line.Failure? { return taken, Failure(line.kind); }
    var size := |line.value| + 3;
    if IsBlobPrefix(p) {
      var len := ParseLen(line.value, p == 36);
      HeadOfBlob(t, line.value, p, len);
      if len.Invalid? { return taken, Failure(InvalidData); }
      if len.Absent? { return taken, Success(Leaf(size)); }
      CrlfAfter(stream.sent, start, size + len.n);
      ghost var middle := stream.position;
      var body, ok := ReadBody(stream, before + size, len.n);
      taken := taken + body;
      JoinSlices(stream.sent, start, middle, stream.position);
      r := if ok.Success? then Success(Leaf(size + len.n + 2)) else Failure(ok.kind);
    } else if IsAggregatePrefix(p) {
      var len := ParseLen(line.value, p == 42);
      HeadOfAggregate(t, line.value, p, len);
      if len.Invalid? { return taken, Failure(InvalidData); }
      if len.Absent? { return taken, Success(Leaf(size)); }
      var children := ChildCount(p, len.n);
      if children > (MAX_FRAME_BYTES - before - size) / 3 { return taken, Failure(InvalidData); }
      r := Success(Node(size, children));
    } else {
      HeadOfOther(t, line.value);
      r := Success(Leaf(size));
    }
  }

  /** The head stays within the byte limit, counting three bytes a child. */
  ghost predicate Fits(before: nat, head: Head) {
    && !head.Bad? && before + head.size <= MAX_FRAME_BYTES
    && (head.Node? ==> before + head.size + 3 * head.children <= MAX_FRAME_BYTES)
  }

  /** On success exactly one frame has been taken from the stream. */
  method ReadRawFrame(stream: Stream) returns (r: IoResult<bytes>)
    requires stream.Valid()
    modifies stream`position
    ensures stream.Valid()
    ensures var frame := Read(old(stream.sent[stream.position..]));
      if frame.Some?
      then r == Success(frame.value) && stream.position == old(stream.position) + |frame.value|
      else r.Failure?
  {
    hide HeadOf, Span, SpanPending, Limited;
    ghost var start, s := stream.position, stream.sent[stream.position..];
    ghost var goal := Limited(s, 0, [1]);
    LimitedStart(s);
    var raw: bytes := [];
    var pending: seq<nat> := [1];
    while pending != []
      invariant stream.Valid() && |raw| <= MAX_FRAME_BYTES && stream.position == start + |raw|
      invariant raw == s[..|raw|] && |pending| <= MAX_FRAME_DEPTH + 1
      invariant goal == Limited(s, |raw|, pending)
      decreases |s| - |raw|, |pending|
    {
      var top := |pending| - 1;
      var below, remaining := pending[..top], pending[top];
      assert pending == below + [remaining];
      if remaining == 0 {
        LimitedPop(s, |raw|, below);
        pending := below;
        continue;
      }
      if |pending| > MAX_FRAME_DEPTH {
        LimitedDeep(s, |raw|, below, remaining);
        return Failure(InvalidData);
      }
      LimitedStep(s, |raw|, below, remaining);
      assert stream.sent[stream.position..] == s[|raw|..];
      var taken, head := ReadHead(stream, |raw|);
      if head.Failure? { return Failure(head.kind); }
      pending := below + [remaining - 1];
      raw := raw + taken;
      if head.value.Node? {
        if head.value.children > 0 {
          pending := pending + [head.value.children];
        } else {
          LimitedPop(s, |raw|, pending);
        }
      }
    }
    LimitedEnd(s, |raw|);
    return Success(raw);
  }

  lemma HeadOfEnd(t: bytes)
    ensures t == [] ==> HeadOf(t).Bad?
  {}

  lemma JoinSlices(s: bytes, i: nat, j: nat, k: nat)
    requires i <= j <= k <= |s|
    ensures s[i..j] + s[j..k] == s[i..k]
  {}

  lemma CrlfAfter(s: bytes, start: nat, i: nat)
    requires start <= |s|
    ensures CrlfAt(s[start..], i) == CrlfAt(s, start + i)
  {}

  /** A head needs a line, and holds it. */
  lemma HeadHasLine(t: bytes)
    requires t != [] && !HeadOf(t).Bad?
    ensures ReaderLine(t[1..]).Some? && |ReaderLine(t[1..]).value| + 3 <= HeadOf(t).size
  {
    hide ReaderLine, ParseLen;
  }

  /** The head of a blob, given the line that was read; */
  lemma HeadOfBlob(t: bytes, line: bytes, p: byte, len: Length)
    requires t != [] && t[0] == p && IsBlobPrefix(p)
    requires ReaderLine(t[1..]) == Some(line) && len == ParseLen(line, p == 36)
    ensures var size := |line| + 3;
      && (len.Invalid? ==> HeadOf(t).Bad?)
      && (len.Absent? ==> HeadOf(t) == Leaf(size))
      && (len.Len? ==> HeadOf(t) == if CrlfAt(t, size + len.n) then Leaf(size + len.n + 2) else Bad)
  {
    hide ReaderLine, ParseLen;
  }

  /** of an aggregate; */
  lemma HeadOfAggregate(t: bytes, line: bytes, p: byte, len: Length)
    requires t != [] && t[0] == p && !IsBlobPrefix(p) && IsAggregatePrefix(p)
    requires ReaderLine(t[1..]) == Some(line) && len == ParseLen(line, p == 42)
    ensures var size := |line| + 3;
      && (len.Invalid? ==> HeadOf(t).Bad?)
      && (len.Absent? ==> HeadOf(t) == Leaf(size))
      && (len.Len? ==> HeadOf(t) == Node(size, ChildCount(p, len.n)))
  {
    hide ReaderLine, ParseLen;
  }

  /** of anything else. */
  lemma HeadOfOther(t: bytes, line: bytes)
    requires t != [] && !IsBlobPrefix(t[0]) && !IsAggregatePrefix(t[0])
    requires ReaderLine(t[1..]) == Some(line)
    ensures HeadOf(t) == Leaf(|line| + 3)
  {
    hide ReaderLine;
  }

  lemma LimitedEnd(s: bytes, used: nat)
    requires used <= |s|
    ensures Limited(s, used, []) == if used <= MAX_FRAME_BYTES then Some(used) else None
  {}
}
