/** The parser as the program runs it: an object that advances a position and a
    depth over a buffer. Every method is proved against the functions of `Parser`. */
module ParserMachine {
  import opened Bytes
  import opened Frames
  import opened Parser

  class Machine {
    const input: bytes
    var position: nat
    var depth: nat

    constructor (input: bytes)
      ensures this.input == input && position == 0 && depth == 0 && Valid()
    {
      this.input := input;
      position, depth := 0, 0;
    }

    ghost predicate Valid()
      reads this
    {
      position <= |input| && depth <= MAX_FRAME_DEPTH
    }

    ghost function Rest(): (s: bytes)
      reads this
      requires Valid()
    {
      input[position..]
    }

    /** The outcome of a call that started at `before`, where the function said `p`. */
    ghost predicate Did<T>(before: nat, p: Parsed<T>, r: Result<T>)
      reads this
    {
      Valid() && position >= before &&
      match p
      case Done(value, used) => r == Ok(value) && position == before + used
      case Failed(error) => r == Err(error)
    }

    method TakeByte() returns (b: Option<byte>)
      requires Valid()
      modifies this`position
      ensures Valid() && position >= old(position)
      ensures old(Rest()) == [] ==> b == None && position == old(position)
      ensures old(Rest()) != [] ==> b == Some(old(Rest())[0]) && position == old(position) + 1
    {
      if position == |input| { return None; }
      b := Some(input[position]);
      position := position + 1;
    }

    method TakeLineBytes() returns (r: Result<bytes>)
      requires Valid()
      modifies this`position
      ensures Did(old(position),
                  match TakeLine(old(Rest())) case None => Failed(MissingLine) case Some(t) => Done(t, |t| + 2), r)
    {
      var start := position;
      ghost var s := Rest();
      while position + 1 < |input|
        invariant start <= position <= |input|
        invariant forall i :: 0 <= i < position - start ==> !CrlfAt(s, i)
      {
        if input[position] == CR && input[position + 1] == LF {
          var line := input[start..position];
          assert CrlfAt(s, position - start);
          assert line == s[..position - start];
          position := position + 2;
          return Ok(line);
        }
        assert !CrlfAt(s, position - start);
        position := position + 1;
      }
      assert CrlfFree(s);
      return Err(MissingLine);
    }

    method TakeUtf8Line() returns (r: Result<bytes>)
      requires Valid()
      modifies this`position
      ensures Did(old(position), TakeText(old(Rest())), r)
    {
      r := TakeLineBytes();
      if r.Ok? && !ValidUtf8(r.value) { r := Err(InvalidUtf8); }
    }

    method TakeI64Line() returns (r: Result<int>)
      requires Valid()
      modifies this`position
      ensures Did(old(position), TakeI64(old(Rest())), r)
    {
      var line := TakeUtf8Line();
      if line.Err? { return Err(line.error); }
      var n := ParseI64(line.value);
      r := if n.Some? then Ok(n.value) else Err(InvalidInteger);
    }

    method TakeBlobBody(len: int) returns (r: Result<bytes>)
      requires Valid()
      modifies this`position
      ensures Did(old(position), TakeBlob(old(Rest()), len), r)
    {
      if len < 0 { return Err(NegativeLength); }
      var available := |input| - position;
      if available < 2 || len > available - 2 { return Err(TruncatedBlob); }
      ghost var s := Rest();
      var blob := input[position..position + len];
      assert blob == s[..len];
      position := position + len;
      var b := TakeByte();
      if b != Some(CR) { return Err(BlobTerminator); }
      b := TakeByte();
      if b != Some(LF) { return Err(BlobTerminator); }
      return Ok(blob);
    }

    method ParseFrame() returns (r: Result<Frame>)
      requires Valid()
      modifies this
      ensures Did(old(position), Parse(old(Rest()), MAX_FRAME_DEPTH - old(depth)), r) && depth == old(depth)
      decreases MAX_FRAME_DEPTH - depth, 0
    {
      hide Parse;
      if depth == MAX_FRAME_DEPTH {
        NoLevels(Rest());
        return Err(TooDeep);
      }
      depth := depth + 1;
      r := ParseFrameInner();
      depth := depth - 1;
    }

    method ParseFrameInner() returns (r: Result<Frame>)
      requires Valid() && depth > 0
      modifies this
      ensures Did(old(position), Parse(old(Rest()), MAX_FRAME_DEPTH - old(depth) + 1), r) && depth == old(depth)
      decreases MAX_FRAME_DEPTH - depth, 3
    {
      hide ParseBlob, ParseAggregate, ShellWords, TakeLine, TakeText, TakeI64;
      ghost var s := Rest();
      var prefix := TakeByte();
      if prefix.None? { return Err(EmptyInput); }
      var p := prefix.value;
      assert Rest() == s[1..];
      if IsTextPrefix(p) {
        var text := TakeUtf8Line();
        r := if text.Ok? then Ok(TextFrame(p, text.value)) else Err(text.error);
      } else if p == 58 {
        var n := TakeI64Line();
        r := if n.Ok? then Ok(Integer(n.value)) else Err(n.error);
      } else if p == 95 {
        var line := TakeLineBytes();
        r := if line.Err? then Err(line.error) else if line.value == [] then Ok(Null) else Err(InvalidNull);
      } else if p == 35 {
        var line := TakeLineBytes();
        r := if line.Err? then Err(line.error) else if line.value == [116] then Ok(Boolean(true))
             else if line.value == [102] then Ok(Boolean(false)) else Err(InvalidBoolean);
      } else if IsBlobPrefix(p) {
        r := ParseBlobFrame(p, s);
      } else if IsAggregatePrefix(p) {
        r := ParseAggregateFrame(p, s);
      } else {
        position := position - 1;
        var line := TakeLineBytes();
        if line.Err? { return Err(line.error); }
        var words := ShellWords(line.value);
        r := Ok(Inline(if words == [] then [[p]] else words));
      }
    }

    method ParseBlobFrame(p: byte, ghost s: bytes) returns (r: Result<Frame>)
      requires Valid() && s != [] && p == s[0] && IsBlobPrefix(p) && position > 0 && input[position - 1..] == s
      modifies this`position
      ensures Did(old(position) - 1, ParseBlob(s), r)
    {
      assert Rest() == s[1..];
      var len := TakeI64Line();
      if len.Err? { return Err(len.error); }
      if p == 36 && len.value == -1 { return Ok(NullBulk); }
      if p != 36 && len.value < 0 { return Err(NegativeLength); }
      assert Rest() == s[1 + TakeI64(s[1..]).used..];
      var body := TakeBlobBody(len.value);
      r := if body.Ok? then Ok(BlobFrame(p, body.value)) else Err(body.error);
    }

    method ParseAggregateFrame(p: byte, ghost s: bytes) returns (r: Result<Frame>)
      requires Valid() && s != [] && p == s[0] && IsAggregatePrefix(p) && position > 0 && input[position - 1..] == s
      requires depth > 0
      modifies this
      ensures Did(old(position) - 1, ParseAggregate(s, MAX_FRAME_DEPTH - old(depth) + 1), r) && depth == old(depth)
      decreases MAX_FRAME_DEPTH - depth, 2
    {
      hide TakeI64, ParseAll, AggregateFrame;
      assert Rest() == s[1..];
      var len := TakeI64Line();
      if len.Err? { return Err(len.error); }
      if p == 42 && len.value == -1 { return Ok(NullArray); }
      if len.value < 0 { return Err(NegativeLength); }
      if len.value > (|input| - position) / (if IsPairedPrefix(p) then 6 else 3) { return Err(TruncatedAggregate); }
      assert Rest() == s[1 + TakeI64(s[1..]).used..];
      var items := ReadFrames(ChildCount(p, len.value));
      r := if items.Ok? then Ok(AggregateFrame(p, items.value)) else Err(items.error);
    }

    /** The loop of `read_sequence`, and of `parse_map_like` where every round
        reads a key and a value. */
    method ReadFrames(count: nat) returns (r: Result<seq<Frame>>)
      requires Valid()
      modifies this
      ensures Did(old(position), ParseAll(old(Rest()), count, MAX_FRAME_DEPTH - old(depth)), r) && depth == old(depth)
      decreases MAX_FRAME_DEPTH - depth, 1
    {
      hide Parse, ParseAll, Extended;
      var items: seq<Frame> := [];
      ghost var start, s, levels := position, Rest(), MAX_FRAME_DEPTH - depth;
      ExtendedNone(ParseAll(s, count, levels));
      while |items| < count
        invariant Valid() && depth == old(depth) && start <= position && |items| <= count
        invariant ParseAll(s, count, levels) == Extended(items, position - start,
                                                         ParseAll(Rest(), count - |items|, levels))
      {
        ghost var rest := Rest();
        ExtendedStep(items, position - start, rest, count - |items|, levels);
        var item := ParseFrame();
        if item.Err? { return Err(item.error); }
        items := items + [item.value];
        assert Rest() == rest[Parse(rest, levels).used..];
      }
      ExtendedEnd(items, position - start, Rest(), levels);
      return Ok(items);
    }
  }

  /** A parse result with frames already read put in front. */
  ghost function Extended(items: seq<Frame>, used: nat, p: Parsed<seq<Frame>>): (r: Parsed<seq<Frame>>) {
    if p.Done? then Done(items + p.value, used + p.used) else p
  }

  lemma ExtendedNone(p: Parsed<seq<Frame>>)
    ensures Extended([], 0, p) == p
  {
    if p.Done? { assert [] + p.value == p.value; }
  }

  lemma ExtendedStep(items: seq<Frame>, used: nat, s: bytes, n: nat, levels: nat)
    requires n > 0
    ensures var p := Parse(s, levels);
      Extended(items, used, ParseAll(s, n, levels)) ==
      if p.Failed? then Failed(p.error)
      else Extended(items + [p.value], used + p.used, ParseAll(s[p.used..], n - 1, levels))
  {
    hide Parse;
    var p := Parse(s, levels);
    if p.Done? {
      var tail := ParseAll(s[p.used..], n - 1, levels);
      if tail.Done? { Assoc(items, [p.value], tail.value); }
    }
  }

  lemma ExtendedEnd(items: seq<Frame>, used: nat, s: bytes, levels: nat)
    ensures Extended(items, used, ParseAll(s, 0, levels)) == Done(items, used)
  {
    assert items + [] == items;
  }

  lemma NoLevels(s: bytes)
    ensures Parse(s, 0) == Failed(TooDeep)
  {}

  method ParseBytes(input: bytes) returns (r: Result<Frame>)
    ensures r == ParseFrame(input)
  {
    hide Parse;
    if |input| > MAX_FRAME_BYTES { return Err(TooLarge); }
    var parser := new Machine(input);
    r := parser.ParseFrame();
    if r.Ok? && parser.position != |input| { r := Err(TrailingBytes); }
  }
}
