/** The wire format byte by byte, for each kind of frame: the Redis serialization
    protocol specification, RESP2 and RESP3. */
module WireFormat {
  import opened Bytes
  import opened Frames
  import opened Parser
  import opened RoundTrip

  lemma LeafBytes(f: Frame)
    requires Children(f) == []
    ensures Encode(f) == Own(f, None)
  {}

  /** Frames of one line. */
  lemma LineFrames(text: bytes, n: int)
    ensures Encode(SimpleString(text)) == [43] + text + [13, 10]
    ensures Encode(SimpleError(text)) == [45] + text + [13, 10]
    ensures Encode(Double(text)) == [44] + text + [13, 10]
    ensures Encode(BigNumber(text)) == [40] + text + [13, 10]
    ensures Encode(Integer(n)) == [58] + Decimal(n) + [13, 10]
  {
    LeafBytes(SimpleString(text));
    LeafBytes(SimpleError(text));
    LeafBytes(Double(text));
    LeafBytes(BigNumber(text));
    LeafBytes(Integer(n));
    hide Encode, Decimal;
  }

  /** Frames of fixed bytes: null and the booleans, */
  lemma FixedFrames()
    ensures Encode(Null) == [95, 13, 10]
    ensures Encode(Boolean(true)) == [35, 116, 13, 10] && Encode(Boolean(false)) == [35, 102, 13, 10]
  {
    LeafBytes(Null);
    LeafBytes(Boolean(true));
    LeafBytes(Boolean(false));
    hide Encode, Decimal;
  }

  /** and the nulls of RESP2. */
  lemma NullFrames()
    ensures Encode(NullBulk) == [36, 45, 49, 13, 10] && Encode(NullArray) == [42, 45, 49, 13, 10]
  {
    LeafBytes(NullBulk);
    LeafBytes(NullArray);
    assert Decimal(-1) == [45, 49];
    hide Encode, Decimal;
  }

  /** Frames with a length and a body. */
  lemma BlobFrames(body: bytes)
    ensures Encode(BulkString(body)) == [36] + Decimal(|body|) + [13, 10] + (body + [13, 10])
    ensures Encode(BulkError(body)) == [33] + Decimal(|body|) + [13, 10] + (body + [13, 10])
    ensures Encode(VerbatimString(body)) == [61] + Decimal(|body|) + [13, 10] + (body + [13, 10])
  {
    LeafBytes(BulkString(body));
    LeafBytes(BulkError(body));
    LeafBytes(VerbatimString(body));
    hide Encode, Decimal;
  }

  lemma ContainerBytes(f: Frame, children: bytes)
    requires IsAggregate(f) && EncodeAll(Children(f)) == children
    ensures Encode(f) == [Prefix(f)] + Decimal(DeclaredLength(f).value) + [13, 10] + children
  {
    NodesOfChildren(f);
    assert Own(f, None) == [Prefix(f)] + Decimal(DeclaredLength(f).value) + [13, 10];
    hide Own, EncodeAll, Children;
  }

  /** The items one after the other, and the pairs, each key before its value. */
  function Joined(parts: seq<bytes>): (s: bytes) { if parts == [] then [] else parts[0] + Joined(parts[1..]) }

  lemma {:induction false} ItemsBytes(items: seq<Frame>, parts: seq<bytes>)
    requires |parts| == |items| && forall i :: 0 <= i < |items| ==> parts[i] == Encode(items[i])
    ensures EncodeAll(items) == Joined(parts)
  {
    hide Encode;
    if items != [] { ItemsBytes(items[1..], parts[1..]); }
  }

  lemma {:induction false} PairsBytes(entries: seq<Entry>, parts: seq<bytes>)
    requires |parts| == |entries|
    requires forall i :: 0 <= i < |entries| ==> parts[i] == Encode(entries[i].key) + Encode(entries[i].value)
    ensures EncodeAll(Flatten(entries)) == Joined(parts)
  {
    hide Encode;
    if entries != [] {
      PairsBytes(entries[1..], parts[1..]);
      var k, v, tail := entries[0].key, entries[0].value, Flatten(entries[1..]);
      assert Flatten(entries)[1..] == [v] + tail && ([v] + tail)[1..] == tail;
      assert EncodeAll(Flatten(entries)) == Encode(k) + (Encode(v) + EncodeAll(tail));
      Assoc(Encode(k), Encode(v), EncodeAll(tail));
    }
  }

  /** Containers of items. */
  lemma ItemFrames(items: seq<Frame>, parts: seq<bytes>)
    requires |parts| == |items| && forall i :: 0 <= i < |items| ==> parts[i] == Encode(items[i])
    ensures Encode(Array(items)) == [42] + Decimal(|items|) + [13, 10] + Joined(parts)
    ensures Encode(Set(items)) == [126] + Decimal(|items|) + [13, 10] + Joined(parts)
    ensures Encode(Push(items)) == [62] + Decimal(|items|) + [13, 10] + Joined(parts)
  {
    hide Encode, EncodeAll, Decimal, Joined, Flatten;
    ItemsBytes(items, parts);
    ContainerBytes(Array(items), Joined(parts));
    ContainerBytes(Set(items), Joined(parts));
    ContainerBytes(Push(items), Joined(parts));
  }

  /** Containers of pairs; the length counts the pairs. */
  lemma PairFrames(entries: seq<Entry>, parts: seq<bytes>)
    requires |parts| == |entries|
    requires forall i :: 0 <= i < |entries| ==> parts[i] == Encode(entries[i].key) + Encode(entries[i].value)
    ensures Encode(Map(entries)) == [37] + Decimal(|entries|) + [13, 10] + Joined(parts)
    ensures Encode(Attribute(entries)) == [124] + Decimal(|entries|) + [13, 10] + Joined(parts)
  {
    hide Encode, EncodeAll, Decimal, Joined, Flatten;
    PairsBytes(entries, parts);
    ContainerBytes(Map(entries), Joined(parts));
    ContainerBytes(Attribute(entries), Joined(parts));
  }

  /** An inline command has no prefix, and one space between two parts. */
  lemma InlineFrames(part: bytes, rest: seq<bytes>)
    ensures Encode(Inline([])) == [13, 10] && Encode(Inline([part])) == part + [13, 10]
    ensures rest != [] ==> Encode(Inline([part] + rest)) == part + [32] + Encode(Inline(rest))
  {
    LeafBytes(Inline([]));
    LeafBytes(Inline([part]));
    LeafBytes(Inline(rest));
    LeafBytes(Inline([part] + rest));
    assert ([part] + rest)[1..] == rest;
    if rest != [] {
      assert Words([part] + rest) == part + [32] + Words(rest);
      Assoc(part + [32], Words(rest), CRLF);
    }
  }

  /** The five bytes at which an inline command is split, and no others. */
  lemma InlineSplits(b: byte)
    ensures ParseFrame([97, b, 98, 13, 10]) ==
      Ok(Inline(if b == 9 || b == 10 || b == 12 || b == 13 || b == 32 then [[97], [98]] else [[97, b, 98]]))
  {
    var line, none: bytes := [97, b, 98], [];
    var s := line + CRLF + none;
    assert s == [97, b, 98, 13, 10] && CrlfFree(line);
    TakeLineOfLine(line, none);
    ParseInlineStep(s, line, MAX_FRAME_DEPTH);
    SplitLine(b);
    hide Parse, ShellWords, TakeLine;
  }

  predicate IsSpecial(p: byte) {
    || p == 43 || p == 45 || p == 58 || p == 36 || p == 42 || p == 95 || p == 35 || p == 44 || p == 40 || p == 33
    || p == 61 || p == 37 || p == 126 || p == 62 || p == 124
  }

  /** Fifteen first bytes announce a frame; with any other the line is inline. */
  lemma OtherLinesAreInline(p: byte)
    requires !IsSpecial(p)
    ensures ParseFrame([p, 97, 13, 10]) ==
      Ok(Inline(if p == 9 || p == 10 || p == 12 || p == 13 || p == 32 then [[97]] else [[p, 97]]))
  {
    var line, none: bytes := [p, 97], [];
    var s := line + CRLF + none;
    assert s == [p, 97, 13, 10] && CrlfFree(line);
    TakeLineOfLine(line, none);
    ParseInlineStep(s, line, MAX_FRAME_DEPTH);
    ShortLine(p);
    hide Parse, ShellWords, TakeLine;
  }

  lemma ShortLine(p: byte)
    ensures ShellWords([p, 97]) ==
      if p == 9 || p == 10 || p == 12 || p == 13 || p == 32 then [[97]] else [[p, 97]]
  {
    var line, last, none: bytes := [p, 97], [97], [];
    assert line[1..] == last && last[1..] == none;
    assert [] + [97] == last && [] + [p] == [p] && [p] + [97] == line;
    if IsSpace(p) {
      assert WordsFrom([], line) == WordsFrom([], last) == WordsFrom(last, none) == [last];
    } else {
      assert WordsFrom([], line) == WordsFrom([p], last) == WordsFrom(line, none) == [line];
    }
  }

  lemma SplitLine(b: byte)
    ensures ShellWords([97, b, 98]) ==
      if b == 9 || b == 10 || b == 12 || b == 13 || b == 32 then [[97], [98]] else [[97, b, 98]]
  {
    var line, none: bytes := [97, b, 98], [];
    var middle, last: bytes := [b, 98], [98];
    assert line[1..] == middle && middle[1..] == last && last[1..] == none;
    assert [] + [97] == [97] && [] + [98] == [98];
    assert WordsFrom([], line) == WordsFrom([97], middle);
    if IsSpace(b) {
      assert WordsFrom([97], middle) == [[97]] + WordsFrom([], last);
      assert WordsFrom([], last) == WordsFrom([98], none) == [[98]];
    } else {
      assert [97] + [b] == [97, b] && [97, b] + [98] == line;
      assert WordsFrom([97], middle) == WordsFrom([97, b], last) == WordsFrom(line, none) == [line];
    }
  }

  /** A number is printed without leading zeros. */
  lemma {:induction false} DecimalIsCanonical(n: nat)
    ensures n > 0 ==> Digits(n)[0] != 48
    ensures n == 0 ==> Digits(n) == [48]
  {
    if n >= 10 { DecimalIsCanonical(n / 10); }
  }

  /** Signs and leading zeros are read; anything else is not. */
  lemma NumbersRead()
    ensures ParseI64([43, 53]) == Some(5) && ParseI64([45, 53]) == Some(-5)
    ensures ParseI64([48, 48, 55]) == Some(7) && ParseI64([45, 48]) == Some(0)
    ensures ParseI64([]) == None && ParseI64([43]) == None && ParseI64([45]) == None
    ensures ParseI64([32, 53]) == None && ParseI64([53, 97]) == None && ParseI64([45, 45, 53]) == None
  {
    assert [43, 53][1..] == [53] && [45, 53][1..] == [53] && [45, 48][1..] == [48] && [45, 45, 53][1..] == [45, 53];
    var none: bytes := [];
    var s5: bytes, s7: bytes, s0: bytes := [53], [48, 48, 55], [48];
    assert s5[..0] == none && s0[..0] == none && s7[..2] == [48, 48] && [48, 48][..1] == s0;
    assert DigitsValue(none) == 0;
    assert DigitsValue(s5) == 5 && DigitsValue(s0) == 0 && DigitsValue([48, 48]) == 0 && DigitsValue(s7) == 7;
    assert !IsDigit([45, 53][0]) && !IsDigit([53, 97][1]) && !IsDigit([32, 53][0]);
  }
}
