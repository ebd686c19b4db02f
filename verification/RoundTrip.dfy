/** Printing and parsing undo each other, so the encoding is injective and
    prefix-free. */
module RoundTrip {
  import opened Bytes
  import opened Frames
  import opened Parser

  // --------------------------------------------------------- inline commands

  predicate IsWord(w: bytes) { w != [] && forall i :: 0 <= i < |w| ==> !IsSpace(w[i]) }

  /** The parts of an inline command that survive printing and parsing: words, of
      which the first does not begin like another frame, or one space. */
  predicate KeepsParts(parts: seq<bytes>) {
    || (parts != [] && (forall i :: 0 <= i < |parts| ==> IsWord(parts[i])) && IsInlinePrefix(parts[0][0]))
    || (|parts| == 1 && |parts[0]| == 1 && IsSpace(parts[0][0]))
  }

  /** A node that its encoding gives back. */
  predicate RoundTripNode(f: Frame) { if f.Inline? then KeepsParts(f.parts) else PlainNode(f) }

  predicate Recoverable(f: Frame) { Every(f, RoundTripNode) }

  lemma PlainIsRecoverable(f: Frame)
    requires Plain(f)
    ensures Recoverable(f)
  {
    EveryWeaken(f, PlainNode, RoundTripNode);
  }

  lemma {:induction false} WordIsRead(word: bytes, w: bytes, rest: bytes)
    requires forall i :: 0 <= i < |w| ==> !IsSpace(w[i])
    ensures WordsFrom(word, w + rest) == WordsFrom(word + w, rest)
    decreases |w|
  {
    if w == [] {
      assert w + rest == rest && word + w == word;
    } else {
      assert (w + rest)[1..] == w[1..] + rest && word + [w[0]] + w[1..] == word + w;
      WordIsRead(word + [w[0]], w[1..], rest);
    }
  }

  lemma {:induction false} WordsAreRead(parts: seq<bytes>)
    requires forall i :: 0 <= i < |parts| ==> IsWord(parts[i])
    ensures ShellWords(Words(parts)) == parts
    ensures forall i :: 0 <= i < |Words(parts)| ==> !IsSpace(Words(parts)[i]) || Words(parts)[i] == 32
    ensures parts != [] ==> IsWord(parts[0]) && Words(parts) != [] && Words(parts)[0] == parts[0][0]
  {
    if parts != [] {
      var w, rest := parts[0], parts[1..];
      WordsAreRead(rest);
      if rest == [] {
        assert w + [] == w && [] + w == w;
        WordIsRead([], w, []);
      } else {
        var tail := [32] + Words(rest);
        assert Words(parts) == w + tail && [] + w == w && tail[1..] == Words(rest);
        WordIsRead([], w, tail);
      }
    }
  }

  lemma {:induction false} WordsFromAreWords(word: bytes, s: bytes)
    requires word == [] || IsWord(word)
    ensures forall w :: w in WordsFrom(word, s) ==> IsWord(w)
    ensures word != [] ==> WordsFrom(word, s) != []
    decreases |s|
  {
    if s != [] { WordsFromAreWords(if IsSpace(s[0]) then [] else word + [s[0]], s[1..]); }
  }

  lemma NoWords(line: bytes)
    requires ShellWords(line) == [] && line != []
    ensures IsSpace(line[0])
  {
    if !IsSpace(line[0]) {
      assert [] + [line[0]] == [line[0]];
      WordsFromAreWords([line[0]], line[1..]);
    }
  }

  lemma OneSpace(b: byte)
    requires IsSpace(b)
    ensures IsInlinePrefix(b) && InlineFrame(b, [b]) == Inline([[b]])
  {
    var line, none: bytes := [b], [];
    assert line[1..] == none && WordsFrom(none, none) == [];
    assert ShellWords(line) == [];
  }

  lemma InlineText(parts: seq<bytes>)
    requires KeepsParts(parts)
    ensures var text := Words(parts);
      CrlfFree(text) && text != [] && text[0] == parts[0][0] && IsInlinePrefix(text[0]) && LF !in text[1..]
      && InlineFrame(text[0], text) == Inline(parts)
  {
    if forall i :: 0 <= i < |parts| ==> IsWord(parts[i]) {
      WordsAreRead(parts);
      assert forall i :: 0 <= i < |Words(parts)| ==> Words(parts)[i] != LF;
    } else {
      assert Words(parts) == parts[0] == [parts[0][0]];
      var b := parts[0][0];
      OneSpace(b);
      assert parts == [[b]] && Words(parts) == [b];
    }
  }

  lemma ParseInlineEncoding(f: Frame, t: bytes, levels: nat)
    requires f.Inline? && KeepsParts(f.parts) && levels > 0
    ensures Parse(Own(f, None) + t, levels) == Done(f, |Own(f, None)|)
  {
    hide Parse, KeepsParts, Words, ShellWords;
    var text := Words(f.parts);
    InlineText(f.parts);
    TakeLineOfLine(text, t);
    ParseInlineStep(text + CRLF + t, text, levels);
  }

  /** An inline command that is given back is one whose parts are kept. */
  lemma InlineIsExact(f: Frame, t: bytes, levels: nat)
    requires f.Inline? && Parse(Own(f, None) + t, levels).Done? && Parse(Own(f, None) + t, levels).value == f
    ensures KeepsParts(f.parts)
  {
    var s := Own(f, None) + t;
    hide Parse, Words;
    ParsedInline(s, levels);
    var line := TakeLine(s).value;
    var words := ShellWords(line);
    WordsFromAreWords([], line);
    if words != [] {
      assert f.parts == words;
      assert forall i :: 0 <= i < |words| ==> words[i] in words;
      WordsAreRead(words);
      assert s[0] == Words(words)[0];
    } else if line != [] {
      NoWords(line);
    }
  }

  // ------------------------------------------------------------ what is printed

  lemma SizeBound(f: Frame)
    requires RoundTripNode(f)
    ensures |Encode(f)| >= 3
  {
    if f.Inline? { InlineText(f.parts); }
    hide KeepsParts, Words;
  }

  lemma {:induction false} SizeBoundAll(fs: seq<Frame>)
    requires EveryAll(fs, RoundTripNode)
    ensures |EncodeAll(fs)| >= 3 * |fs|
  {
    hide RoundTripNode, Encode;
    if fs != [] {
      SizeBound(fs[0]);
      SizeBoundAll(fs[1..]);
    }
  }

  /** A line written by `PushLine` is read back whole. */
  lemma ReadLine(prefix: byte, text: bytes, rest: bytes)
    requires IsText(text)
    ensures TakeText((PushLine(prefix, text) + rest)[1..]) == Done(text, |text| + 2)
    ensures TakeLine((PushLine(prefix, text) + rest)[1..]) == Some(text)
    ensures (PushLine(prefix, text) + rest)[|text| + 3..] == rest
  {
    TakeLineOfLine(text, rest);
    assert (PushLine(prefix, text) + rest)[1..] == text + CRLF + rest;
  }

  lemma ReadNumber(prefix: byte, n: int, rest: bytes)
    requires IsI64(n)
    ensures TakeI64((PushLine(prefix, Decimal(n)) + rest)[1..]) == Done(n, |Decimal(n)| + 2)
    ensures (PushLine(prefix, Decimal(n)) + rest)[1 + |Decimal(n)| + 2..] == rest
  {
    DecimalIsPlain(n);
    DecimalRoundTrip(n);
    ReadLine(prefix, Decimal(n), rest);
  }

  lemma TextParts(f: Frame)
    requires PlainNode(f) && DeclaredLength(f).None? && !f.Integer?
    ensures var text := HeaderText(f, None);
      && Own(f, None) == PushLine(Prefix(f), text) && |Own(f, None)| == |text| + 3 && IsText(text)
      && (!f.Null? && !f.Boolean? ==> IsTextPrefix(Prefix(f)) && TextFrame(Prefix(f), text) == f)
  {
    hide CrlfFree, ValidUtf8, Decimal;
    if f.Null? || f.Boolean? { FlagIsText(f); }
  }

  lemma FlagIsText(f: Frame)
    requires f.Null? || f.Boolean?
    ensures IsText(HeaderText(f, None))
  {
    AsciiIsUtf8(HeaderText(f, None));
  }

  lemma ParseTextEncoding(f: Frame, t: bytes, levels: nat)
    requires PlainNode(f) && DeclaredLength(f).None? && !f.Integer? && levels > 0
    ensures Parse(Own(f, None) + t, levels) == Done(f, |Own(f, None)|)
  {
    hide Parse, TakeLine, TakeText, IsText, Own, HeaderText, PushLine, PlainNode, TextFrame, DeclaredLength, IsTextPrefix;
    var text, s := HeaderText(f, None), Own(f, None) + t;
    TextParts(f);
    ReadLine(Prefix(f), text, t);
    PushedPrefix(Prefix(f), text, t);
    if f.Null? || f.Boolean? {
      ParseFlagStep(s, f, levels);
    } else {
      ParseTextStep(s, text, |text| + 2, levels);
    }
  }

  lemma PushedPrefix(p: byte, text: bytes, t: bytes)
    ensures var s := PushLine(p, text) + t; s != [] && s[0] == p
  {}

  lemma ParseIntegerEncoding(f: Frame, t: bytes, levels: nat)
    requires PlainNode(f) && f.Integer? && levels > 0
    ensures Parse(Own(f, None) + t, levels) == Done(f, |Own(f, None)|)
  {
    ReadNumber(Prefix(f), f.number, t);
    hide TakeI64, Decimal;
  }

  lemma ParseNullEncoding(f: Frame, t: bytes, levels: nat)
    requires (f.NullBulk? || f.NullArray?) && levels > 0
    ensures Parse(Own(f, None) + t, levels) == Done(f, |Own(f, None)|)
  {
    ReadNumber(Prefix(f), -1, t);
    hide TakeI64, Decimal;
  }

  lemma BlobParts(f: Frame)
    requires PlainNode(f) && IsBlob(f)
    ensures Own(f, None) == PushLine(Prefix(f), Decimal(|f.body|)) + (f.body + CRLF) && IsI64(|f.body|)
    ensures IsBlobPrefix(Prefix(f)) && BlobFrame(Prefix(f), f.body) == f
  {
    hide Decimal;
  }

  lemma ParseBlobEncoding(f: Frame, t: bytes, levels: nat)
    requires PlainNode(f) && IsBlob(f) && levels > 0
    ensures Parse(Own(f, None) + t, levels) == Done(f, |Own(f, None)|)
  {
    hide Parse, TakeI64, Decimal, Own, BlobFrame, IsBlobPrefix;
    BlobParts(f);
    var line, body := PushLine(Prefix(f), Decimal(|f.body|)), f.body + CRLF;
    var s, tail := Own(f, None) + t, body + t;
    var used := |Decimal(|f.body|)| + 2;
    Assoc(line, body, t);
    ReadNumber(Prefix(f), |f.body|, tail);
    Assoc(f.body, CRLF, t);
    ParseBlobStep(s, |f.body|, used, f.body, levels);
  }

  lemma ParseScalarEncoding(f: Frame, t: bytes, levels: nat)
    requires RoundTripNode(f) && !IsAggregate(f) && levels > 0
    ensures Parse(Encode(f) + t, levels) == Done(f, |Encode(f)|)
  {
    hide Parse, Decimal, KeepsParts;
    assert Encode(f) == Own(f, None);
    if f.Inline? { ParseInlineEncoding(f, t, levels); }
    else if f.NullBulk? || f.NullArray? { ParseNullEncoding(f, t, levels); }
    else if f.Integer? { ParseIntegerEncoding(f, t, levels); }
    else if DeclaredLength(f).Some? { ParseBlobEncoding(f, t, levels); }
    else { ParseTextEncoding(f, t, levels); }
  }

  lemma AggregateOfChildren(f: Frame)
    requires IsAggregate(f)
    ensures IsAggregatePrefix(Prefix(f)) && (IsPairedPrefix(Prefix(f)) ==> |Children(f)| % 2 == 0)
    ensures AggregateFrame(Prefix(f), Children(f)) == f
    ensures DeclaredLength(f).Some? && DeclaredLength(f).value >= 0
    ensures |Children(f)| == ChildCount(Prefix(f), DeclaredLength(f).value)
  {
    hide Flatten, Paired;
    if HasEntries(f) { PairedOfFlatten(f.entries); }
  }

  lemma ParseAggregateEncoding(f: Frame, t: bytes, levels: nat)
    requires Recoverable(f) && IsAggregate(f) && levels > 0
    requires ParseAll(EncodeAll(Children(f)) + t, |Children(f)|, levels - 1)
          == Done(Children(f), |EncodeAll(Children(f))|)
    ensures Parse(Encode(f) + t, levels) == Done(f, |Encode(f)|)
  {
    hide Parse, ParseAll, TakeI64, Decimal, EncodeAll, Flatten, Paired;
    var s, tail := Encode(f) + t, EncodeAll(Children(f)) + t;
    var len := DeclaredLength(f).value;
    var used := |Decimal(len)| + 2;
    assert Encode(f) == PushLine(Prefix(f), Decimal(len)) + EncodeAll(Children(f));
    Assoc(PushLine(Prefix(f), Decimal(len)), EncodeAll(Children(f)), t);
    ReadNumber(Prefix(f), len, tail);
    SizeBoundAll(Children(f));
    AggregateOfChildren(f);
    hide Encode, AggregateFrame, Children, DeclaredLength, Every;
    ParseAggregateStep(s, len, used, Children(f), |EncodeAll(Children(f))|, levels);
  }

  lemma {:induction false} ParseEncoding(f: Frame, t: bytes, levels: nat)
    requires Recoverable(f) && Depth(f) <= levels
    ensures Parse(Encode(f) + t, levels) == Done(f, |Encode(f)|)
    decreases Nodes(f), 0
  {
    hide Parse, ParseAll, Own;
    NodesOfChildren(f);
    if IsAggregate(f) {
      ParseEncodingAll(Children(f), t, levels - 1);
      ParseAggregateEncoding(f, t, levels);
    } else {
      ParseScalarEncoding(f, t, levels);
    }
  }

  lemma {:induction false} ParseEncodingAll(fs: seq<Frame>, t: bytes, levels: nat)
    requires EveryAll(fs, RoundTripNode)
    requires DepthAll(fs) <= levels
    ensures ParseAll(EncodeAll(fs) + t, |fs|, levels) == Done(fs, |EncodeAll(fs)|)
    decreases NodesAll(fs), 1
  {
    hide Parse, ParseAll, Encode, EncodeAll, Every, Depth, RoundTripNode;
    if fs == [] {
      ParseNothing(t, levels);
    } else {
      var f, tail := fs[0], EncodeAll(fs[1..]) + t;
      EncodeAllParts(fs, t);
      ParseEncoding(f, tail, levels);
      ParseEncodingAll(fs[1..], t, levels);
      ParseAllStep(EncodeAll(fs) + t, f, |Encode(f)|, fs, |EncodeAll(fs[1..])|, levels);
    }
  }

  lemma ParseNothing(t: bytes, levels: nat)
    ensures ParseAll(EncodeAll([]) + t, 0, levels) == Done([], 0) && EncodeAll([]) == []
  {}

  lemma EncodeAllParts(fs: seq<Frame>, t: bytes)
    requires fs != []
    ensures EncodeAll(fs) + t == Encode(fs[0]) + (EncodeAll(fs[1..]) + t)
    ensures (EncodeAll(fs) + t)[|Encode(fs[0])|..] == EncodeAll(fs[1..]) + t
    ensures |EncodeAll(fs)| == |Encode(fs[0])| + |EncodeAll(fs[1..])|
  {
    hide Encode;
    Assoc(Encode(fs[0]), EncodeAll(fs[1..]), t);
  }

  // ------------------------------------------------- what the parser returns

  /** A node the parser can return. */
  predicate ParsedNode(f: Frame) { f.Inline? || PlainNode(f) }

  lemma LineTextIsCrlfFree(s: bytes)
    requires TakeLine(s).Some?
    ensures CrlfFree(TakeLine(s).value)
  {
    var text := TakeLine(s).value;
    forall i | 0 <= i < |text| ensures !CrlfAt(text, i) {
      assert CrlfAt(text, i) ==> CrlfAt(s, i);
    }
  }

  lemma ParsedBlob(s: bytes)
    requires s != [] && IsBlobPrefix(s[0]) && ParseBlob(s).Done?
    ensures var f := ParseBlob(s).value; ParsedNode(f) && Children(f) == []
  {
    hide TakeI64, TakeLine;
  }

  lemma ParsedText(s: bytes)
    requires s != [] && IsTextPrefix(s[0]) && TakeText(s[1..]).Done?
    ensures var f := TextFrame(s[0], TakeText(s[1..]).value); ParsedNode(f) && Children(f) == []
  {
    LineTextIsCrlfFree(s[1..]);
    hide TakeLine, CrlfFree, ValidUtf8;
  }

  lemma ParsedScalar(s: bytes)
    requires s != [] && !IsAggregatePrefix(s[0]) && ParseScalar(s).Done?
    ensures var f := ParseScalar(s).value; ParsedNode(f) && Children(f) == []
  {
    hide TakeI64, TakeLine, TakeText, ParseBlob, ShellWords, ParseI64, TextFrame;
    if IsTextPrefix(s[0]) { ParsedText(s); }
    else if IsBlobPrefix(s[0]) { ParsedBlob(s); }
  }

  lemma AggregateFrameChildren(p: byte, fs: seq<Frame>)
    requires IsAggregatePrefix(p) && (IsPairedPrefix(p) ==> |fs| % 2 == 0)
    ensures Children(AggregateFrame(p, fs)) == fs && IsAggregate(AggregateFrame(p, fs))
  {
    if IsPairedPrefix(p) { FlattenOfPaired(fs); }
  }

  lemma AggregateLength(p: byte, fs: seq<Frame>)
    requires IsAggregatePrefix(p) && (IsPairedPrefix(p) ==> |fs| % 2 == 0)
    ensures DeclaredLength(AggregateFrame(p, fs)) == Some(if IsPairedPrefix(p) then |fs| / 2 else |fs|)
  {}

  lemma AggregateIsParsed(p: byte, fs: seq<Frame>, levels: nat)
    requires IsAggregatePrefix(p) && (IsPairedPrefix(p) ==> |fs| % 2 == 0) && levels > 0
    requires IsI64(if IsPairedPrefix(p) then |fs| / 2 else |fs|)
    requires DepthAll(fs) <= levels - 1 && EveryAll(fs, ParsedNode)
    ensures var f := AggregateFrame(p, fs); Depth(f) <= levels && Every(f, ParsedNode)
  {
    AggregateFrameChildren(p, fs);
    AggregateLength(p, fs);
    hide AggregateFrame;
  }

  lemma LeafIsParsed(f: Frame, levels: nat)
    requires Children(f) == [] && ParsedNode(f) && levels > 0
    ensures Depth(f) <= levels && Every(f, ParsedNode)
  {}

  lemma ScalarFrameIsParsed(s: bytes, levels: nat)
    requires Parse(s, levels).Done? && s != [] && !IsAggregatePrefix(s[0])
    ensures var f := Parse(s, levels).value; Depth(f) <= levels && Every(f, ParsedNode)
  {
    ParsedScalar(s);
    hide ParseScalar, Depth, Every, ParsedNode, Children;
    LeafIsParsed(Parse(s, levels).value, levels);
  }

  lemma ParseNeedsInput(s: bytes, levels: nat)
    requires Parse(s, levels).Done?
    ensures s != [] && levels > 0
  {}

  lemma {:induction false} ParsedFrame(s: bytes, levels: nat)
    requires Parse(s, levels).Done?
    ensures var f := Parse(s, levels).value; Depth(f) <= levels && Every(f, ParsedNode)
    decreases levels, 0
  {
    hide Parse, ParseAll, TakeI64, AggregateFrame, Depth, Every, DepthAll, EveryAll;
    ParseNeedsInput(s, levels);
    if !IsAggregatePrefix(s[0]) {
      ScalarFrameIsParsed(s, levels);
    } else {
      ParsedAggregate(s, levels);
      var len := TakeI64(s[1..]);
      if len.value >= 0 {
        var t, n := s[1 + len.used..], ChildCount(s[0], len.value);
        ParsedFrames(t, n, levels - 1);
        AggregateIsParsed(s[0], ParseAll(t, n, levels - 1).value, levels);
      } else {
        LeafIsParsed(NullArray, levels);
      }
    }
  }

  lemma {:induction false} ParsedFrames(s: bytes, n: nat, levels: nat)
    requires ParseAll(s, n, levels).Done?
    ensures var fs := ParseAll(s, n, levels).value; DepthAll(fs) <= levels && EveryAll(fs, ParsedNode)
    decreases levels, 1, n
  {
    hide Parse, Depth, Every;
    if n > 0 {
      ParsedFrame(s, levels);
      ParsedFrames(s[Parse(s, levels).used..], n - 1, levels);
      var fs := ParseAll(s, n, levels).value;
      assert fs[1..] == ParseAll(s[Parse(s, levels).used..], n - 1, levels).value;
    }
  }

  // --------------------------------------- which frames their encodings give back

  lemma ParsedAggregateEncoding(f: Frame, t: bytes, levels: nat)
    requires PlainNode(f) && IsAggregate(f)
    requires Parse(Encode(f) + t, levels).Done? && Parse(Encode(f) + t, levels).value == f
    ensures levels > 0
    ensures var inner := ParseAll(EncodeAll(Children(f)) + t, |Children(f)|, levels - 1);
      inner.Done? && inner.value == Children(f)
  {
    hide Parse, ParseAll, TakeI64, Decimal, EncodeAll, Flatten, Paired, AggregateFrame;
    var s, tail := Encode(f) + t, EncodeAll(Children(f)) + t;
    var len := DeclaredLength(f).value;
    Assoc(PushLine(Prefix(f), Decimal(len)), EncodeAll(Children(f)), t);
    ReadNumber(Prefix(f), len, tail);
    ParsedAggregate(s, levels);
    AggregateFrameChildren(Prefix(f), ParseAll(tail, ChildCount(Prefix(f), len), levels - 1).value);
  }

  lemma GivenBackLeaf(f: Frame, t: bytes, levels: nat)
    requires ParsedNode(f) && !IsAggregate(f)
    requires Parse(Encode(f) + t, levels).Done? && Parse(Encode(f) + t, levels).value == f
    ensures Recoverable(f)
  {
    assert Encode(f) == Own(f, None);
    hide Parse, Own, KeepsParts, PlainNode;
    if f.Inline? { InlineIsExact(f, t, levels); }
    EveryLeaf(f, RoundTripNode);
  }

  lemma ParsedRoot(s: bytes, levels: nat)
    requires Parse(s, levels).Done?
    ensures ParsedNode(Parse(s, levels).value)
  {
    hide Parse, PlainNode;
    ParsedFrame(s, levels);
  }

  lemma {:induction false} GivenBackIsRecoverable(f: Frame, t: bytes, levels: nat)
    requires Parse(Encode(f) + t, levels).Done? && Parse(Encode(f) + t, levels).value == f
    ensures Recoverable(f)
    decreases Nodes(f), 0
  {
    hide Parse, ParseAll, Encode, EncodeAll, PlainNode, KeepsParts, Depth;
    ParsedRoot(Encode(f) + t, levels);
    if IsAggregate(f) {
      NodesOfChildren(f);
      ParsedAggregateEncoding(f, t, levels);
      GivenBackAll(Children(f), t, levels - 1);
    } else {
      GivenBackLeaf(f, t, levels);
    }
  }

  lemma {:induction false} GivenBackAll(fs: seq<Frame>, t: bytes, levels: nat)
    requires ParseAll(EncodeAll(fs) + t, |fs|, levels).Done? && ParseAll(EncodeAll(fs) + t, |fs|, levels).value == fs
    ensures EveryAll(fs, RoundTripNode)
    decreases NodesAll(fs), 1
  {
    hide Parse, Every, Encode, Depth;
    if fs != [] {
      var s, tail := EncodeAll(fs) + t, EncodeAll(fs[1..]) + t;
      Assoc(Encode(fs[0]), EncodeAll(fs[1..]), t);
      assert Parse(s, levels).Done? && Parse(s, levels).value == fs[0];
      GivenBackIsRecoverable(fs[0], tail, levels);
      ParsedFrame(s, levels);
      ParseEncoding(fs[0], tail, levels);
      assert s[|Encode(fs[0])|..] == tail;
      GivenBackAll(fs[1..], t, levels);
    }
  }

  // ---------------------------------------------------------------- theorems

  /** Whatever the frame, the parser gives it back exactly when each of its nodes can
      be given back and the encoding and the nesting are within the limits. */
  lemma ParseUndoesEncode(f: Frame)
    ensures ParseFrame(Encode(f)) == Ok(f) <==>
            Recoverable(f) && |Encode(f)| <= 64 * 1024 * 1024 && Depth(f) <= 128
  {
    hide Parse, Encode, Every, Depth;
    assert Encode(f) + [] == Encode(f);
    if Recoverable(f) && Depth(f) <= MAX_FRAME_DEPTH { ParseEncoding(f, [], MAX_FRAME_DEPTH); }
    if ParseFrame(Encode(f)) == Ok(f) {
      ParsedFrame(Encode(f), MAX_FRAME_DEPTH);
      GivenBackIsRecoverable(f, [], MAX_FRAME_DEPTH);
    }
  }

  lemma LeafEncoding(f: Frame, s: bytes)
    requires Children(f) == [] && Own(f, None) == s
    ensures Encode(f) == s
  {}

  lemma LeafIsGivenBack(f: Frame)
    requires RoundTripNode(f) && Children(f) == [] && |Encode(f)| <= MAX_FRAME_BYTES
    ensures ParseFrame(Encode(f)) == Ok(f)
  {
    assert Depth(f) == 1;
    hide Encode, Depth, ParseFrame;
    EveryLeaf(f, RoundTripNode);
    ParseUndoesEncode(f);
  }

  /** An inline command may come back as another frame, */
  lemma InlineMayBecomeAnother()
    ensures ParseFrame(Encode(Inline([[43, 97]]))) == Ok(SimpleString([97]))
  {
    var f, g := SimpleString([97]), Inline([[43, 97]]);
    assert RoundTripNode(f) by { AsciiIsUtf8([97]); }
    hide ParseFrame, CrlfFree, ValidUtf8;
    LeafEncoding(f, [43, 97, 13, 10]);
    LeafEncoding(g, [43, 97, 13, 10]);
    LeafIsGivenBack(f);
  }

  /** or as other words. */
  lemma InlineMaySplit()
    ensures ParseFrame(Encode(Inline([[97, 32, 98]]))) == Ok(Inline([[97], [98]]))
  {
    var f, g := Inline([[97], [98]]), Inline([[97, 32, 98]]);
    hide ParseFrame;
    assert Words([[97], [98]]) == [97, 32, 98] by { assert Words([[98]]) == [98] && [[97], [98]][1..] == [[98]]; }
    LeafEncoding(f, [97, 32, 98, 13, 10]);
    LeafEncoding(g, [97, 32, 98, 13, 10]);
    LeafIsGivenBack(f);
  }

  /** Every frame the parser accepts is within the depth limit, and printable
      unless it holds an inline command. */
  lemma ParsedFramesArePrintable(s: bytes)
    requires ParseFrame(s).Ok?
    ensures var f := ParseFrame(s).value; Depth(f) <= MAX_FRAME_DEPTH && Every(f, ParsedNode)
  {
    ParsedFrame(s, MAX_FRAME_DEPTH);
    hide Parse;
  }

  /** Encodings can be told apart and separated, at any depth and size: the
      encoding is injective and no encoding is a proper prefix of another. */
  lemma EncodingIsPrefixFree(f: Frame, g: Frame, t: bytes, u: bytes)
    requires Recoverable(f) && Recoverable(g)
    requires Encode(f) + t == Encode(g) + u
    ensures f == g && t == u
  {
    var levels := if Depth(f) > Depth(g) then Depth(f) else Depth(g);
    ParseEncoding(f, t, levels);
    ParseEncoding(g, u, levels);
    assert (Encode(f) + t)[|Encode(f)|..] == t && (Encode(g) + u)[|Encode(g)|..] == u;
  }
}
