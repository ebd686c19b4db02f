/** The iterative reader and the recursive parser delimit the same bytes. */
module Delimit {
  import opened Bytes
  import opened Frames
  import opened Parser
  import opened Reader
  import opened RoundTrip

  /** Errors about what a scalar says, not about where the frame ends. */
  predicate IsContent(e: Error) {
    e == InvalidUtf8 || e == InvalidInteger || e == InvalidNull || e == InvalidBoolean
  }

  /** The parser stops at `k`, or the bytes it read up to there are no scalar. */
  predicate Delimits<T>(p: Parsed<T>, k: nat) { if p.Done? then p.used == k else IsContent(p.error) }

  // ------------------------------------------------ the two notions of a line

  lemma ReaderLineIsLine(t: bytes)
    requires ReaderLine(t).Some?
    ensures TakeLine(t) == ReaderLine(t)
  {
    var text := ReaderLine(t).value;
    forall i | 0 <= i < |text| ensures !CrlfAt(t, i) {
      assert i + 1 < |text| ==> t[i + 1] in text;
    }
    var line := TakeLine(t).value;
    assert |line| == |text|;
  }

  lemma LineIsReaderLine(t: bytes)
    requires TakeLine(t).Some?
    ensures (ReaderLine(t) == TakeLine(t)) == (LF !in TakeLine(t).value)
    ensures ReaderLine(t).Some? ==> ReaderLine(t) == TakeLine(t)
  {
    if ReaderLine(t).Some? { ReaderLineIsLine(t); }
    var text := TakeLine(t).value;
    if LF !in text {
      assert forall i :: 0 <= i < |text| ==> t[i] == text[i] && text[i] in text;
      assert FirstLf(t).value == |text| + 1;
    }
  }

  /** The first line of an inline frame starts at its first byte. */
  lemma InlineLine(s: bytes)
    requires s != [] && ReaderLine(s[1..]).Some?
    ensures TakeLine(s) == Some([s[0]] + ReaderLine(s[1..]).value)
  {
    ReaderLineIsLine(s[1..]);
    var text := ReaderLine(s[1..]).value;
    assert |text| > 0 ==> s[1] == text[0] && text[0] in text;
    assert !CrlfAt(s, 0);
  }

  // -------------------------------------------- the reader's span is a parse

  lemma TakeI64OfLine(t: bytes)
    requires ReaderLine(t).Some?
    ensures var text := ReaderLine(t).value;
      TakeI64(t) == if !ValidUtf8(text) then Failed(InvalidUtf8)
                    else if ParseI64(text).None? then Failed(InvalidInteger)
                    else Done(ParseI64(text).value, |text| + 2)
  {
    ReaderLineIsLine(t);
  }

  lemma NodeHead(s: bytes)
    requires HeadOf(s).Node?
    ensures s != [] && IsAggregatePrefix(s[0]) && TakeI64(s[1..]).Done?
    ensures var len := TakeI64(s[1..]);
      len.value >= 0 && HeadOf(s) == Node(1 + len.used, ChildCount(s[0], len.value))
  {
    TakeI64OfLine(s[1..]);
    hide ReaderLine, TakeI64, ParseI64, ValidUtf8;
  }

  lemma LeafBlob(s: bytes, levels: nat)
    requires HeadOf(s).Leaf? && levels > 0 && IsBlobPrefix(s[0])
    ensures Parse(s, levels).Done? && Parse(s, levels).used == HeadOf(s).size
  {
    hide Parse, ReaderLine, TakeI64, TakeBlob, ParseI64, ValidUtf8;
    TakeI64OfLine(s[1..]);
    var line := ReaderLine(s[1..]).value;
    var size, len := |line| + 3, ParseLen(line, s[0] == 36);
    if len.Len? {
      LeafBlobBody(s, size, len.n);
      ParseBlobStep(s, len.n, |line| + 2, s[size..][..len.n], levels);
    } else {
      ParseNullBulkStep(s, |line| + 2, levels);
    }
  }

  lemma LeafBlobBody(s: bytes, start: nat, len: int)
    requires start <= |s|
    ensures if len >= 0 && CrlfAt(s, start + len) then TakeBlob(s[start..], len) == Done(s[start..][..len], len + 2)
            else TakeBlob(s[start..], len).Failed?
  {
    if 0 <= len && start + len + 2 <= |s| {
      assert s[start..][len] == s[start + len] && s[start..][len + 1] == s[start + len + 1];
    }
  }

  lemma LeafLine(s: bytes, levels: nat)
    requires HeadOf(s).Leaf? && levels > 0 && !IsBlobPrefix(s[0])
    ensures Delimits(Parse(s, levels), HeadOf(s).size)
  {
    if IsAggregatePrefix(s[0]) || s[0] == 58 {
      TakeI64OfLine(s[1..]);
      hide ReaderLine, TakeLine, TakeI64, ParseI64, ValidUtf8, ShellWords, ParseAll, ParseBlob;
    } else {
      ReaderLineIsLine(s[1..]);
      InlineLine(s);
      hide ReaderLine, TakeLine, TakeI64, ParseI64, ValidUtf8, ShellWords, ParseAggregate, ParseBlob;
    }
  }

  lemma {:induction false} SpanIsParse(s: bytes, levels: nat)
    requires Span(s, levels).Some?
    ensures Delimits(Parse(s, levels), Span(s, levels).value)
    decreases levels, 0
  {
    hide HeadOf, Parse, ParseAll, TakeI64;
    if HeadOf(s).Leaf? {
      if IsBlobPrefix(s[0]) { LeafBlob(s, levels); } else { LeafLine(s, levels); }
    } else {
      NodeHead(s);
      var len := TakeI64(s[1..]);
      var t := s[1 + len.used..];
      SpansIsParseAll(t, ChildCount(s[0], len.value), levels - 1);
      ParseAggregateResult(s, len.value, len.used, levels);
    }
  }

  lemma {:induction false} SpansIsParseAll(s: bytes, n: nat, levels: nat)
    requires Spans(s, n, levels).Some?
    ensures Delimits(ParseAll(s, n, levels), Spans(s, n, levels).value)
    decreases levels, 1, n
  {
    hide Parse, Span;
    if n > 0 {
      SpanIsParse(s, levels);
      SpansIsParseAll(s[Span(s, levels).value..], n - 1, levels);
    }
  }

  lemma ParseAggregateResult(s: bytes, len: nat, used: nat, levels: nat)
    requires s != [] && IsAggregatePrefix(s[0]) && levels > 0
    requires TakeI64(s[1..]) == Done(len, used)
    requires 3 * ChildCount(s[0], len) <= |s[1 + used..]|
    ensures var inner := ParseAll(s[1 + used..], ChildCount(s[0], len), levels - 1);
      Parse(s, levels) ==
      if inner.Failed? then Failed(inner.error)
      else Done(AggregateFrame(s[0], inner.value), 1 + used + inner.used)
  {
    hide TakeI64, ParseAll, ParseScalar, AggregateFrame;
  }

  // ------------------------------- a span does not depend on what follows it

  lemma ReaderLineIsLocal(u: bytes, v: bytes)
    requires ReaderLine(u).Some?
    requires var k := |ReaderLine(u).value| + 2; k <= |v| && v[..k] == u[..k]
    ensures ReaderLine(v) == ReaderLine(u)
  {
    var k := |ReaderLine(u).value| + 2;
    assert forall i :: 0 <= i < k ==> u[i] == u[..k][i] && v[i] == v[..k][i];
    assert FirstLf(v).value == k - 1;
    assert u[..k - 2] == v[..k - 2];
  }

  lemma HeadIsLocal(s: bytes, t: bytes)
    requires !HeadOf(s).Bad? && HeadOf(s).size <= |t| && t[..HeadOf(s).size] == s[..HeadOf(s).size]
    ensures HeadOf(t) == HeadOf(s)
  {
    hide HeadOf, ReaderLine, ParseLen;
    HeadLine(s);
    var size, k := HeadOf(s).size, |ReaderLine(s[1..]).value| + 2;
    SliceOfPrefix(s, size, k);
    SliceOfPrefix(t, size, k);
    assert s[0] == s[..size][0] && t[0] == t[..size][0];
    assert CrlfAt(s, size - 2) == CrlfAt(t, size - 2) by {
      assert s[size - 2] == s[..size][size - 2] && t[size - 2] == t[..size][size - 2];
      assert s[size - 1] == s[..size][size - 1] && t[size - 1] == t[..size][size - 1];
    }
    ReaderLineIsLocal(s[1..], t[1..]);
    HeadOfSame(s, t);
  }

  lemma SliceOfPrefix(s: bytes, size: nat, k: nat)
    requires k < size <= |s|
    ensures s[1..][..k] == s[..size][1..k + 1]
  {}

  lemma HeadLine(s: bytes)
    requires !HeadOf(s).Bad?
    ensures s != [] && ReaderLine(s[1..]).Some? && |ReaderLine(s[1..]).value| + 3 <= HeadOf(s).size
  {
    hide ReaderLine, ParseLen;
  }

  lemma HeadOfSame(s: bytes, t: bytes)
    requires !HeadOf(s).Bad? && HeadOf(s).size <= |t| && t != [] && t[0] == s[0]
    requires ReaderLine(t[1..]) == ReaderLine(s[1..]) && CrlfAt(s, HeadOf(s).size - 2) == CrlfAt(t, HeadOf(s).size - 2)
    ensures HeadOf(t) == HeadOf(s)
  {
    hide ReaderLine, ParseLen;
  }

  lemma {:induction false} SpanIsLocal(s: bytes, t: bytes, levels: nat)
    requires Span(s, levels).Some?
    requires var k := Span(s, levels).value; k <= |t| && t[..k] == s[..k]
    ensures Span(t, levels) == Span(s, levels)
    decreases levels, 0
  {
    hide HeadOf;
    var k, head := Span(s, levels).value, HeadOf(s);
    assert t[..k][..head.size] == t[..head.size] && s[..k][..head.size] == s[..head.size];
    HeadIsLocal(s, t);
    if head.Node? {
      var inner := k - head.size;
      assert t[head.size..][..inner] == t[..k][head.size..] && s[head.size..][..inner] == s[..k][head.size..];
      SpansIsLocal(s[head.size..], t[head.size..], head.children, levels - 1);
    }
  }

  lemma {:induction false} SpansIsLocal(s: bytes, t: bytes, n: nat, levels: nat)
    requires Spans(s, n, levels).Some?
    requires var k := Spans(s, n, levels).value; k <= |t| && t[..k] == s[..k]
    ensures Spans(t, n, levels) == Spans(s, n, levels)
    decreases levels, 1, n
  {
    hide Span;
    if n > 0 {
      var k, first := Spans(s, n, levels).value, Span(s, levels).value;
      assert t[..k][..first] == t[..first] && s[..k][..first] == s[..first];
      SpanIsLocal(s, t, levels);
      var rest := k - first;
      assert t[first..][..rest] == t[..k][first..] && s[first..][..rest] == s[..k][first..];
      SpansIsLocal(s[first..], t[first..], n - 1, levels);
    }
  }

  // --------------------------------------- which parsed bytes the reader takes

  /** The first line of a frame holds no LF after its prefix byte, and an inline
      frame is not the empty line. */
  predicate CleanLine(s: bytes)
    requires s != []
  {
    if IsInlinePrefix(s[0]) then
      TakeLine(s).Some? && TakeLine(s).value != [] && LF !in TakeLine(s).value[1..]
    else TakeLine(s[1..]).Some? && LF !in TakeLine(s[1..]).value
  }

  /** Every line of the parsed frame that starts `s` is clean. */
  predicate Clean(s: bytes, levels: nat)
    requires Parse(s, levels).Done?
    decreases levels, 0
  {
    hide ParseAll, TakeI64, ParseScalar;
    ParseNeedsInput(s, levels);
    if IsAggregatePrefix(s[0]) then
      ParsedAggregate(s, levels);
      var len := TakeI64(s[1..]);
      CleanLine(s) &&
      (len.value >= 0 ==> CleanAll(s[1 + len.used..], ChildCount(s[0], len.value), levels - 1))
    else CleanLine(s)
  }

  predicate CleanAll(s: bytes, n: nat, levels: nat)
    requires ParseAll(s, n, levels).Done?
    decreases levels, 1, n
  {
    n == 0 || (Clean(s, levels) && CleanAll(s[Parse(s, levels).used..], n - 1, levels))
  }

  /** A clean line is what the reader takes; any other makes it fail. */
  lemma CleanLineIsReaderLine(s: bytes)
    requires s != [] && (if IsInlinePrefix(s[0]) then TakeLine(s).Some? else TakeLine(s[1..]).Some?)
    ensures CleanLine(s) <==>
      if IsInlinePrefix(s[0]) then ReaderLine(s[1..]).Some? && TakeLine(s) == Some([s[0]] + ReaderLine(s[1..]).value)
      else ReaderLine(s[1..]) == TakeLine(s[1..])
    ensures !CleanLine(s) ==> ReaderLine(s[1..]).None?
  {
    if IsInlinePrefix(s[0]) {
      if ReaderLine(s[1..]).Some? { InlineLine(s); }
      var text := TakeLine(s).value;
      if text != [] {
        assert text[1..] == s[1..][..|text| - 1];
        assert CrlfAt(s[1..], |text| - 1);
        assert forall i :: 0 <= i < |text| - 1 ==> CrlfAt(s[1..], i) == CrlfAt(s, i + 1);
        var line := TakeLine(s[1..]).value;
        assert |line| == |text| - 1;
        LineIsReaderLine(s[1..]);
      }
    } else {
      LineIsReaderLine(s[1..]);
    }
  }

  lemma ParsedBlob(s: bytes, levels: nat)
    requires Parse(s, levels).Done? && IsBlobPrefix(s[0])
    ensures TakeI64(s[1..]).Done?
    ensures var len := TakeI64(s[1..]);
      if len.value == -1 && s[0] == 36 then Parse(s, levels).used == 1 + len.used
      else
        TakeBlob(s[1 + len.used..], len.value).Done? && Parse(s, levels).used == 1 + len.used + len.value + 2
  {
    hide TakeI64, TakeBlob, ParseAggregate, ShellWords, BlobFrame, TakeLine;
  }

  lemma CleanBlobLine(s: bytes)
    requires s != [] && IsBlobPrefix(s[0]) && CleanLine(s)
    ensures ReaderLine(s[1..]).Some?
  {
    CleanLineIsReaderLine(s);
    hide ReaderLine, TakeLine;
  }

  lemma CleanBlobHead(s: bytes, levels: nat)
    requires Parse(s, levels).Done? && IsBlobPrefix(s[0]) && CleanLine(s)
    ensures HeadOf(s) == Leaf(Parse(s, levels).used)
  {
    hide Parse, ReaderLine, TakeI64, TakeBlob, TakeLine, ParseI64, ValidUtf8, CleanLine;
    ParsedBlob(s, levels);
    CleanBlobLine(s);
    TakeI64OfLine(s[1..]);
    var len := TakeI64(s[1..]);
    if len.value != -1 || s[0] != 36 { LeafBlobBody(s, 1 + len.used, len.value); }
  }

  lemma CleanScalarHead(s: bytes, levels: nat)
    requires Parse(s, levels).Done? && !IsAggregatePrefix(s[0]) && CleanLine(s)
    ensures HeadOf(s) == Leaf(Parse(s, levels).used)
  {
    if IsBlobPrefix(s[0]) {
      CleanBlobHead(s, levels);
    } else {
      CleanLineIsReaderLine(s);
      hide ReaderLine, TakeLine, ParseI64, ValidUtf8, ShellWords, ParseAggregate, ParseBlob, CleanLine;
    }
  }

  lemma CleanAggregateHead(s: bytes)
    requires s != [] && IsAggregatePrefix(s[0]) && CleanLine(s) && TakeI64(s[1..]).Done?
    requires var n := TakeI64(s[1..]).value; n >= 0 || (n == -1 && s[0] == 42)
    ensures var len := TakeI64(s[1..]);
      HeadOf(s) == if len.value < 0 then Leaf(1 + len.used) else Node(1 + len.used, ChildCount(s[0], len.value))
  {
    CleanLineIsReaderLine(s);
    TakeI64OfLine(s[1..]);
    hide ReaderLine, TakeI64, TakeLine, ParseI64, ValidUtf8, CleanLine;
  }

  lemma UncleanHead(s: bytes, levels: nat)
    requires Parse(s, levels).Done? && !CleanLine(s)
    ensures HeadOf(s) == Bad
  {
    assert if IsInlinePrefix(s[0]) then TakeLine(s).Some? else TakeLine(s[1..]).Some? by {
      hide TakeLine, ValidUtf8, ParseI64, ShellWords, ParseAll, CleanLine;
    }
    CleanLineIsReaderLine(s);
    hide ReaderLine, Parse, CleanLine, TakeLine;
  }

  lemma {:induction false} ParseIsSpan(s: bytes, levels: nat)
    requires Parse(s, levels).Done?
    ensures Span(s, levels) == if Clean(s, levels) then Some(Parse(s, levels).used) else None
    decreases levels, 0
  {
    hide HeadOf, ParseAll, ParseScalar, CleanLine, TakeI64, AggregateFrame;
    if !CleanLine(s) {
      UncleanHead(s, levels);
    } else if !IsAggregatePrefix(s[0]) {
      CleanScalarHead(s, levels);
    } else {
      ParsedAggregate(s, levels);
      CleanAggregateHead(s);
      var len := TakeI64(s[1..]);
      if len.value >= 0 {
        ParseAllIsSpans(s[1 + len.used..], ChildCount(s[0], len.value), levels - 1);
      }
    }
  }

  lemma {:induction false} ParseAllIsSpans(s: bytes, n: nat, levels: nat)
    requires ParseAll(s, n, levels).Done?
    ensures Spans(s, n, levels) == if CleanAll(s, n, levels) then Some(ParseAll(s, n, levels).used) else None
    decreases levels, 1, n
  {
    hide Parse, Span, Clean;
    if n > 0 {
      ParseIsSpan(s, levels);
      ParseAllIsSpans(s[Parse(s, levels).used..], n - 1, levels);
    }
  }

  // ---------------------------------------------------------------- theorems

  /** Whatever the reader returns, the parser consumes whole; it can only object
      to what a scalar says, never to truncation, trailing bytes, depth or size. */
  lemma ReaderOutputParses(s: bytes)
    requires Read(s).Some?
    ensures var raw := Read(s).value;
      raw <= s && (ParseFrame(raw).Ok? || IsContent(ParseFrame(raw).error))
  {
    hide Span, Parse;
    var raw := Read(s).value;
    assert raw[..|raw|] == raw;
    SpanIsLocal(s, raw, MAX_FRAME_DEPTH);
    SpanIsParse(raw, MAX_FRAME_DEPTH);
  }

  /** Conversely the reader returns exactly a parseable frame, whatever follows
      it, if and only if every line of the frame is clean. */
  lemma ReaderTakesParsedFrames(raw: bytes, following: bytes)
    requires ParseFrame(raw).Ok?
    ensures Read(raw + following) == Some(raw) <==> Clean(raw, MAX_FRAME_DEPTH)
  {
    hide Span, Parse, Clean;
    var s := raw + following;
    ParseIsSpan(raw, MAX_FRAME_DEPTH);
    assert s[..|raw|] == raw && raw[..|raw|] == raw;
    if Clean(raw, MAX_FRAME_DEPTH) {
      SpanIsLocal(raw, s, MAX_FRAME_DEPTH);
    } else if Read(s) == Some(raw) {
      SpanIsLocal(s, raw, MAX_FRAME_DEPTH);
    }
  }

  lemma ReadNeedsLine(s: bytes)
    requires s != [] && ReaderLine(s[1..]).None?
    ensures Read(s).None?
  {}

  lemma NoReaderLine(s: bytes, k: nat)
    requires k < |s| && s[k] == LF && (k == 0 || s[k - 1] != CR) && forall i :: 0 <= i < k ==> s[i] != LF
    ensures ReaderLine(s).None?
  {}

  /** Two inputs that the parser accepts and the reader refuses, whatever follows:
      a bare LF in the text of a frame, */
  lemma BareLfIsRefused(following: bytes)
    ensures var raw := [43, 97, LF, 98, CR, LF];
      ParseFrame(raw) == Ok(SimpleString([97, LF, 98])) && Read(raw + following).None?
  {
    var raw, text := [43, 97, LF, 98, CR, LF], [97, LF, 98];
    NoReaderLine((raw + following)[1..], 1);
    ReadNeedsLine(raw + following);
    hide Read, ParseFrame;
    assert RoundTripNode(SimpleString(text)) by { AsciiIsUtf8(text); }
    LeafEncoding(SimpleString(text), raw);
    LeafIsGivenBack(SimpleString(text));
  }

  /** and an empty inline line. */
  lemma EmptyLineIsRefused(following: bytes)
    ensures ParseFrame(CRLF) == Ok(Inline([[CR]])) && Read(CRLF + following).None?
  {
    NoReaderLine((CRLF + following)[1..], 0);
    ReadNeedsLine(CRLF + following);
    hide Read;
    ParseInlineStep(CRLF, [], MAX_FRAME_DEPTH);
    hide Parse;
  }

  // ------------------------------------------------ frames the program prints

  /** No line text of the node holds a LF. */
  predicate LfFreeNode(f: Frame) {
    match f
    case SimpleString(text) => LF !in text
    case SimpleError(text) => LF !in text
    case Double(text) => LF !in text
    case BigNumber(text) => LF !in text
    case _ => true
  }

  lemma OwnLine(f: Frame, t: bytes)
    requires PlainNode(f)
    ensures var s := Own(f, None) + t;
      s[0] == Prefix(f) && TakeLine(s[1..]) == Some(HeaderText(f, None))
  {
    var text := HeaderText(f, None);
    HeaderIsText(f);
    OwnParts(f);
    hide TakeLine, IsText, Decimal, HeaderText, PlainNode, Own;
    if IsBlob(f) {
      Assoc(PushLine(Prefix(f), text), f.body + CRLF, t);
      ReadLine(Prefix(f), text, f.body + CRLF + t);
    } else {
      assert PushLine(Prefix(f), text) + [] == PushLine(Prefix(f), text);
      ReadLine(Prefix(f), text, t);
    }
  }

  lemma HeaderIsText(f: Frame)
    requires PlainNode(f)
    ensures IsText(HeaderText(f, None))
  {
    hide Decimal;
    if f.Null? || f.Boolean? { AsciiIsUtf8(HeaderText(f, None)); }
    if f.Integer? { DecimalIsPlain(f.number); }
    if DeclaredLength(f).Some? { DecimalIsPlain(DeclaredLength(f).value); }
    hide CrlfFree, ValidUtf8;
  }

  lemma OwnParts(f: Frame)
    requires !f.Inline?
    ensures Own(f, None) == PushLine(Prefix(f), HeaderText(f, None)) + (if IsBlob(f) then f.body + CRLF else [])
  {
    hide HeaderText;
  }

  lemma OwnInlineClean(parts: seq<bytes>, t: bytes)
    requires KeepsParts(parts)
    ensures CleanLine(Own(Inline(parts), None) + t)
  {
    InlineText(parts);
    TakeLineOfLine(Words(parts), t);
    hide TakeLine, Words, KeepsParts, InlineFrame;
  }

  lemma OwnLineClean(f: Frame, t: bytes)
    requires RoundTripNode(f)
    ensures CleanLine(Own(f, None) + t) <==> LfFreeNode(f)
  {
    hide TakeLine, Own, KeepsParts;
    if f.Inline? { OwnInlineClean(f.parts, t); } else { OwnLine(f, t); }
  }

  lemma {:induction false} CleanEncoding(f: Frame, t: bytes, levels: nat)
    requires Recoverable(f) && Depth(f) <= levels
    ensures Parse(Encode(f) + t, levels) == Done(f, |Encode(f)|)
    ensures Clean(Encode(f) + t, levels) <==> Every(f, LfFreeNode)
    decreases Nodes(f), 0
  {
    hide Parse, ParseAll, TakeI64, Own, Decimal, CleanLine, PlainNode, KeepsParts, LfFreeNode;
    NodesOfChildren(f);
    ParseEncoding(f, t, levels);
    var s, children := Encode(f) + t, EncodeAll(Children(f));
    Assoc(Own(f, None), children, t);
    OwnLineClean(f, children + t);
    OwnStart(f, children + t);
    if IsAggregate(f) {
      CleanEncodingAll(Children(f), t, levels - 1);
      OwnNumber(f, children + t);
    } else if f.NullArray? {
      OwnNumber(f, children + t);
    }
  }

  lemma OwnStart(f: Frame, t: bytes)
    requires RoundTripNode(f)
    ensures IsAggregatePrefix((Own(f, None) + t)[0]) <==> IsAggregate(f) || f.NullArray?
    ensures !f.Inline? ==> (Own(f, None) + t)[0] == Prefix(f)
  {
    if f.Inline? { InlineText(f.parts); }
    hide KeepsParts, Words;
  }

  lemma OwnNumber(f: Frame, t: bytes)
    requires PlainNode(f) && (IsAggregate(f) || f.NullArray?)
    ensures var s, n := Own(f, None) + t, DeclaredLength(f).value;
      TakeI64(s[1..]) == Done(n, |Own(f, None)| - 1) && s[|Own(f, None)|..] == t
    ensures IsAggregate(f) ==> ChildCount(Prefix(f), DeclaredLength(f).value) == |Children(f)|
  {
    hide TakeI64, Decimal, Flatten;
    var n := DeclaredLength(f).value;
    assert Own(f, None) == PushLine(Prefix(f), Decimal(n));
    hide Own;
    ReadNumber(Prefix(f), n, t);
  }

  lemma {:induction false} CleanEncodingAll(fs: seq<Frame>, t: bytes, levels: nat)
    requires EveryAll(fs, RoundTripNode) && DepthAll(fs) <= levels
    ensures ParseAll(EncodeAll(fs) + t, |fs|, levels) == Done(fs, |EncodeAll(fs)|)
    ensures CleanAll(EncodeAll(fs) + t, |fs|, levels) <==> EveryAll(fs, LfFreeNode)
    decreases NodesAll(fs), 1
  {
    hide Parse, ParseAll, Clean, Depth, Encode, Every;
    ParseEncodingAll(fs, t, levels);
    if fs != [] {
      Assoc(Encode(fs[0]), EncodeAll(fs[1..]), t);
      CleanEncoding(fs[0], EncodeAll(fs[1..]) + t, levels);
      CleanEncodingAll(fs[1..], t, levels);
    }
  }

  /** On the frames that the parser gives back the three agree: the reader returns
      an encoding, whatever follows it, exactly when no line text holds a LF. */
  lemma ReaderTakesEncodings(f: Frame, following: bytes)
    requires Recoverable(f) && |Encode(f)| <= MAX_FRAME_BYTES && Depth(f) <= MAX_FRAME_DEPTH
    ensures Read(Encode(f) + following) == Some(Encode(f)) <==> Every(f, LfFreeNode)
  {
    hide Clean, Every, Read, Encode, ParseFrame;
    ParseUndoesEncode(f);
    CleanEncoding(f, [], MAX_FRAME_DEPTH);
    assert Encode(f) + [] == Encode(f);
    ReaderTakesParsedFrames(Encode(f), following);
  }
}
