/** The recursive-descent parser: what it computes as a function of the unread
    bytes, and the class that advances a position and a depth over a buffer. */
module Parser {
  import opened Bytes
  import opened Frames

  const MAX_FRAME_BYTES: nat := 64 * 1024 * 1024
  const MAX_FRAME_DEPTH: nat := 128

  datatype Error =
    | TooLarge | TrailingBytes | EmptyInput | TooDeep | MissingLine
    | TruncatedAggregate | TruncatedBlob | BlobTerminator | NegativeLength
    | InvalidUtf8 | InvalidInteger | InvalidNull | InvalidBoolean

  datatype Result<+T> = Ok(value: T) | Err(error: Error)

  /** A parsed value and the number of bytes it took. */
  datatype Parsed<+T> = Done(value: T, used: nat) | Failed(error: Error)

  // ------------------------------------------------- scalars and line content

  function TakeText(s: bytes): (r: Parsed<bytes>)
    ensures r.Done? ==> 2 <= r.used <= |s|
  {
    match TakeLine(s)
    case None => Failed(MissingLine)
    case Some(text) => if ValidUtf8(text) then Done(text, |text| + 2) else Failed(InvalidUtf8)
  }

  function TakeI64(s: bytes): (r: Parsed<int>)
    ensures r.Done? ==> 2 <= r.used <= |s| && IsI64(r.value)
  {
    match TakeText(s)
    case Failed(error) => Failed(error)
    case Done(text, used) =>
      var n := ParseI64(text);
      if n.Some? then Done(n.value, used) else Failed(InvalidInteger)
  }

  function TakeBlob(s: bytes, len: int): (r: Parsed<bytes>)
    ensures r.Done? ==> r.used == len + 2 <= |s|
  {
    if len < 0 then Failed(NegativeLength)
    else if |s| < 2 || len > |s| - 2 then Failed(TruncatedBlob)
    else if s[len] != CR || s[len + 1] != LF then Failed(BlobTerminator)
    else Done(s[..len], len + 2)
  }

  predicate IsSpace(b: byte) { b == 9 || b == 10 || b == 12 || b == 13 || b == 32 }

  /** The maximal runs of non-space bytes; `word` is the run being read. */
  function WordsFrom(word: bytes, s: bytes): (r: seq<bytes>)
    decreases |s|
  {
    var done := if word == [] then [] else [word];
    if s == [] then done
    else if IsSpace(s[0]) then done + WordsFrom([], s[1..])
    else WordsFrom(word + [s[0]], s[1..])
  }

  function ShellWords(line: bytes): (r: seq<bytes>) { WordsFrom([], line) }

  predicate IsTextPrefix(p: byte) { p == 43 || p == 45 || p == 44 || p == 40 }
  predicate IsBlobPrefix(p: byte) { p == 36 || p == 33 || p == 61 }
  predicate IsPairedPrefix(p: byte) { p == 37 || p == 124 }
  predicate IsAggregatePrefix(p: byte) { p == 42 || p == 126 || p == 62 || IsPairedPrefix(p) }
  predicate IsInlinePrefix(p: byte) {
    !IsTextPrefix(p) && !IsBlobPrefix(p) && !IsAggregatePrefix(p) && p != 58 && p != 95 && p != 35
  }

  function TextFrame(p: byte, text: bytes): (r: Frame) {
    if p == 43 then SimpleString(text) else if p == 45 then SimpleError(text)
    else if p == 44 then Double(text) else BigNumber(text)
  }

  function BlobFrame(p: byte, body: bytes): (r: Frame) {
    if p == 36 then BulkString(body) else if p == 33 then BulkError(body) else VerbatimString(body)
  }

  function AggregateFrame(p: byte, fs: seq<Frame>): (r: Frame)
    requires IsAggregatePrefix(p) && (IsPairedPrefix(p) ==> |fs| % 2 == 0)
  {
    if p == 42 then Array(fs) else if p == 126 then Set(fs) else if p == 62 then Push(fs)
    else if p == 37 then Map(Paired(fs)) else Attribute(Paired(fs))
  }

  // ------------------------------------------------------------- the function

  /** Parse the frame that starts `s`, with `levels` nesting levels left. */
  function Parse(s: bytes, levels: nat): (r: Parsed<Frame>)
    ensures r.Done? ==> 0 < r.used <= |s|
    decreases levels, 1
  {
    if levels == 0 then Failed(TooDeep)
    else if s == [] then Failed(EmptyInput)
    else if IsAggregatePrefix(s[0]) then ParseAggregate(s, levels)
    else ParseScalar(s)
  }

  function ParseScalar(s: bytes): (r: Parsed<Frame>)
    requires s != [] && !IsAggregatePrefix(s[0])
    ensures r.Done? ==> 0 < r.used <= |s|
  {
    var p := s[0];
    if IsTextPrefix(p) then
      match TakeText(s[1..])
      case Failed(error) => Failed(error)
      case Done(text, used) => Done(TextFrame(p, text), 1 + used)
    else if p == 58 then
      match TakeI64(s[1..])
      case Failed(error) => Failed(error)
      case Done(n, used) => Done(Integer(n), 1 + used)
    else if IsBlobPrefix(p) then ParseBlob(s)
    else if p == 95 || p == 35 then
      match TakeLine(s[1..])
      case None => Failed(MissingLine)
      case Some(text) =>
        if p == 95 then (if text == [] then Done(Null, 3) else Failed(InvalidNull))
        else if text == [116] then Done(Boolean(true), 4)
        else if text == [102] then Done(Boolean(false), 4)
        else Failed(InvalidBoolean)
    else
      match TakeLine(s)
      case None => Failed(MissingLine)
      case Some(text) =>
        var words := ShellWords(text);
        Done(Inline(if words == [] then [[p]] else words), |text| + 2)
  }

  function ParseBlob(s: bytes): (r: Parsed<Frame>)
    requires s != [] && IsBlobPrefix(s[0])
    ensures r.Done? ==> 0 < r.used <= |s|
  {
    match TakeI64(s[1..])
    case Failed(error) => Failed(error)
    case Done(len, used) =>
      if s[0] == 36 && len == -1 then Done(NullBulk, 1 + used)
      else
        match TakeBlob(s[1 + used..], len)
        case Failed(error) => Failed(error)
        case Done(body, after) => Done(BlobFrame(s[0], body), 1 + used + after)
  }

  /** How many children an aggregate of the given length has. */
  function ChildCount(p: byte, len: nat): (n: nat)
    ensures IsPairedPrefix(p) ==> n % 2 == 0
  { if IsPairedPrefix(p) then 2 * len else len }

  function ParseAggregate(s: bytes, levels: nat): (r: Parsed<Frame>)
    requires s != [] && IsAggregatePrefix(s[0]) && levels > 0
    ensures r.Done? ==> 0 < r.used <= |s|
    decreases levels, 0
  {
    match TakeI64(s[1..])
    case Failed(error) => Failed(error)
    case Done(len, used) =>
      var rest := s[1 + used..];
      if s[0] == 42 && len == -1 then Done(NullArray, 1 + used)
      else if len < 0 then Failed(NegativeLength)
      else if len > |rest| / (if IsPairedPrefix(s[0]) then 6 else 3) then Failed(TruncatedAggregate)
      else
        match ParseAll(rest, ChildCount(s[0], len), levels - 1)
        case Failed(error) => Failed(error)
        case Done(fs, after) => Done(AggregateFrame(s[0], fs), 1 + used + after)
  }

  /** Parse `n` frames one after the other. */
  function ParseAll(s: bytes, n: nat, levels: nat): (r: Parsed<seq<Frame>>)
    ensures r.Done? ==> |r.value| == n && r.used <= |s|
    decreases levels, 2, n
  {
    if n == 0 then Done([], 0)
    else
      match Parse(s, levels)
      case Failed(error) => Failed(error)
      case Done(f, used) =>
        match ParseAll(s[used..], n - 1, levels)
        case Failed(error) => Failed(error)
        case Done(fs, after) => Done([f] + fs, used + after)
  }

  lemma ParseAllStep(s: bytes, f: Frame, used: nat, fs: seq<Frame>, after: nat, levels: nat)
    requires used <= |s| && fs != [] && f == fs[0]
    requires Parse(s, levels) == Done(f, used)
    requires ParseAll(s[used..], |fs| - 1, levels) == Done(fs[1..], after)
    ensures ParseAll(s, |fs|, levels) == Done(fs, used + after)
  {
    hide Parse;
    assert [f] + fs[1..] == fs;
  }

  lemma ParseTextStep(s: bytes, text: bytes, used: nat, levels: nat)
    requires s != [] && IsTextPrefix(s[0]) && levels > 0 && TakeText(s[1..]) == Done(text, used)
    ensures Parse(s, levels) == Done(TextFrame(s[0], text), 1 + used)
  {
    hide TakeText, TakeI64, TakeLine, ShellWords, ParseAggregate, ParseBlob, TextFrame;
  }

  function InlineFrame(p: byte, line: bytes): (r: Frame) {
    var words := ShellWords(line);
    Inline(if words == [] then [[p]] else words)
  }

  lemma ParseInlineStep(s: bytes, line: bytes, levels: nat)
    requires s != [] && IsInlinePrefix(s[0]) && levels > 0 && TakeLine(s) == Some(line)
    ensures Parse(s, levels) == Done(InlineFrame(s[0], line), |line| + 2)
  {
    hide TakeLine, ShellWords;
  }

  lemma ParsedInline(s: bytes, levels: nat)
    requires Parse(s, levels).Done? && Parse(s, levels).value.Inline?
    ensures s != [] && IsInlinePrefix(s[0]) && TakeLine(s).Some?
    ensures Parse(s, levels).value == InlineFrame(s[0], TakeLine(s).value)
  {
    hide TakeText, TakeI64, TakeLine, ShellWords, ParseAll, ParseBlob;
    if s != [] && IsBlobPrefix(s[0]) { BlobIsNotInline(s); }
  }

  lemma BlobIsNotInline(s: bytes)
    requires s != [] && IsBlobPrefix(s[0]) && ParseBlob(s).Done?
    ensures !ParseBlob(s).value.Inline?
  {
    hide TakeI64, TakeBlob;
  }

  lemma ParseFlagStep(s: bytes, f: Frame, levels: nat)
    requires s != [] && levels > 0 && (f.Null? || f.Boolean?) && s[0] == Prefix(f)
    requires TakeLine(s[1..]) == Some(HeaderText(f, None))
    ensures Parse(s, levels) == Done(f, |HeaderText(f, None)| + 3)
  {
    hide TakeText, TakeI64, TakeLine, ShellWords, ParseAggregate, ParseBlob, Decimal;
  }

  lemma ParseBlobStep(s: bytes, len: nat, used: nat, body: bytes, levels: nat)
    requires s != [] && IsBlobPrefix(s[0]) && levels > 0
    requires TakeI64(s[1..]) == Done(len, used)
    requires TakeBlob(s[1 + used..], len) == Done(body, len + 2)
    ensures Parse(s, levels) == Done(BlobFrame(s[0], body), 1 + used + len + 2)
  {
    hide TakeI64, TakeBlob, TakeText, TakeLine, ShellWords, ParseAggregate, BlobFrame;
  }

  lemma ParseNullBulkStep(s: bytes, used: nat, levels: nat)
    requires s != [] && s[0] == 36 && levels > 0 && TakeI64(s[1..]) == Done(-1, used)
    ensures Parse(s, levels) == Done(NullBulk, 1 + used)
  {
    hide TakeI64, TakeBlob, TakeText, TakeLine, ShellWords, ParseAggregate, BlobFrame;
  }

  lemma ParseAggregateStep(s: bytes, len: nat, used: nat, fs: seq<Frame>, after: nat, levels: nat)
    requires s != [] && IsAggregatePrefix(s[0]) && levels > 0
    requires TakeI64(s[1..]) == Done(len, used)
    requires len <= |s[1 + used..]| / (if IsPairedPrefix(s[0]) then 6 else 3)
    requires ParseAll(s[1 + used..], ChildCount(s[0], len), levels - 1) == Done(fs, after)
    ensures Parse(s, levels) == Done(AggregateFrame(s[0], fs), 1 + used + after)
  {
    hide TakeI64, ParseAll, ParseScalar, AggregateFrame;
  }

  lemma ParsedAggregate(s: bytes, levels: nat)
    requires Parse(s, levels).Done? && IsAggregatePrefix(s[0])
    ensures levels > 0 && TakeI64(s[1..]).Done?
    ensures var len := TakeI64(s[1..]);
      if len.value < 0 then Parse(s, levels) == Done(NullArray, 1 + len.used) && s[0] == 42 && len.value == -1
      else
        var inner := ParseAll(s[1 + len.used..], ChildCount(s[0], len.value), levels - 1);
        inner.Done? && Parse(s, levels) == Done(AggregateFrame(s[0], inner.value), 1 + len.used + inner.used)
  {
    hide TakeI64, ParseAll, ParseScalar, AggregateFrame;
  }

  function ParseFrame(s: bytes): (r: Result<Frame>) {
    if |s| > MAX_FRAME_BYTES then Err(TooLarge)
    else
      match Parse(s, MAX_FRAME_DEPTH)
      case Failed(error) => Err(error)
      case Done(f, used) => if used == |s| then Ok(f) else Err(TrailingBytes)
  }
}
