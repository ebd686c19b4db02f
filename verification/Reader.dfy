/** The stream reader finds where a frame ends with a stack of unread-child
    counts. `Span` is the recursive meaning of that search. */
module Reader {
  import opened Bytes
  import opened Frames
  import opened Parser

  function FirstLf(s: bytes): (r: Option<nat>)
    ensures r.Some? ==> r.value < |s| && s[r.value] == LF && forall i :: 0 <= i < r.value ==> s[i] != LF
    ensures r.None? ==> LF !in s
  {
    if s == [] then None
    else if s[0] == LF then Some(0)
    else
      var r := FirstLf(s[1..]);
      if r.None? then None else
        assert forall i :: 1 <= i < |s| ==> s[i] == s[1..][i - 1];
        Some(r.value + 1)
  }

  /** A line ends at the first LF, which must follow a CR. */
  function ReaderLine(s: bytes): (r: Option<bytes>)
    ensures r.Some? ==> |r.value| + 2 <= |s| && r.value == s[..|r.value|] && CrlfAt(s, |r.value|) && LF !in r.value
  {
    var lf := FirstLf(s);
    if lf.Some? && lf.value > 0 && s[lf.value - 1] == CR then Some(s[..lf.value - 1]) else None
  }

  datatype Length = Invalid | Absent | Len(n: nat)

  function ParseLen(line: bytes, nullable: bool): (r: Length) {
    var n := if ValidUtf8(line) then ParseI64(line) else None;
    if n.None? then Invalid
    else if nullable && n.value == -1 then Absent
    else if n.value < 0 then Invalid
    else Len(n.value)
  }

  /** What the bytes before any child say: how many they are and, for an
      aggregate, how many children follow. */
  datatype Head = Bad | Leaf(size: nat) | Node(size: nat, children: nat)

  function HeadOf(s: bytes): (h: Head)
    ensures !h.Bad? ==> 3 <= h.size <= |s|
  {
    if s == [] || ReaderLine(s[1..]).None? then Bad
    else
      var line := ReaderLine(s[1..]).value;
      var size := |line| + 3;
      if IsBlobPrefix(s[0]) then
        match ParseLen(line, s[0] == 36)
        case Invalid => Bad
        case Absent => Leaf(size)
        case Len(n) =>
          if size + n + 2 <= |s| && CrlfAt(s, size + n) then Leaf(size + n + 2) else Bad
      else if IsAggregatePrefix(s[0]) then
        match ParseLen(line, s[0] == 42)
        case Invalid => Bad
        case Absent => Leaf(size)
        case Len(n) => Node(size, ChildCount(s[0], n))
      else Leaf(size)
  }

  function Plus(n: nat, r: Option<nat>): (result: Option<nat>) { if r.Some? then Some(n + r.value) else None }

  /** Length of the frame that starts `s`, with `levels` nesting levels left. */
  function Span(s: bytes, levels: nat): (r: Option<nat>)
    ensures r.Some? ==> 3 <= r.value <= |s|
    decreases levels, 0
  {
    if levels == 0 then None
    else
      match HeadOf(s)
      case Bad => None
      case Leaf(size) => Some(size)
      case Node(size, children) => Plus(size, Spans(s[size..], children, levels - 1))
  }

  function Spans(s: bytes, n: nat, levels: nat): (r: Option<nat>)
    ensures r.Some? ==> 3 * n <= r.value <= |s|
    decreases levels, 1, n
  {
    if n == 0 then Some(0)
    else
      match Span(s, levels)
      case None => None
      case Some(k) => Plus(k, Spans(s[k..], n - 1, levels))
  }

  /** What the reader returns on a stream that carries `s` and then ends. */
  function Read(s: bytes): (r: Option<bytes>) {
    var k := Span(s, MAX_FRAME_DEPTH);
    if k.Some? && k.value <= MAX_FRAME_BYTES then Some(s[..k.value]) else None
  }

  // ------------------------------------------------ the stack of child counts

  function LevelsAt(height: nat): (n: nat) {
    if height <= MAX_FRAME_DEPTH + 1 then MAX_FRAME_DEPTH + 1 - height else 0
  }

  /** Bytes still to be read when `pending` counts the unread children. */
  function SpanPending(s: bytes, pending: seq<nat>): (r: Option<nat>)
    ensures r.Some? ==> r.value <= |s|
    decreases |pending|, 0
  {
    if pending == [] then Some(0)
    else
      var top := |pending| - 1;
      Continue(s, Spans(s, pending[top], LevelsAt(|pending|)), pending[..top])
  }

  /** The bytes `k` first, then what `pending` asks for. */
  function Continue(s: bytes, k: Option<nat>, pending: seq<nat>): (r: Option<nat>)
    requires k.Some? ==> k.value <= |s|
    ensures r.Some? ==> r.value <= |s|
    decreases |pending|, 1
  {
    if k.None? then None else Plus(k.value, SpanPending(s[k.value..], pending))
  }

  lemma SpanPendingTop(s: bytes, pending: seq<nat>, n: nat)
    ensures SpanPending(s, pending + [n]) == Continue(s, Spans(s, n, LevelsAt(|pending| + 1)), pending)
  {
    assert (pending + [n])[..|pending|] == pending;
  }

  lemma ContinuePlus(s: bytes, n: nat, k: Option<nat>, pending: seq<nat>)
    requires n <= |s| && (k.Some? ==> n + k.value <= |s|)
    ensures Continue(s, Plus(n, k), pending) == Plus(n, Continue(s[n..], k, pending))
  {
    if k.Some? { DropDrop(s, n, k.value); }
  }

  function Limited(s: bytes, used: nat, pending: seq<nat>): (r: Option<nat>)
    requires used <= |s|
  {
    var k := SpanPending(s[used..], pending);
    if k.Some? && used + k.value <= MAX_FRAME_BYTES then Some(used + k.value) else None
  }

  lemma EmptyStack(s: bytes)
    ensures SpanPending(s, []) == Some(0)
  {}

  lemma LimitedStart(s: bytes)
    ensures Limited(s, 0, [1]) == if Read(s).Some? then Some(|Read(s).value|) else None
  {
    hide Span, SpanPending;
    SpanPendingTop(s, [], 1);
    assert [] + [1] == [1] && s[0..] == s;
    var k := Span(s, MAX_FRAME_DEPTH);
    if k.Some? {
      assert Spans(s[k.value..], 0, MAX_FRAME_DEPTH) == Some(0);
      assert SpanPending(s[k.value..], []) == Some(0) by { EmptyStack(s[k.value..]); }
    }
  }

  lemma LimitedPop(s: bytes, used: nat, pending: seq<nat>)
    requires used <= |s|
    ensures Limited(s, used, pending + [0]) == Limited(s, used, pending)
  {
    SpanPendingTop(s[used..], pending, 0);
    assert s[used..][0..] == s[used..];
  }

  lemma LimitedDeep(s: bytes, used: nat, pending: seq<nat>, n: nat)
    requires used <= |s| && n > 0 && |pending| >= MAX_FRAME_DEPTH
    ensures Limited(s, used, pending + [n]) == None
  {
    SpanPendingTop(s[used..], pending, n);
  }

  /** Unread frames after the one that starts `s` and takes `k` bytes. */
  lemma SpansAfter(s: bytes, n: nat, levels: nat)
    requires n > 0 && levels > 0
    ensures var head := HeadOf(s);
      && (head.Bad? ==> Spans(s, n, levels) == None)
      && (head.Leaf? ==> Spans(s, n, levels) == Plus(head.size, Spans(s[head.size..], n - 1, levels)))
      && (head.Node? ==>
            var inner := Spans(s[head.size..], head.children, levels - 1);
            Spans(s, n, levels) ==
            if inner.None? then None
            else Plus(head.size + inner.value, Spans(s[head.size + inner.value..], n - 1, levels)))
  {
    hide HeadOf;
  }

  lemma SpanPendingLeaf(s: bytes, pending: seq<nat>, n: nat)
    requires n > 0 && |pending| < MAX_FRAME_DEPTH && HeadOf(s).Leaf?
    ensures SpanPending(s, pending + [n]) == Plus(HeadOf(s).size, SpanPending(s[HeadOf(s).size..], pending + [n - 1]))
  {
    hide HeadOf, SpanPending, Spans, Continue;
    var h, levels := HeadOf(s).size, LevelsAt(|pending| + 1);
    SpansAfter(s, n, levels);
    SpanPendingTop(s, pending, n);
    SpanPendingTop(s[h..], pending, n - 1);
    ContinuePlus(s, h, Spans(s[h..], n - 1, levels), pending);
  }

  lemma SpanPendingNode(s: bytes, pending: seq<nat>, n: nat)
    requires n > 0 && |pending| < MAX_FRAME_DEPTH && HeadOf(s).Node?
    ensures SpanPending(s, pending + [n])
         == Plus(HeadOf(s).size, SpanPending(s[HeadOf(s).size..], pending + [n - 1] + [HeadOf(s).children]))
  {
    hide HeadOf, SpanPending, Spans, LevelsAt, Continue;
    var h, c, levels := HeadOf(s).size, HeadOf(s).children, LevelsAt(|pending| + 1);
    LevelsStep(|pending|);
    var inner := Spans(s[h..], c, levels - 1);
    SpansAfter(s, n, levels);
    SpanPendingTop(s, pending, n);
    SpanPendingTop(s[h..], pending + [n - 1], c);
    if inner.Some? {
      var k := h + inner.value;
      DropDrop(s, h, inner.value);
      SpanPendingTop(s[k..], pending, n - 1);
      ContinuePlus(s, k, Spans(s[k..], n - 1, levels), pending);
      ContinueSome(s[h..], inner.value, pending + [n - 1]);
      PlusPlus(h, inner.value, SpanPending(s[k..], pending + [n - 1]));
    } else {
      ContinueNone(s, pending);
      ContinueNone(s[h..], pending + [n - 1]);
    }
  }

  lemma LevelsStep(height: nat)
    requires height < MAX_FRAME_DEPTH
    ensures LevelsAt(height + 1) > 0 && LevelsAt(height + 2) == LevelsAt(height + 1) - 1
  {}

  lemma ContinueNone(s: bytes, pending: seq<nat>)
    ensures Continue(s, None, pending) == None
  {}

  lemma ContinueSome(s: bytes, k: nat, pending: seq<nat>)
    requires k <= |s|
    ensures Continue(s, Some(k), pending) == Plus(k, SpanPending(s[k..], pending))
  {
    hide SpanPending;
  }

  lemma PlusPlus(m: nat, n: nat, r: Option<nat>)
    ensures Plus(m, Plus(n, r)) == Plus(m + n, r)
  {}

  lemma DropDrop<T>(s: seq<T>, i: nat, j: nat)
    requires i + j <= |s|
    ensures s[i..][j..] == s[i + j..]
  {}

  /** One round of the loop keeps the answer. */
  lemma LimitedStep(s: bytes, used: nat, pending: seq<nat>, n: nat)
    requires used <= |s| && n > 0 && |pending| < MAX_FRAME_DEPTH
    ensures var head, before := HeadOf(s[used..]), Limited(s, used, pending + [n]);
      && (head.Bad? ==> before == None)
      && (!head.Bad? && used + head.size > MAX_FRAME_BYTES ==> before == None)
      && (head.Leaf? ==> before == Limited(s, used + head.size, pending + [n - 1]))
      && (head.Node? ==> before == Limited(s, used + head.size, pending + [n - 1] + [head.children]))
      && (head.Node? && used + head.size + 3 * head.children > MAX_FRAME_BYTES ==> before == None)
  {
    hide HeadOf, SpanPending, Spans;
    var t := s[used..];
    var head := HeadOf(t);
    SpanPendingTop(t, pending, n);
    SpansAfter(t, n, LevelsAt(|pending| + 1));
    if head.Leaf? {
      SpanPendingLeaf(t, pending, n);
      DropDrop(s, used, head.size);
    } else if head.Node? {
      SpanPendingNode(t, pending, n);
      DropDrop(s, used, head.size);
      SpanPendingTop(s[used + head.size..], pending + [n - 1], head.children);
    }
  }
}
