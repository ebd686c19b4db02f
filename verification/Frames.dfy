/** RESP frames: the tree, its wire encoding, and what makes a frame printable.
    The two null forms of the wire (`$-1` and `*-1`) are constructors of their
    own, and an entry of a map-like frame is a datatype. */
module Frames {
  import opened Bytes

  datatype Entry = Entry(key: Frame, value: Frame)

  datatype Frame =
    | SimpleString(text: bytes)
    | SimpleError(text: bytes)
    | Integer(number: int)
    | BulkString(body: bytes)
    | NullBulk
    | Array(items: seq<Frame>)
    | NullArray
    | Null
    | Boolean(flag: bool)
    | Double(text: bytes)
    | BigNumber(text: bytes)
    | BulkError(body: bytes)
    | VerbatimString(body: bytes)
    | Map(entries: seq<Entry>)
    | Set(items: seq<Frame>)
    | Push(items: seq<Frame>)
    | Attribute(entries: seq<Entry>)
    | Inline(parts: seq<bytes>)

  // ---------------------------------------------------------- tree structure

  /** Number of frames in the tree; the measure for recursion over `Children`. */
  function Nodes(f: Frame): (n: nat)
    ensures n >= 1
    decreases f, 1
  {
    match f
    case Array(items) => 1 + NodesAll(items)
    case Set(items) => 1 + NodesAll(items)
    case Push(items) => 1 + NodesAll(items)
    case Map(entries) => 1 + NodesEntries(entries)
    case Attribute(entries) => 1 + NodesEntries(entries)
    case _ => 1
  }

  function NodesAll(fs: seq<Frame>): (n: nat)
    decreases fs, 0
  {
    if fs == [] then 0 else Nodes(fs[0]) + NodesAll(fs[1..])
  }

  function NodesEntries(entries: seq<Entry>): (n: nat)
    decreases entries, 0
  {
    if entries == [] then 0 else NodesEntry(entries[0]) + NodesEntries(entries[1..])
  }

  function NodesEntry(entry: Entry): (n: nat)
    decreases entry, 2
  {
    Nodes(entry.key) + Nodes(entry.value)
  }

  function Flatten(entries: seq<Entry>): (fs: seq<Frame>)
    ensures |fs| == 2 * |entries|
  {
    if entries == [] then [] else [entries[0].key, entries[0].value] + Flatten(entries[1..])
  }

  function Paired(fs: seq<Frame>): (entries: seq<Entry>)
    requires |fs| % 2 == 0
    ensures 2 * |entries| == |fs|
  {
    if fs == [] then [] else [Entry(fs[0], fs[1])] + Paired(fs[2..])
  }

  /** The direct children in wire order: the keys and values of a map alternate. */
  function Children(f: Frame): (r: seq<Frame>) {
    match f
    case Array(items) => items
    case Set(items) => items
    case Push(items) => items
    case Map(entries) => Flatten(entries)
    case Attribute(entries) => Flatten(entries)
    case _ => []
  }

  predicate HasEntries(f: Frame) { f.Map? || f.Attribute? }

  predicate IsBlob(f: Frame) { f.BulkString? || f.BulkError? || f.VerbatimString? }

  predicate IsAggregate(f: Frame) { f.Array? || f.Set? || f.Push? || HasEntries(f) }

  lemma NodesOfCons(f: Frame, fs: seq<Frame>)
    ensures NodesAll([f] + fs) == Nodes(f) + NodesAll(fs)
  {
    assert ([f] + fs)[1..] == fs;
    hide Nodes;
  }

  lemma {:induction false} NodesOfFlatten(entries: seq<Entry>)
    ensures NodesAll(Flatten(entries)) == NodesEntries(entries)
  {
    if entries != [] {
      NodesOfFlatten(entries[1..]);
      var k, v, tail := entries[0].key, entries[0].value, Flatten(entries[1..]);
      assert Flatten(entries) == [k] + ([v] + tail);
      NodesOfCons(k, [v] + tail);
      NodesOfCons(v, tail);
    }
  }

  lemma NodesOfChildren(f: Frame)
    ensures Nodes(f) == 1 + NodesAll(Children(f))
  {
    if HasEntries(f) { NodesOfFlatten(f.entries); }
  }

  lemma {:induction false} NodesOfMember(fs: seq<Frame>, i: nat)
    requires i < |fs|
    ensures Nodes(fs[i]) <= NodesAll(fs)
  {
    if i > 0 { NodesOfMember(fs[1..], i - 1); }
  }

  lemma {:induction false} PairedOfFlatten(entries: seq<Entry>)
    ensures Paired(Flatten(entries)) == entries
  {
    if entries != [] {
      PairedOfFlatten(entries[1..]);
      assert Flatten(entries)[2..] == Flatten(entries[1..]);
    }
  }

  lemma {:induction false} FlattenOfPaired(fs: seq<Frame>)
    requires |fs| % 2 == 0
    ensures Flatten(Paired(fs)) == fs
  {
    if fs != [] {
      FlattenOfPaired(fs[2..]);
      assert Paired(fs)[1..] == Paired(fs[2..]);
    }
  }

  /** The same frame around other children. */
  function WithChildren(f: Frame, fs: seq<Frame>): (r: Frame)
    requires |fs| == |Children(f)|
  {
    match f
    case Array(_) => Array(fs)
    case Set(_) => Set(fs)
    case Push(_) => Push(fs)
    case Map(entries) => Map(Paired(fs))
    case Attribute(entries) => Attribute(Paired(fs))
    case _ => f
  }

  lemma ChildrenOfWithChildren(f: Frame, fs: seq<Frame>)
    requires |fs| == |Children(f)|
    ensures Children(WithChildren(f, fs)) == fs
    ensures fs == Children(f) ==> WithChildren(f, fs) == f
  {
    if HasEntries(f) {
      FlattenOfPaired(fs);
      PairedOfFlatten(f.entries);
    }
  }

  /** The same frame apart from its children. */
  predicate SameNode(f: Frame, g: Frame) {
    if IsAggregate(f) then IsAggregate(g) && Prefix(f) == Prefix(g) else f == g
  }

  lemma SameNodeOfWithChildren(f: Frame, fs: seq<Frame>)
    requires |fs| == |Children(f)|
    ensures SameNode(f, WithChildren(f, fs))
  {
    hide Flatten, Paired;
  }

  /** `p` holds of every frame in the tree. */
  predicate Every(f: Frame, p: Frame -> bool)
    decreases Nodes(f), 0
  {
    NodesOfChildren(f);
    p(f) && EveryAll(Children(f), p)
  }

  predicate EveryAll(fs: seq<Frame>, p: Frame -> bool)
    decreases NodesAll(fs), 1
  {
    fs == [] || (Every(fs[0], p) && EveryAll(fs[1..], p))
  }

  lemma {:induction false} EveryAllMembers(fs: seq<Frame>, p: Frame -> bool)
    ensures EveryAll(fs, p) <==> forall x :: x in fs ==> Every(x, p)
  {
    hide Every;
    if fs != [] {
      EveryAllMembers(fs[1..], p);
      if forall x :: x in fs ==> Every(x, p) {
        assert fs[0] in fs;
        forall x | x in fs[1..] ensures Every(x, p) { assert x in fs; }
      } else {
        var x :| x in fs && !Every(x, p);
        assert x == fs[0] || x in fs[1..];
      }
    }
  }

  lemma EveryLeaf(f: Frame, p: Frame -> bool)
    requires Children(f) == []
    ensures Every(f, p) <==> p(f)
  {}

  lemma {:induction false} EveryWeaken(f: Frame, p: Frame -> bool, q: Frame -> bool)
    requires Every(f, p) && forall g :: p(g) ==> q(g)
    ensures Every(f, q)
    decreases Nodes(f), 0
  {
    NodesOfChildren(f);
    EveryAllWeaken(Children(f), p, q);
  }

  lemma {:induction false} EveryAllWeaken(fs: seq<Frame>, p: Frame -> bool, q: Frame -> bool)
    requires EveryAll(fs, p) && forall g :: p(g) ==> q(g)
    ensures EveryAll(fs, q)
    decreases NodesAll(fs), 1
  {
    if fs != [] {
      EveryWeaken(fs[0], p, q);
      EveryAllWeaken(fs[1..], p, q);
    }
  }

  function Max(m: nat, n: nat): (r: nat) { if m > n then m else n }

  /** Number of nesting levels; a scalar has one. */
  function Depth(f: Frame): (d: nat)
    ensures d >= 1
    decreases Nodes(f), 0
  {
    NodesOfChildren(f);
    1 + DepthAll(Children(f))
  }

  function DepthAll(fs: seq<Frame>): (n: nat)
    decreases NodesAll(fs), 1
  {
    if fs == [] then 0 else Max(Depth(fs[0]), DepthAll(fs[1..]))
  }

  // ---------------------------------------------------------------- encoding

  function DeclaredLength(f: Frame): (r: Option<int>) {
    match f
    case NullBulk => Some(-1)
    case NullArray => Some(-1)
    case BulkString(body) => Some(|body|)
    case BulkError(body) => Some(|body|)
    case VerbatimString(body) => Some(|body|)
    case Array(items) => Some(|items|)
    case Set(items) => Some(|items|)
    case Push(items) => Some(|items|)
    case Map(entries) => Some(|entries|)
    case Attribute(entries) => Some(|entries|)
    case _ => None
  }

  function Words(parts: seq<bytes>): (s: bytes) {
    if parts == [] then []
    else if |parts| == 1 then parts[0]
    else parts[0] + [32] + Words(parts[1..])
  }

  function PushLine(prefix: byte, text: bytes): (s: bytes) { [prefix] + text + CRLF }

  function Prefix(f: Frame): (r: byte) {
    match f
    case SimpleString(_) => 43
    case SimpleError(_) => 45
    case Integer(_) => 58
    case BulkString(_) => 36
    case NullBulk => 36
    case Array(_) => 42
    case NullArray => 42
    case Null => 95
    case Boolean(_) => 35
    case Double(_) => 44
    case BigNumber(_) => 40
    case BulkError(_) => 33
    case VerbatimString(_) => 61
    case Map(_) => 37
    case Set(_) => 126
    case Push(_) => 62
    case Attribute(_) => 124
    case Inline(_) => 0 // an inline frame has no prefix byte
  }

  /** The line after the prefix, with a length header possibly replaced. */
  function HeaderText(f: Frame, replacement: Option<bytes>): (s: bytes) {
    match f
    case SimpleString(text) => text
    case SimpleError(text) => text
    case Integer(number) => Decimal(number)
    case Null => []
    case Boolean(flag) => if flag then [116] else [102]
    case Double(text) => text
    case BigNumber(text) => text
    case Inline(parts) => Words(parts)
    case _ => if replacement.Some? then replacement.value else Decimal(DeclaredLength(f).value)
  }

  /** What the frame writes itself, before its children. */
  function Own(f: Frame, replacement: Option<bytes>): (s: bytes) {
    if f.Inline? then HeaderText(f, replacement) + CRLF
    else if IsBlob(f) then PushLine(Prefix(f), HeaderText(f, replacement)) + (f.body + CRLF)
    else PushLine(Prefix(f), HeaderText(f, replacement))
  }

  function Encode(f: Frame): (s: bytes)
    decreases Nodes(f), 0
  {
    NodesOfChildren(f);
    Own(f, None) + EncodeAll(Children(f))
  }

  function EncodeAll(fs: seq<Frame>): (s: bytes)
    decreases NodesAll(fs), 1
  {
    if fs == [] then [] else Encode(fs[0]) + EncodeAll(fs[1..])
  }

  // ---------------------------------------------------------- well-formedness

  predicate IsText(s: bytes) { CrlfFree(s) && ValidUtf8(s) }

  /** What Rust's types guarantee of a frame (64-bit integers, lengths that fit
      in memory), with line texts free of CRLF and no inline command. */
  predicate PlainNode(f: Frame) {
    match f
    case SimpleString(text) => IsText(text)
    case SimpleError(text) => IsText(text)
    case Double(text) => IsText(text)
    case BigNumber(text) => IsText(text)
    case Integer(number) => IsI64(number)
    case Inline(_) => false
    case _ => DeclaredLength(f).Some? ==> IsI64(DeclaredLength(f).value)
  }

  predicate Plain(f: Frame) { Every(f, PlainNode) }
}
