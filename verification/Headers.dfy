/** Encoding with one length header overridden, addressed by pre-order index. */
module Headers {
  import opened Bytes
  import opened Frames
  import opened Paths

  /** Encode `f` with `replacement` in place of the length header of the frame
      reported `k`-th; bodies and children keep their real sizes. */
  function EncodeWith(f: Frame, k: int, replacement: bytes): (s: bytes)
    decreases Nodes(f), 0
  {
    NodesOfChildren(f);
    Own(f, if k == 0 then Some(replacement) else None) + EncodeAllWith(Children(f), k - 1, replacement)
  }

  function EncodeAllWith(fs: seq<Frame>, k: int, replacement: bytes): (s: bytes)
    decreases NodesAll(fs), 1
  {
    if fs == [] then []
    else EncodeWith(fs[0], k, replacement) + EncodeAllWith(fs[1..], k - Nodes(fs[0]), replacement)
  }

  lemma {:induction false} EncodeWithOutside(f: Frame, k: int, r: bytes)
    requires k < 0 || k >= Nodes(f)
    ensures EncodeWith(f, k, r) == Encode(f)
    decreases Nodes(f), 0
  {
    hide Own;
    NodesOfChildren(f);
    EncodeAllWithOutside(Children(f), k - 1, r);
  }

  lemma {:induction false} EncodeAllWithOutside(fs: seq<Frame>, k: int, r: bytes)
    requires k < 0 || k >= NodesAll(fs)
    ensures EncodeAllWith(fs, k, r) == EncodeAll(fs)
    decreases NodesAll(fs), 1
  {
    if fs != [] {
      EncodeWithOutside(fs[0], k, r);
      EncodeAllWithOutside(fs[1..], k - Nodes(fs[0]), r);
    }
  }

  // ------------------------------------------- the bytes around a length header

  function Before(f: Frame, k: nat): (s: bytes)
    requires k < Nodes(f)
    decreases Nodes(f), 0
  {
    NodesOfChildren(f);
    if k == 0 then [Prefix(f)] else Own(f, None) + BeforeAll(Children(f), k - 1)
  }

  function BeforeAll(fs: seq<Frame>, k: nat): (s: bytes)
    requires k < NodesAll(fs)
    decreases NodesAll(fs), 1
  {
    if k < Nodes(fs[0]) then Before(fs[0], k)
    else Encode(fs[0]) + BeforeAll(fs[1..], k - Nodes(fs[0]))
  }

  function After(f: Frame, k: nat): (s: bytes)
    requires k < Nodes(f)
    decreases Nodes(f), 0
  {
    NodesOfChildren(f);
    if k == 0 then CRLF + ((if IsBlob(f) then f.body + CRLF else []) + EncodeAll(Children(f)))
    else AfterAll(Children(f), k - 1)
  }

  function AfterAll(fs: seq<Frame>, k: nat): (s: bytes)
    requires k < NodesAll(fs)
    decreases NodesAll(fs), 1
  {
    if k < Nodes(fs[0]) then After(fs[0], k) + EncodeAll(fs[1..])
    else AfterAll(fs[1..], k - Nodes(fs[0]))
  }

  lemma EncodeWithParts(f: Frame, k: int, r: bytes)
    ensures EncodeWith(f, k, r) == Own(f, if k == 0 then Some(r) else None) + EncodeAllWith(Children(f), k - 1, r)
    ensures Encode(f) == Own(f, None) + EncodeAll(Children(f))
  {
    NodesOfChildren(f);
    hide Own, EncodeAllWith, EncodeAll;
  }

  /** The text between the two: the header itself, or its replacement. */
  lemma OwnAround(f: Frame, r: Option<bytes>, tail: bytes)
    requires DeclaredLength(f).Some?
    ensures var text := if r.Some? then r.value else Decimal(DeclaredLength(f).value);
      Own(f, r) + tail == [Prefix(f)] + text + (CRLF + ((if IsBlob(f) then f.body + CRLF else []) + tail))
  {
    hide Decimal;
    var text := if r.Some? then r.value else Decimal(DeclaredLength(f).value);
    assert HeaderText(f, r) == text;
    Assoc([Prefix(f)] + text, CRLF, tail);
    if IsBlob(f) {
      Assoc([Prefix(f)] + text + CRLF, f.body + CRLF, tail);
      Assoc([Prefix(f)] + text, CRLF, f.body + CRLF + tail);
    } else {
      assert [] + tail == tail;
    }
  }

  lemma OwnUnchanged(f: Frame, r: bytes)
    requires DeclaredLength(f).None?
    ensures Own(f, Some(r)) == Own(f, None)
  {}

  ghost predicate Surgical(whole: bytes, edited: bytes, pre: bytes, post: bytes, target: Frame, r: bytes) {
    if DeclaredLength(target).None? then edited == whole
    else whole == pre + Decimal(DeclaredLength(target).value) + post && edited == pre + r + post
  }

  lemma SurgicalInside(whole: bytes, edited: bytes, pre: bytes, post: bytes, target: Frame, r: bytes, left: bytes, right: bytes)
    requires Surgical(whole, edited, pre, post, target, r)
    ensures Surgical(left + whole + right, left + edited + right, left + pre, post + right, target, r)
  {
    hide Decimal;
    if DeclaredLength(target).Some? {
      var text := Decimal(DeclaredLength(target).value);
      Around(left, pre, text, post, right);
      Around(left, pre, r, post, right);
    }
  }

  lemma Around(left: bytes, pre: bytes, text: bytes, post: bytes, right: bytes)
    ensures left + (pre + text + post) + right == (left + pre) + text + (post + right)
  {}

  lemma {:induction false} EncodeWithIsSurgical(f: Frame, k: nat, path: Path, r: bytes)
    requires k < Nodes(f)
    ensures |Preorder(f, path)| == Nodes(f)
    ensures Surgical(Encode(f), EncodeWith(f, k, r), Before(f, k), After(f, k), Preorder(f, path)[k].frame, r)
    decreases Nodes(f), 0
  {
    hide Own, Decimal, Encode, EncodeWith, EncodeAllWith, EncodeAll, DeclaredLength, Surgical;
    hide Preorder, PreorderAll, Before, BeforeAll, After, AfterAll, Nodes, NodesAll, Children;
    PreorderLength(f, path);
    PreorderParts(f, path);
    assert Children(f)[0..] == Children(f);
    EncodeWithParts(f, k, r);
    AroundParts(f, k);
    if k == 0 {
      RootIsSurgical(f, r);
    } else {
      EncodeAllWithIsSurgical(Children(f), k - 1, path, 0, r);
      var target := PreorderAll(Children(f), path, 0)[k - 1].frame;
      SurgicalInside(EncodeAll(Children(f)), EncodeAllWith(Children(f), k - 1, r),
                     BeforeAll(Children(f), k - 1), AfterAll(Children(f), k - 1), target, r, Own(f, None), []);
      NoRight(Own(f, None) + EncodeAll(Children(f)));
      NoRight(Own(f, None) + EncodeAllWith(Children(f), k - 1, r));
      NoRight(AfterAll(Children(f), k - 1));
    }
  }

  lemma RootIsSurgical(f: Frame, r: bytes)
    ensures Surgical(Encode(f), EncodeWith(f, 0, r), Before(f, 0), After(f, 0), f, r)
  {
    EncodeWithParts(f, 0, r);
    EncodeAllWithOutside(Children(f), -1, r);
    var tail := EncodeAll(Children(f));
    if DeclaredLength(f).Some? {
      OwnAround(f, None, tail);
      OwnAround(f, Some(r), tail);
      RootParts(f);
      hide Own, Decimal, Encode, EncodeWith, EncodeAllWith, EncodeAll, Before, After, DeclaredLength;
    } else {
      OwnUnchanged(f, r);
      hide Own, Decimal, Encode, EncodeWith, EncodeAllWith, EncodeAll, Before, After, DeclaredLength;
    }
  }

  lemma AroundParts(f: Frame, k: nat)
    requires k < Nodes(f)
    ensures k > 0 ==> k - 1 < NodesAll(Children(f))
    ensures k > 0 ==> Before(f, k) == Own(f, None) + BeforeAll(Children(f), k - 1) && After(f, k) == AfterAll(Children(f), k - 1)
  {
    NodesOfChildren(f);
    hide Own, BeforeAll, AfterAll, Children;
  }

  lemma RootParts(f: Frame)
    ensures Before(f, 0) == [Prefix(f)]
    ensures After(f, 0) == CRLF + ((if IsBlob(f) then f.body + CRLF else []) + EncodeAll(Children(f)))
  {
    hide EncodeAll;
  }

  lemma NoRight(s: bytes)
    ensures s + [] == s
  {}

  lemma NoLeft(s: bytes)
    ensures [] + s == s
  {}

  lemma {:induction false} EncodeAllWithIsSurgical(fs: seq<Frame>, k: nat, path: Path, first: nat, r: bytes)
    requires k < NodesAll(fs)
    ensures |PreorderAll(fs, path, first)| == NodesAll(fs)
    ensures Surgical(EncodeAll(fs), EncodeAllWith(fs, k, r), BeforeAll(fs, k), AfterAll(fs, k),
                     PreorderAll(fs, path, first)[k].frame, r)
    decreases NodesAll(fs), 1
  {
    hide Surgical, Encode, EncodeWith, Preorder, Before, After;
    PreorderAllLength(fs, path, first);
    PreorderLength(fs[0], path + [first]);
    var n, head, rest := Nodes(fs[0]), Encode(fs[0]), EncodeAll(fs[1..]);
    if k < n {
      EncodeWithIsSurgical(fs[0], k, path + [first], r);
      EncodeAllWithOutside(fs[1..], k - n, r);
      var edited := EncodeWith(fs[0], k, r);
      SurgicalInside(head, edited, Before(fs[0], k), After(fs[0], k),
                     Preorder(fs[0], path + [first])[k].frame, r, [], rest);
      NoLeft(head);
      NoLeft(edited);
      NoLeft(Before(fs[0], k));
    } else {
      EncodeWithOutside(fs[0], k, r);
      EncodeAllWithIsSurgical(fs[1..], k - n, path, first + 1, r);
      var edited := EncodeAllWith(fs[1..], k - n, r);
      SurgicalInside(rest, edited, BeforeAll(fs[1..], k - n), AfterAll(fs[1..], k - n),
                     PreorderAll(fs[1..], path, first + 1)[k - n].frame, r, head, []);
      NoRight(head + rest);
      NoRight(head + edited);
      NoRight(AfterAll(fs[1..], k - n));
    }
  }

  /** Overriding the header of the `k`-th visited frame replaces exactly its
      decimal length and nothing else; frames without one are left alone. The
      bytes around the header do not depend on the replacement. */
  lemma OverrideIsSurgical(f: Frame, k: nat, r: bytes)
    requires k < Nodes(f)
    ensures |Preorder(f, [])| == Nodes(f)
    ensures var length := DeclaredLength(Preorder(f, [])[k].frame);
      if length.None? then EncodeWith(f, k, r) == Encode(f)
      else Encode(f) == Before(f, k) + Decimal(length.value) + After(f, k)
           && EncodeWith(f, k, r) == Before(f, k) + r + After(f, k)
  {
    hide Encode, EncodeWith, Preorder, Before, After, Decimal;
    EncodeWithIsSurgical(f, k, [], r);
  }

  /** The header in question is that of the visited frame: the encoding of that frame
      begins where the bytes before its length do, but for its prefix. */
  lemma {:induction false} HeaderOfTheFrame(f: Frame, k: nat, path: Path) returns (a: bytes, b: bytes)
    requires k < Nodes(f)
    ensures |Preorder(f, path)| == Nodes(f)
    ensures var g := Preorder(f, path)[k].frame;
      Encode(f) == a + Encode(g) + b && Before(f, k) == a + [Prefix(g)]
    decreases Nodes(f), 0
  {
    hide Own, Encode, EncodeAll, Preorder, PreorderAll, Before, BeforeAll, Nodes, NodesAll, Children;
    PreorderLength(f, path);
    PreorderParts(f, path);
    NodesOfChildren(f);
    EncodeWithParts(f, 0, []);
    assert Children(f)[0..] == Children(f);
    if k == 0 {
      a, b := [], [];
      RootParts(f);
      assert [] + Encode(f) + [] == Encode(f) && [] + [Prefix(f)] == [Prefix(f)];
    } else {
      a, b := HeaderAmong(Children(f), k - 1, path, 0);
      var g := PreorderAll(Children(f), path, 0)[k - 1].frame;
      AroundParts(f, k);
      Around(Own(f, None), a, Encode(g), b, []);
      Assoc(Own(f, None), a, [Prefix(g)]);
      NoRight(b);
      NoRight(Own(f, None) + (a + Encode(g) + b));
      a := Own(f, None) + a;
    }
  }

  lemma {:induction false} HeaderAmong(fs: seq<Frame>, k: nat, path: Path, first: nat) returns (a: bytes, b: bytes)
    requires k < NodesAll(fs)
    ensures |PreorderAll(fs, path, first)| == NodesAll(fs)
    ensures var g := PreorderAll(fs, path, first)[k].frame;
      EncodeAll(fs) == a + Encode(g) + b && BeforeAll(fs, k) == a + [Prefix(g)]
    decreases NodesAll(fs), 1
  {
    hide Encode, Preorder, Before, Nodes;
    PreorderAllLength(fs, path, first);
    var head, rest, n := Encode(fs[0]), EncodeAll(fs[1..]), Nodes(fs[0]);
    PreorderLength(fs[0], path + [first]);
    if k < n {
      a, b := HeaderOfTheFrame(fs[0], k, path + [first]);
      var g := Preorder(fs[0], path + [first])[k].frame;
      Assoc(a + Encode(g), b, rest);
      b := b + rest;
    } else {
      a, b := HeaderAmong(fs[1..], k - n, path, first + 1);
      var g := PreorderAll(fs[1..], path, first + 1)[k - n].frame;
      Around(head, a, Encode(g), b, []);
      Assoc(head, a, [Prefix(g)]);
      NoRight(b);
      NoRight(head + (a + Encode(g) + b));
      a := head + a;
    }
  }

  // ------------------------------------------------------------- the encoder

  lemma {:induction false} EncodeAllWithAppend(fs: seq<Frame>, g: Frame, k: int, r: bytes)
    ensures EncodeAllWith(fs + [g], k, r) == EncodeAllWith(fs, k, r) + EncodeWith(g, k - NodesAll(fs), r)
    ensures NodesAll(fs + [g]) == NodesAll(fs) + Nodes(g)
    decreases |fs|
  {
    hide EncodeWith, Nodes;
    if fs == [] {
      assert [g][1..] == [] && [] + [g] == [g];
      NoRight(EncodeWith(g, k, r));
      NoLeft(EncodeWith(g, k, r));
    } else {
      assert (fs + [g])[1..] == fs[1..] + [g];
      EncodeAllWithAppend(fs[1..], g, k - Nodes(fs[0]), r);
      Assoc(EncodeWith(fs[0], k, r), EncodeAllWith(fs[1..], k - Nodes(fs[0]), r),
            EncodeWith(g, k - NodesAll(fs), r));
    }
  }

  lemma NodesNone(fs: seq<Frame>)
    ensures NodesAll(fs[..0]) == 0
  {}

  /** The encoder: an output buffer, and the running index of the frame whose
      header is asked for. A negative target overrides nothing. */
  class FrameWriter {
    var out: bytes
    var index: nat
    const target: int
    const replacement: bytes

    constructor (target: int, replacement: bytes)
      ensures this.target == target && this.replacement == replacement && out == [] && index == 0
    {
      this.target, this.replacement := target, replacement;
      out, index := [], 0;
    }

    method EncodeInto(f: Frame)
      modifies this
      ensures out == old(out) + EncodeWith(f, target - old(index), replacement)
      ensures index == old(index) + Nodes(f)
      decreases Nodes(f)
    {
      hide Own, EncodeAllWith, EncodeWith, Encode, Children, Nodes, NodesAll;
      EncodeWithParts(f, target - index, replacement);
      ghost var start, k := out, target - index;
      var header := if index == target then Some(replacement) else None;
      index := index + 1;
      out := out + Own(f, header);
      NodesOfChildren(f);
      var children := Children(f);
      assert EncodeAllWith([], k - 1, replacement) == [] by { EncodeNone(k - 1, replacement); }
      NoRight(start + Own(f, header));
      NodesNone(children);
      for i := 0 to |children|
        invariant out == start + Own(f, header) + EncodeAllWith(children[..i], k - 1, replacement)
        invariant index == old(index) + 1 + NodesAll(children[..i])
      {
        NodesOfMember(children, i);
        EncodeAllWithAppend(children[..i], children[i], k - 1, replacement);
        assert children[..i + 1] == children[..i] + [children[i]];
        Assoc(start + Own(f, header), EncodeAllWith(children[..i], k - 1, replacement),
              EncodeWith(children[i], k - 1 - NodesAll(children[..i]), replacement));
        EncodeInto(children[i]);
      }
      assert children[..|children|] == children;
      Assoc(start, Own(f, header), EncodeAllWith(children, k - 1, replacement));
    }
  }

  lemma EncodeNone(k: int, r: bytes)
    ensures EncodeAllWith([], k, r) == []
  {}

  method EncodeFrame(f: Frame) returns (out: bytes)
    ensures out == Encode(f)
  {
    hide Encode, EncodeWith;
    var writer := new FrameWriter(-1, []);
    writer.EncodeInto(f);
    EncodeWithOutside(f, -1, []);
    NoLeft(Encode(f));
    out := writer.out;
  }

  method EncodeWithLength(f: Frame, target: nat, replacement: bytes) returns (out: bytes)
    ensures out == EncodeWith(f, target, replacement)
  {
    hide EncodeWith;
    var writer := new FrameWriter(target, replacement);
    writer.EncodeInto(f);
    NoLeft(EncodeWith(f, target, replacement));
    out := writer.out;
  }
}
