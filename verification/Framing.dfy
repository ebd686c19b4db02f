/** Length faults: choose one length header of a reply and corrupt only its
    encoding. */
module Framing {
  import opened Bytes
  import opened Frames
  import opened Paths
  import opened Headers
  import opened Draws
  import opened Weights
  import opened Reservoir

  datatype Kind = Shorter | Longer | Negative | Boundary | Overflow

  datatype Target = AnyHeader | At(text: bytes)

  /** The `FRAMING` setting, with the chance of a fault. */
  datatype Mode = Auto(chance: Chance, many: bool, overflow: bool) | Off | Length(chance: Chance, target: Target, kind: Option<Kind>)

  datatype Header = Header(index: nat, path: Path, original: int)

  datatype Fault = Fault(bytes: bytes, header: Header, kind: Kind, replacement: bytes)

  // -------------------------------------------------------------- corruption

  const I32_MAX: int := 0x7fff_ffff
  const U32_MAX: int := 0xffff_ffff
  const NEGATIVES: seq<int> := [-2, -3, I64_MIN]
  const BOUNDARIES: seq<int> := [0, 1, I32_MAX, I32_MAX + 1, U32_MAX, U32_MAX + 1, I64_MAX, U64_MAX]
  const OVERFLOWS: seq<int> := [
    9223372036854775808, 18446744073709551616, -9223372036854775809, 340282366920938463463374607431768211456]
  const KINDS: seq<Kind> := [Shorter, Longer, Negative, Boundary, Overflow]

  function ChooseDifferent(original: int, values: seq<int>, draw: nat): (n: int)
    requires draw < |values| && |values| > 1
    requires forall i, j :: 0 <= i < j < |values| ==> values[i] != values[j]
    ensures n != original && n in values
  {
    if values[draw] == original then values[(draw + 1) % |values|] else values[draw]
  }

  /** A number at the edge of a 32- or 64-bit range, */
  predicate IsBoundary(n: int) {
    n == 0 || n == 1 || n == 0x7fff_ffff || n == 0x8000_0000 || n == 0xffff_ffff || n == 0x1_0000_0000
    || n == 0x7fff_ffff_ffff_ffff || n == 0xffff_ffff_ffff_ffff
  }

  /** and one past a 64- or 128-bit range. */
  predicate IsOverflow(n: int) {
    n == 0x8000_0000_0000_0000 || n == 0x1_0000_0000_0000_0000 || n == -0x8000_0000_0000_0001
    || n == 0x1_0000_0000_0000_0000_0000_0000_0000_0000
  }

  /** `text` is what the kind makes of the length: another number, and for an
      overflow one that no 64-bit parser reads. */
  ghost predicate Corrupts(original: int, kind: Kind, text: bytes) {
    && (exists n :: n != original && text == Decimal(n))
    && match kind
       case Shorter => text == Decimal(original - 1)
       case Longer => text == Decimal(original + 1)
       case Negative => text == Decimal(-2) || text == Decimal(-3) || text == Decimal(-0x8000_0000_0000_0000)
       case Boundary => exists n :: IsBoundary(n) && text == Decimal(n)
       case Overflow => ParseI64(text) == None && exists n :: IsOverflow(n) && text == Decimal(n)
  }

  method CorruptLength(original: int, kind: Kind) returns (text: bytes)
    requires -1 <= original <= I64_MAX
    ensures Corrupts(original, kind, text)
  {
    hide Decimal, ParseI64;
    match kind
    case Shorter => text := Decimal(original - 1);
    case Longer => text := Decimal(original + 1);
    case Negative =>
      var draw := Draws.Below(|NEGATIVES|);
      text := Decimal(ChooseDifferent(original, NEGATIVES, draw));
    case Boundary =>
      var draw := Draws.Below(|BOUNDARIES|);
      text := Decimal(ChooseDifferent(original, BOUNDARIES, draw));
    case Overflow =>
      var draw := Draws.Below(|OVERFLOWS|);
      text := Decimal(OVERFLOWS[draw]);
      DecimalOutOfRange(OVERFLOWS[draw]);
  }

  lemma DecimalOutOfRange(n: int)
    requires !IsI64(n)
    ensures ParseI64(Decimal(n)) == None
  {
    DigitsRoundTrip(if n < 0 then -n else n);
    if n < 0 {
      assert Decimal(n)[1..] == Digits(-n);
    } else {
      assert IsDigit(Digits(n)[0]);
    }
    hide Digits, DigitsValue;
  }

  // --------------------------------------------------------------- selection

  /** The `k`-th visited frame has a length header that the target admits. */
  predicate Candidate(f: Frame, target: Target, v: Visit) {
    DeclaredLength(v.frame).Some? &&
    (target.At? ==> Valid(f, v.path) && PathText(f, v.path) == target.text)
  }

  function HeaderAt(vs: seq<Visit>, k: nat): (r: Header)
    requires k < |vs| && DeclaredLength(vs[k].frame).Some?
  {
    Header(k, vs[k].path, DeclaredLength(vs[k].frame).value)
  }

  /** Positions below `n` of the candidates, in order. */
  function CandidatesUpTo(f: Frame, target: Target, vs: seq<Visit>, n: nat): (ks: seq<nat>)
    requires n <= |vs|
  {
    if n == 0 then []
    else
      var ks := CandidatesUpTo(f, target, vs, n - 1);
      if Candidate(f, target, vs[n - 1]) then ks + [n - 1] else ks
  }

  /** `ks` are the candidates below `n`, in increasing order. */
  ghost predicate AreCandidates(f: Frame, target: Target, vs: seq<Visit>, n: nat, ks: seq<nat>)
    requires n <= |vs|
  {
    && (forall k: nat :: k in ks <==> k < n && Candidate(f, target, vs[k]))
    && (forall i, j :: 0 <= i < j < |ks| ==> ks[i] < ks[j])
  }

  lemma {:induction false} CandidatesAreExact(f: Frame, target: Target, vs: seq<Visit>, n: nat)
    requires n <= |vs|
    ensures AreCandidates(f, target, vs, n, CandidatesUpTo(f, target, vs, n))
  {
    hide Candidate;
    if n > 0 {
      CandidatesAreExact(f, target, vs, n - 1);
      var ks := CandidatesUpTo(f, target, vs, n - 1);
      forall i | 0 <= i < |ks| ensures ks[i] < n - 1 { assert ks[i] in ks; }
    }
  }

  function Candidates(f: Frame, target: Target): (r: seq<nat>) {
    CandidatesUpTo(f, target, Preorder(f, []), |Preorder(f, [])|)
  }

  /** The draws in the script, as many as are needed, leave the survivor among the
      candidates `ks`. */
  ghost predicate Chosen(vs: seq<Visit>, ks: seq<nat>, script: seq<nat>, selected: Option<Header>) {
    if ks == [] then selected == None
    else
      |ks| <= |script| + 1 &&
      var j := Survivor(script[..|ks| - 1]);
      ks[j] < |vs| && DeclaredLength(vs[ks[j]].frame).Some? && selected == Some(HeaderAt(vs, ks[j]))
  }

  lemma ChosenStep(vs: seq<Visit>, ks: seq<nat>, script: seq<nat>, selected: Option<Header>, k: nat)
    requires Chosen(vs, ks, script, selected) && ks != [] && |ks| <= |script|
    requires k < |vs| && DeclaredLength(vs[k].frame).Some?
    ensures Chosen(vs, ks + [k], script, if script[|ks| - 1] == 0 then Some(HeaderAt(vs, k)) else selected)
  {
    var n := |ks| - 1;
    assert script[..n + 1][..n] == script[..n];
    hide DeclaredLength, HeaderAt;
  }

  /** The candidates are visited frames with a length, each listed once. */
  ghost predicate AreHeaders(vs: seq<Visit>, ks: seq<nat>) {
    && (forall i :: 0 <= i < |ks| ==> ks[i] < |vs| && DeclaredLength(vs[ks[i]].frame).Some?)
    && (forall i, j :: 0 <= i < j < |ks| ==> ks[i] < ks[j])
  }

  lemma CandidatesAreHeaders(f: Frame, target: Target)
    ensures AreHeaders(Preorder(f, []), Candidates(f, target))
  {
    var vs, ks := Preorder(f, []), Candidates(f, target);
    CandidatesAreExact(f, target, vs, |vs|);
    assert AreCandidates(f, target, vs, |vs|, ks);
    hide Preorder, Candidates, DeclaredLength;
    assert forall i :: 0 <= i < |ks| ==> ks[i] in ks;
  }

  /** The vectors of draws that choose the `j`-th candidate. */
  ghost function Choosing(vs: seq<Visit>, ks: seq<nat>, j: nat): (r: set<seq<nat>>)
    requires AreHeaders(vs, ks) && j < |ks|
  {
    set script | script in Vectors(|ks| - 1) && Chosen(vs, ks, script, Some(HeaderAt(vs, ks[j])))
  }

  lemma ChosenExactly(vs: seq<Visit>, ks: seq<nat>, script: seq<nat>, j: nat)
    requires AreHeaders(vs, ks) && j < |ks| && |script| == |ks| - 1
    ensures Chosen(vs, ks, script, Some(HeaderAt(vs, ks[j]))) <==> Survivor(script) == j
  {
    hide DeclaredLength, Survivor;
    assert script[..|ks| - 1] == script;
  }

  /** Every candidate is chosen by as many of the equally likely vectors of draws. */
  lemma SelectionIsUniform(f: Frame, target: Target, j: nat)
    requires j < |Candidates(f, target)|
    ensures AreHeaders(Preorder(f, []), Candidates(f, target))
    ensures var n := |Candidates(f, target)| - 1;
      |Choosing(Preorder(f, []), Candidates(f, target), j)| == Factorial(n) && |Vectors(n)| == Factorial(n + 1)
  {
    hide *;
    CandidatesAreHeaders(f, target);
    ChoosingCount(Preorder(f, []), Candidates(f, target), j);
  }

  lemma ChoosingCount(vs: seq<Visit>, ks: seq<nat>, j: nat)
    requires AreHeaders(vs, ks) && j < |ks|
    ensures |Choosing(vs, ks, j)| == Factorial(|ks| - 1) && |Vectors(|ks| - 1)| == Factorial(|ks|)
  {
    var n := |ks| - 1;
    hide Vectors, Survivor, DeclaredLength, AreHeaders, Chosen, Winning, HeaderAt, InRange;
    ReservoirIsUniform(n, j);
    forall script ensures script in Choosing(vs, ks, j) <==> script in Winning(n, j) {
      WinningMember(n, j, script);
      VectorsAreTheDraws(n, script);
      if script in Vectors(n) { ChosenExactly(vs, ks, script, j); }
    }
    assert Choosing(vs, ks, j) == Winning(n, j);
  }

  function HeaderWeights(vs: seq<Visit>, mode: DepthMode): (ws: seq<nat>)
    ensures |ws| == |vs|
    ensures forall k :: 0 <= k < |vs| ==>
      ws[k] == if DeclaredLength(vs[k].frame).Some? then Weight(mode, |vs[k].path|) else 0
  {
    seq(|vs|, k requires 0 <= k < |vs| =>
      if DeclaredLength(vs[k].frame).Some? then Weight(mode, |vs[k].path|) else 0)
  }

  /** Reservoir selection over the visited headers: which one is chosen is decided
      by the draws in the script. */
  method SelectUniform(f: Frame, target: Target, script: seq<nat>) returns (selected: Option<Header>)
    requires |script| >= |Preorder(f, [])| && InRange(script)
    ensures Chosen(Preorder(f, []), Candidates(f, target), script, selected)
  {
    hide Preorder, Chosen, HeaderAt;
    var vs := Preorder(f, []);
    selected := None;
    var candidates := 0;
    assert Chosen(vs, [], script, None) by { ChosenNone(vs, script); }
    for index := 0 to |vs|
      invariant candidates == |CandidatesUpTo(f, target, vs, index)| <= index
      invariant Chosen(vs, CandidatesUpTo(f, target, vs, index), script, selected)
    {
      ghost var ks := CandidatesUpTo(f, target, vs, index);
      AddressesAreValid(f, index);
      assert [] + [index] == [index];
      if DeclaredLength(vs[index].frame).Some? && (target.AnyHeader? || PathText(f, vs[index].path) == target.text) {
        candidates := candidates + 1;
        if candidates == 1 {
          ChosenFirst(vs, script, selected, index);
          selected := Some(HeaderAt(vs, index));
        } else {
          ChosenStep(vs, ks, script, selected, index);
          if script[candidates - 2] == 0 { selected := Some(HeaderAt(vs, index)); }
        }
      }
    }
  }

  lemma ChosenNone(vs: seq<Visit>, script: seq<nat>)
    ensures Chosen(vs, [], script, None)
  {}

  lemma ChosenFirst(vs: seq<Visit>, script: seq<nat>, selected: Option<Header>, k: nat)
    requires Chosen(vs, [], script, selected) && k < |vs| && DeclaredLength(vs[k].frame).Some?
    ensures Chosen(vs, [k], script, Some(HeaderAt(vs, k)))
  {}

  lemma AddressesAreValid(f: Frame, k: nat)
    requires k < |Preorder(f, [])|
    ensures Valid(f, Preorder(f, [])[k].path)
  {
    VisitsAreAddresses(f);
  }

  lemma CandidatesAddress(f: Frame, text: bytes, j: nat, k: nat)
    requires j < |Preorder(f, [])| && k < |Preorder(f, [])|
    requires Candidate(f, At(text), Preorder(f, [])[j]) && Candidate(f, At(text), Preorder(f, [])[k])
    ensures j == k
  {
    var vs := Preorder(f, []);
    VisitsAreAddresses(f);
    hide Preorder, PathText, FrameAt, Valid;
    PathTextInjective(f, vs[j].path, vs[k].path);
  }

  lemma CandidatesOfPath(f: Frame, text: bytes)
    ensures |Candidates(f, At(text))| <= 1
    ensures forall k: nat :: k < |Preorder(f, [])| && Candidate(f, At(text), Preorder(f, [])[k]) ==>
      Candidates(f, At(text)) == [k]
  {
    var vs := Preorder(f, []);
    var ks := Candidates(f, At(text));
    CandidatesAreExact(f, At(text), vs, |vs|);
    assert AreCandidates(f, At(text), vs, |vs|, ks);
    hide Preorder, Candidate, Candidates;
    if |ks| > 1 {
      assert ks[0] in ks && ks[1] in ks;
      CandidatesAddress(f, text, ks[0], ks[1]);
    }
    forall k: nat | k < |vs| && Candidate(f, At(text), vs[k]) ensures ks == [k] { assert k in ks; }
  }

  /** A path target addresses at most one frame: the one it leads to. */
  lemma PathTargetIsUnique(f: Frame, text: bytes)
    ensures |Candidates(f, At(text))| <= 1
    ensures forall p :: Valid(f, p) && PathText(f, p) == text && DeclaredLength(FrameAt(f, p)).Some? ==>
      exists k: nat :: k < |Preorder(f, [])| && Candidates(f, At(text)) == [k] && Preorder(f, [])[k] == Visit(p, FrameAt(f, p))
  {
    var vs, ks := Preorder(f, []), Candidates(f, At(text));
    VisitsAreAddresses(f);
    CandidatesOfPath(f, text);
    hide Preorder, PathText, FrameAt, Valid, Candidates, DeclaredLength;
    forall p | Valid(f, p) && PathText(f, p) == text && DeclaredLength(FrameAt(f, p)).Some?
      ensures exists k: nat :: k < |vs| && ks == [k] && vs[k] == Visit(p, FrameAt(f, p))
    {
      var k: nat :| k < |vs| && vs[k] == Visit(p, FrameAt(f, p));
      assert Candidate(f, At(text), vs[k]);
    }
  }

  /** The total over all headers stays below 2^128 up to 2^63 frames. */
  lemma HeaderWeightFitsInU128(f: Frame, mode: DepthMode)
    requires Nodes(f) <= Pow2(63)
    ensures Sum(HeaderWeights(Preorder(f, []), mode)) < Pow2(128)
  {
    hide Sum, Weight, Preorder, Pow2, Nodes;
    PreorderLength(f, []);
    var vs := Preorder(f, []);
    forall k | 0 <= k < |vs| ensures HeaderWeights(vs, mode)[k] <= Pow2(64) { WeightBound(mode, |vs[k].path|); }
    SumFitsInU128(HeaderWeights(vs, mode));
  }

  /** The header whose interval holds the draw; none exactly at zero weight. */
  ghost predicate Weighed(vs: seq<Visit>, mode: DepthMode, draw: nat -> nat, selected: Option<Header>) {
    var ws := HeaderWeights(vs, mode);
    match selected
    case None => Sum(ws) == 0
    case Some(header) =>
      && Sum(ws) > 0 && Selected(ws, draw(Sum(ws)), header.index)
      && DeclaredLength(vs[header.index].frame).Some? && header == HeaderAt(vs, header.index)
  }

  /** One draw over the total weight. */
  method SelectWeighted(f: Frame, mode: DepthMode, draw: nat -> nat) returns (selected: Option<Header>)
    requires IsDraw(draw)
    ensures Weighed(Preorder(f, []), mode, draw, selected)
  {
    var vs := Preorder(f, []);
    ghost var ws := HeaderWeights(vs, mode);
    var total := 0;
    for index := 0 to |vs|
      invariant total == Sum(ws[..index])
    {
      SumStep(ws, index);
      if DeclaredLength(vs[index].frame).Some? { total := total + Weight(mode, |vs[index].path|); }
    }
    assert ws[..|vs|] == ws;
    if total == 0 { return None; }
    selected := HeaderAtOffset(vs, mode, draw(total));
  }

  /** The header whose interval holds the offset. */
  method HeaderAtOffset(vs: seq<Visit>, mode: DepthMode, draw: nat) returns (selected: Option<Header>)
    requires draw < Sum(HeaderWeights(vs, mode))
    ensures selected.Some? && var k := selected.value.index;
      Selected(HeaderWeights(vs, mode), draw, k) && DeclaredLength(vs[k].frame).Some?
      && selected.value == HeaderAt(vs, k)
  {
    ghost var ws := HeaderWeights(vs, mode);
    selected := None;
    var remaining := draw;
    for index := 0 to |vs|
      invariant selected.None? ==> draw == Sum(ws[..index]) + remaining
      invariant selected.Some? ==>
        var k := selected.value.index;
        Selected(ws, draw, k) && DeclaredLength(vs[k].frame).Some? && selected.value == HeaderAt(vs, k)
    {
      SumStep(ws, index);
      if selected.None? && DeclaredLength(vs[index].frame).Some? {
        var weight := Weight(mode, |vs[index].path|);
        if remaining < weight {
          selected := Some(HeaderAt(vs, index));
        } else {
          remaining := remaining - weight;
        }
      }
    }
    assert ws[..|vs|] == ws;
  }

  // ------------------------------------------------------------- the mutation

  /** Rust's vectors are no longer than `isize::MAX`. */
  predicate LengthFits(f: Frame) { DeclaredLength(f).Some? ==> DeclaredLength(f).value <= I64_MAX }

  predicate NoCandidate(f: Frame, target: Target) {
    forall k :: 0 <= k < |Preorder(f, [])| ==> !Candidate(f, target, Preorder(f, [])[k])
  }

  /** By weight for any header under INNER, by reservoir otherwise. */
  ghost predicate IsSelection(
      f: Frame, target: Target, depth: DepthMode, script: seq<nat>, draw: nat -> nat, selected: Option<Header>)
  {
    if target.AnyHeader? && depth.Inner? then Weighed(Preorder(f, []), depth, draw, selected)
    else Chosen(Preorder(f, []), Candidates(f, target), script, selected)
  }

  method SelectHeader(f: Frame, target: Target, depth: DepthMode, script: seq<nat>, draw: nat -> nat)
      returns (selected: Option<Header>)
    requires |script| >= |Preorder(f, [])| && InRange(script) && IsDraw(draw)
    ensures IsSelection(f, target, depth, script, draw, selected)
    ensures match selected
      case Some(header) =>
        header.index < Nodes(f) && |Preorder(f, [])| == Nodes(f)
        && Candidate(f, target, Preorder(f, [])[header.index]) && header == HeaderAt(Preorder(f, []), header.index)
      case None => NoCandidate(f, target)
  {
    hide Preorder, Nodes, Sum, CandidatesUpTo, Chosen;
    ghost var vs := Preorder(f, []);
    PreorderLength(f, []);
    if target.AnyHeader? && depth.Inner? {
      selected := SelectWeighted(f, depth, draw);
      if selected.None? {
        forall k | 0 <= k < |vs| ensures !Candidate(f, target, vs[k]) {
          SelectionIsExact(HeaderWeights(vs, depth), 0);
          ZeroSum(HeaderWeights(vs, depth), k);
        }
      }
    } else {
      selected := SelectUniform(f, target, script);
      ChosenIsCandidate(f, target, vs, script, selected);
    }
  }

  lemma ChosenIsCandidate(f: Frame, target: Target, vs: seq<Visit>, script: seq<nat>, selected: Option<Header>)
    requires Chosen(vs, CandidatesUpTo(f, target, vs, |vs|), script, selected)
    ensures match selected
      case Some(header) => header.index < |vs| && Candidate(f, target, vs[header.index])
                           && header == HeaderAt(vs, header.index)
      case None => forall k :: 0 <= k < |vs| ==> !Candidate(f, target, vs[k])
  {
    CandidatesAreExact(f, target, vs, |vs|);
    hide Candidate, CandidatesUpTo;
  }

  lemma ZeroSum(ws: seq<nat>, k: nat)
    requires Sum(ws) == 0 && k < |ws|
    ensures ws[k] == 0
  {
    SumStep(ws, k);
    SumMonotone(ws, k + 1, |ws|);
    assert ws[..|ws|] == ws;
  }

  /** A length fault rewrites one header that the settings admit, surgically. */
  ghost predicate IsFault(f: Frame, mode: Mode, fault: Fault) {
    && var k := fault.header.index;
    && k < Nodes(f) && |Preorder(f, [])| == Nodes(f)
    && DeclaredLength(Preorder(f, [])[k].frame).Some?
    && fault.header == HeaderAt(Preorder(f, []), k)
    && fault.header == Header(k, Preorder(f, [])[k].path, DeclaredLength(Preorder(f, [])[k].frame).value)
    && fault.bytes == Before(f, k) + fault.replacement + After(f, k)
    && Encode(f) == Before(f, k) + Decimal(fault.header.original) + After(f, k)
    && match mode
       case Off => false
       case Auto(_, many, overflow) =>
         && many && k == 0 && fault.header.path == []
         && fault.kind == (if overflow then Boundary else Longer)
         && fault.replacement == Decimal(if overflow then I64_MAX else fault.header.original + 1)
         && ((overflow && fault.header.original == I64_MAX) || fault.bytes != Encode(f))
       case Length(_, target, kind) =>
         && Candidate(f, target, Preorder(f, [])[k]) && fault.bytes != Encode(f)
         && Corrupts(fault.header.original, fault.kind, fault.replacement)
         && (kind.Some? ==> fault.kind == kind.value)
  }

  method MutateLength(f: Frame, mode: Mode, depth: DepthMode, script: seq<nat>, draw: nat -> nat)
      returns (fault: Option<Fault>)
    requires Every(f, LengthFits)
    requires |script| >= |Preorder(f, [])| && InRange(script) && IsDraw(draw)
    ensures mode.Length? && fault.Some? ==>
      IsSelection(f, mode.target, depth, script, draw, Some(fault.value.header))
    ensures fault.Some? ==> IsFault(f, mode, fault.value)
    ensures mode.Off? ==> fault == None
    ensures mode.Auto? && !mode.many ==> fault == None
    ensures !mode.Off? && mode.chance.Never? ==> fault == None
    ensures mode.Auto? && mode.many && mode.chance.Always? && fault.None? ==> DeclaredLength(f).None?
    ensures mode.Length? && mode.chance.Always? && fault.None? ==> NoCandidate(f, mode.target)
  {
    hide Encode, EncodeWith, Before, After, Decimal, Preorder, Nodes, PathText, HeaderText, IsSelection, InRange, IsDraw;
    if mode.Off? { return None; }
    if mode.Auto? && !mode.many { return None; }
    var apply := Toss(mode.chance);
    if !apply { return None; }
    var header: Header, kind: Kind, replacement: bytes;
    VisitRoot(f);
    match mode {
      case Auto(_, _, overflow) =>
        var length := DeclaredLength(f);
        if length.None? { return None; }
        header := Header(0, [], length.value);
        kind := if overflow then Boundary else Longer;
        replacement := Decimal(if overflow then I64_MAX else length.value + 1);
      case Length(_, target, chosen) =>
        var selected := SelectHeader(f, target, depth, script, draw);
        if selected.None? { return None; }
        header := selected.value;
        EveryVisited(f, [], LengthFits, header.index);
        if chosen.Some? {
          kind := chosen.value;
        } else {
          var draw := Draws.Below(|KINDS|);
          kind := KINDS[draw];
        }
        replacement := CorruptLength(header.original, kind);
    }
    OverrideIsSurgical(f, header.index, replacement);
    var bytes := EncodeWithLength(f, header.index, replacement);
    if mode.Length? || !mode.overflow || header.original != I64_MAX {
      assert mode.Auto? ==> replacement == Decimal(if mode.overflow then I64_MAX else header.original + 1);
      DifferentMiddle(Before(f, header.index), header.original, replacement, After(f, header.index));
    }
    fault := Some(Fault(bytes, header, kind, replacement));
  }

  lemma VisitRoot(f: Frame)
    ensures Nodes(f) > 0 && |Preorder(f, [])| == Nodes(f) && Preorder(f, [])[0] == Visit([], f)
  {
    PreorderLength(f, []);
  }

  lemma DifferentMiddle(pre: bytes, original: int, r: bytes, post: bytes)
    requires exists n :: n != original && r == Decimal(n)
    ensures pre + r + post != pre + Decimal(original) + post
  {
    var n :| n != original && r == Decimal(n);
    var text := Decimal(original);
    if pre + r + post == pre + text + post {
      assert r == (pre + r + post)[|pre|..|pre + r + post| - |post|];
      assert text == (pre + text + post)[|pre|..|pre + text + post| - |post|];
      DecimalInjective(n, original);
    }
  }

  /** A fault at a path target hits the frame that the text leads to, and at full
      probability there is no way around it if that frame has a length. */
  lemma FaultHitsTheTarget(f: Frame, p: Path, text: bytes, chance: Chance, kind: Option<Kind>, fault: Fault)
    requires Valid(f, p) && PathText(f, p) == text
    ensures IsFault(f, Length(chance, At(text), kind), fault) ==>
      fault.header.path == p && DeclaredLength(FrameAt(f, p)) == Some(fault.header.original)
    ensures DeclaredLength(FrameAt(f, p)).Some? ==> !NoCandidate(f, At(text))
  {
    VisitsAreAddresses(f);
    hide Preorder, PathText, FrameAt, Valid, DeclaredLength, Nodes, Before, After, Encode, Decimal, Corrupts;
    var vs := Preorder(f, []);
    if IsFault(f, Length(chance, At(text), kind), fault) {
      var v := vs[fault.header.index];
      PathTextInjective(f, v.path, p);
    }
    if DeclaredLength(FrameAt(f, p)).Some? {
      var k: nat :| k < |vs| && vs[k] == Visit(p, FrameAt(f, p));
      assert Candidate(f, At(text), vs[k]);
    }
  }

  /** The target `<path>.<i>.key` of a map or an attribute is the key of its entry. */
  lemma KeyTarget(f: Frame, p: Path, i: nat, chance: Chance, kind: Option<Kind>, fault: Fault)
    requires Valid(f, p) && (FrameAt(f, p).Map? || FrameAt(f, p).Attribute?) && i < |FrameAt(f, p).entries|
    requires IsFault(f, Length(chance, At(PathText(f, p) + ([46] + Decimal(i) + [46, 107, 101, 121])), kind), fault)
    ensures fault.header.path == p + [2 * i]
    ensures DeclaredLength(FrameAt(f, p).entries[i].key) == Some(fault.header.original)
  {
    hide Preorder, PathText, FrameAt, Valid, DeclaredLength, Decimal, IsFault, Candidate;
    EntryText(f, p, i);
    FaultHitsTheTarget(f, p + [2 * i], PathText(f, p + [2 * i]), chance, kind, fault);
  }

  /** And `<path>.<i>.value` is its value. */
  lemma ValueTarget(f: Frame, p: Path, i: nat, chance: Chance, kind: Option<Kind>, fault: Fault)
    requires Valid(f, p) && (FrameAt(f, p).Map? || FrameAt(f, p).Attribute?) && i < |FrameAt(f, p).entries|
    requires IsFault(f, Length(chance, At(PathText(f, p) + ([46] + Decimal(i) + [46, 118, 97, 108, 117, 101])), kind), fault)
    ensures fault.header.path == p + [2 * i + 1]
    ensures DeclaredLength(FrameAt(f, p).entries[i].value) == Some(fault.header.original)
  {
    hide Preorder, PathText, FrameAt, Valid, DeclaredLength, Decimal, IsFault, Candidate;
    EntryText(f, p, i);
    FaultHitsTheTarget(f, p + [2 * i + 1], PathText(f, p + [2 * i + 1]), chance, kind, fault);
  }

  // --------------------------------------------------------------- tree depth

  /** The deepest of these visits, counted from the root. */
  predicate IsDeepest(vs: seq<Visit>, d: nat) {
    (forall k :: 0 <= k < |vs| ==> |vs[k].path| <= d) && exists k :: 0 <= k < |vs| && |vs[k].path| == d
  }

  lemma DeepestAppend(vs: seq<Visit>, us: seq<Visit>, d: nat, e: nat)
    requires IsDeepest(vs, d) && IsDeepest(us, e)
    ensures IsDeepest(vs + us, Max(d, e))
  {
    var j :| 0 <= j < |vs| && |vs[j].path| == d;
    var k :| 0 <= k < |us| && |us[k].path| == e;
    assert (vs + us)[j] == vs[j] && (vs + us)[|vs| + k] == us[k];
  }

  lemma {:induction false} DeepestIsDepth(f: Frame, path: Path)
    ensures IsDeepest(Preorder(f, path), |path| + Depth(f) - 1)
    decreases Nodes(f), 0
  {
    NodesOfChildren(f);
    var fs := Children(f);
    assert IsDeepest([Visit(path, f)], |path|) by { assert |[Visit(path, f)][0].path| == |path|; }
    if fs == [] {
      assert Preorder(f, path) == [Visit(path, f)];
    } else {
      DeepestOfAll(fs, path, 0);
      DeepestAppend([Visit(path, f)], PreorderAll(fs, path, 0), |path|, |path| + DepthAll(fs));
    }
  }

  lemma {:induction false} DeepestOfAll(fs: seq<Frame>, path: Path, first: nat)
    requires fs != []
    ensures IsDeepest(PreorderAll(fs, path, first), |path| + DepthAll(fs))
    decreases NodesAll(fs), 1
  {
    hide IsDeepest, Preorder, Depth;
    DeepestIsDepth(fs[0], path + [first]);
    if |fs| == 1 {
      assert fs[1..] == [];
      assert PreorderAll(fs, path, first) == Preorder(fs[0], path + [first]) + [] == Preorder(fs[0], path + [first]);
      assert DepthAll(fs) == Depth(fs[0]);
    } else {
      DeepestOfAll(fs[1..], path, first + 1);
      DeepestAppend(Preorder(fs[0], path + [first]), PreorderAll(fs[1..], path, first + 1),
                    |path| + Depth(fs[0]), |path| + DepthAll(fs[1..]));
    }
  }

  /** The visit that measures the tree finds one level less than its depth. */
  method TreeDepth(f: Frame) returns (deepest: nat)
    ensures deepest == Depth(f) - 1
  {
    hide Preorder, Depth;
    var vs := Preorder(f, []);
    DeepestIsDepth(f, []);
    deepest := 0;
    for index := 0 to |vs|
      invariant forall k :: 0 <= k < index ==> |vs[k].path| <= deepest
      invariant deepest == 0 || exists k :: 0 <= k < index && |vs[k].path| == deepest
    {
      deepest := Max(deepest, |vs[index].path|);
    }
  }
}
