/** Stable sorting by a pair of byte strings, and what permutations keep. */
module Sorting {
  import opened Bytes

  type Key = (bytes, bytes)

  predicate BytesLeq(a: bytes, b: bytes) {
    a == [] || (b != [] && (a[0] < b[0] || (a[0] == b[0] && BytesLeq(a[1..], b[1..]))))
  }

  ghost predicate FirstLess(a: bytes, b: bytes, k: nat) { k < |a| && k < |b| && a[..k] == b[..k] && a[k] < b[k] }

  /** The order of bytes: a prefix comes first, else the first difference decides. */
  lemma {:induction false} BytesLeqIsLexicographic(a: bytes, b: bytes)
    ensures BytesLeq(a, b) <==> a <= b || exists k: nat :: FirstLess(a, b, k)
  {
    if a != [] && b != [] {
      var c, d := a[1..], b[1..];
      BytesLeqIsLexicographic(c, d);
      assert a == [a[0]] + c && b == [b[0]] + d;
      if a[0] < b[0] { assert FirstLess(a, b, 0); }
      if a[0] == b[0] && exists k: nat :: FirstLess(c, d, k) {
        var k: nat :| FirstLess(c, d, k);
        assert a[..k + 1] == [a[0]] + c[..k] && b[..k + 1] == [b[0]] + d[..k];
        assert FirstLess(a, b, k + 1);
      }
      forall k: nat | FirstLess(a, b, k) ensures BytesLeq(a, b) {
        if k > 0 {
          assert a[0] == a[..k][0] == b[..k][0] == b[0];
          assert c[..k - 1] == a[..k][1..] && d[..k - 1] == b[..k][1..];
          assert FirstLess(c, d, k - 1);
        }
      }
    }
  }

  /** First components first, second components to break ties. */
  predicate KeyLeq(a: Key, b: Key) {
    if a.0 == b.0 then BytesLeq(a.1, b.1) else BytesLeq(a.0, b.0)
  }

  lemma {:induction false} BytesLeqTotal(a: bytes, b: bytes)
    ensures BytesLeq(a, b) || BytesLeq(b, a)
    ensures BytesLeq(a, b) && BytesLeq(b, a) ==> a == b
    decreases |a| + |b|
  {
    if a != [] && b != [] {
      BytesLeqTotal(a[1..], b[1..]);
      assert a == [a[0]] + a[1..] && b == [b[0]] + b[1..];
    }
  }

  lemma {:induction false} BytesLeqReflexive(a: bytes)
    ensures BytesLeq(a, a)
  {
    if a != [] { BytesLeqReflexive(a[1..]); }
  }

  lemma {:induction false} BytesLeqTransitive(a: bytes, b: bytes, c: bytes)
    requires BytesLeq(a, b) && BytesLeq(b, c)
    ensures BytesLeq(a, c)
  {
    if a != [] && a[0] == b[0] == c[0] { BytesLeqTransitive(a[1..], b[1..], c[1..]); }
  }

  lemma KeyLeqTotal(a: Key, b: Key)
    ensures KeyLeq(a, b) || KeyLeq(b, a)
    ensures KeyLeq(a, b) && KeyLeq(b, a) ==> a == b
    ensures KeyLeq(a, a)
  {
    hide BytesLeq;
    BytesLeqTotal(a.0, b.0);
    BytesLeqTotal(a.1, b.1);
    BytesLeqReflexive(a.1);
  }

  lemma KeyLeqTransitive(a: Key, b: Key, c: Key)
    requires KeyLeq(a, b) && KeyLeq(b, c)
    ensures KeyLeq(a, c)
  {
    hide BytesLeq;
    BytesLeqTotal(a.0, b.0);
    if a.0 == b.0 == c.0 { BytesLeqTransitive(a.1, b.1, c.1); }
    else if a.0 != b.0 && b.0 != c.0 {
      BytesLeqTransitive(a.0, b.0, c.0);
    }
  }

  // ----------------------------------------------------------- the stable sort

  function Insert<T>(x: T, ys: seq<T>, key: T -> Key): (r: seq<T>) {
    if ys == [] || KeyLeq(key(x), key(ys[0])) then [x] + ys
    else [ys[0]] + Insert(x, ys[1..], key)
  }

  function Sort<T>(xs: seq<T>, key: T -> Key): (r: seq<T>) {
    if xs == [] then [] else Insert(xs[0], Sort(xs[1..], key), key)
  }

  predicate Sorted(ks: seq<Key>) {
    |ks| <= 1 || (KeyLeq(ks[0], ks[1]) && Sorted(ks[1..]))
  }

  function Keys<T>(xs: seq<T>, key: T -> Key): (ks: seq<Key>)
    ensures |ks| == |xs|
  {
    if xs == [] then [] else [key(xs[0])] + Keys(xs[1..], key)
  }

  lemma {:induction false} KeysAt<T>(xs: seq<T>, key: T -> Key, i: nat)
    requires i < |xs|
    ensures Keys(xs, key)[i] == key(xs[i])
  {
    if i > 0 { KeysAt(xs[1..], key, i - 1); }
  }

  lemma {:induction false} InsertSorted<T>(x: T, ys: seq<T>, key: T -> Key)
    requires Sorted(Keys(ys, key))
    ensures Sorted(Keys(Insert(x, ys, key), key))
    ensures var zs := Insert(x, ys, key);
      |zs| == |ys| + 1 && multiset(zs) == multiset{x} + multiset(ys)
  {
    hide KeyLeq;
    if ys == [] {
    } else if KeyLeq(key(x), key(ys[0])) {
      assert ([x] + ys)[1..] == ys;
      assert Keys([x] + ys, key) == [key(x)] + Keys(ys, key);
    } else {
      KeyLeqTotal(key(x), key(ys[0]));
      assert Keys(ys, key)[1..] == Keys(ys[1..], key);
      InsertSorted(x, ys[1..], key);
      var rest := Insert(x, ys[1..], key);
      assert ([ys[0]] + rest)[1..] == rest;
      assert Keys([ys[0]] + rest, key) == [key(ys[0])] + Keys(rest, key);
      assert ys == [ys[0]] + ys[1..];
      InsertHead(x, ys[1..], key);
    }
  }

  lemma InsertHead<T>(x: T, ys: seq<T>, key: T -> Key)
    ensures var zs := Insert(x, ys, key);
      zs != [] && Keys(zs, key)[0] == key(zs[0]) && (zs[0] == x || (ys != [] && zs[0] == ys[0]))
  {
    KeysAt(Insert(x, ys, key), key, 0);
  }

  /** Sorting yields a sorted rearrangement. */
  lemma {:induction false} SortIsSorted<T>(xs: seq<T>, key: T -> Key)
    ensures Sorted(Keys(Sort(xs, key), key))
    ensures |Sort(xs, key)| == |xs| && multiset(Sort(xs, key)) == multiset(xs)
  {
    if xs != [] {
      SortIsSorted(xs[1..], key);
      InsertSorted(xs[0], Sort(xs[1..], key), key);
      assert xs == [xs[0]] + xs[1..];
    }
  }

  lemma {:induction false} SortOfSorted<T>(xs: seq<T>, key: T -> Key)
    requires Sorted(Keys(xs, key))
    ensures Sort(xs, key) == xs
  {
    hide KeyLeq;
    if xs != [] {
      assert Keys(xs, key)[1..] == Keys(xs[1..], key);
      SortOfSorted(xs[1..], key);
      if |xs| > 1 { KeysAt(xs, key, 0); KeysAt(xs, key, 1); }
      assert xs == [xs[0]] + xs[1..];
    }
  }

  function Filter<T>(xs: seq<T>, key: T -> Key, k: Key): (r: seq<T>) {
    if xs == [] then [] else (if key(xs[0]) == k then [xs[0]] else []) + Filter(xs[1..], key, k)
  }

  lemma {:induction false} FilterPrepend<T>(x: T, xs: seq<T>, key: T -> Key, k: Key)
    ensures Filter([x] + xs, key, k) == (if key(x) == k then [x] else []) + Filter(xs, key, k)
  {
    assert ([x] + xs)[1..] == xs;
  }

  lemma {:induction false} InsertIsStable<T>(x: T, ys: seq<T>, key: T -> Key, k: Key)
    ensures Filter(Insert(x, ys, key), key, k) == (if key(x) == k then [x] else []) + Filter(ys, key, k)
  {
    if ys == [] || KeyLeq(key(x), key(ys[0])) {
      FilterPrepend(x, ys, key, k);
    } else {
      InsertIsStable(x, ys[1..], key, k);
      FilterPrepend(ys[0], Insert(x, ys[1..], key), key, k);
      KeyLeqTotal(key(x), key(x));
    }
  }

  /** Elements with equal keys keep their order. */
  lemma {:induction false} SortIsStable<T>(xs: seq<T>, key: T -> Key, k: Key)
    ensures Filter(Sort(xs, key), key, k) == Filter(xs, key, k)
  {
    if xs != [] {
      SortIsStable(xs[1..], key, k);
      InsertIsStable(xs[0], Sort(xs[1..], key), key, k);
    }
  }

  // -------------------------------------------------------------- permutations

  lemma {:induction false} SortedHead(ks: seq<Key>, i: nat)
    requires Sorted(ks) && i < |ks|
    ensures KeyLeq(ks[0], ks[i])
  {
    hide KeyLeq;
    if i == 0 { KeyLeqTotal(ks[0], ks[0]); }
    else if i > 1 {
      SortedHead(ks[1..], i - 1);
      KeyLeqTransitive(ks[0], ks[1], ks[i]);
    }
  }

  lemma SortedHeads(a: seq<Key>, b: seq<Key>)
    requires Sorted(a) && Sorted(b) && multiset(a) == multiset(b) && a != [] && b != []
    ensures a[0] == b[0]
  {
    hide KeyLeq, Sorted;
    assert a[0] in multiset(b) && b[0] in multiset(a);
    var i :| 0 <= i < |b| && b[i] == a[0];
    var j :| 0 <= j < |a| && a[j] == b[0];
    SortedHead(b, i);
    SortedHead(a, j);
    KeyLeqTotal(a[0], b[0]);
  }

  /** A multiset of keys has one sorted listing. */
  lemma {:induction false} SortedIsUnique(a: seq<Key>, b: seq<Key>)
    requires Sorted(a) && Sorted(b) && multiset(a) == multiset(b)
    ensures a == b
  {
    hide KeyLeq;
    SameSize(a, b);
    if a != [] {
      SortedHeads(a, b);
      Tail(a);
      Tail(b);
      SortedIsUnique(a[1..], b[1..]);
      assert a == [a[0]] + a[1..] && b == [b[0]] + b[1..];
    }
  }

  lemma SameSize<T>(xs: seq<T>, ys: seq<T>)
    requires multiset(xs) == multiset(ys)
    ensures |xs| == |ys|
  {
    assert |xs| == |multiset(xs)| && |ys| == |multiset(ys)|;
  }

  lemma Tail<T>(xs: seq<T>)
    requires xs != []
    ensures multiset(xs[1..]) == multiset(xs) - multiset{xs[0]}
  {
    assert xs == [xs[0]] + xs[1..];
  }

  lemma Remove<T>(xs: seq<T>, i: nat)
    requires i < |xs|
    ensures multiset(Without(xs, i)) == multiset(xs) - multiset{xs[i]}
  {
    assert xs == xs[..i] + [xs[i]] + xs[i + 1..];
  }

  /** The sequence without its `i`-th element. */
  function Without<T>(xs: seq<T>, i: nat): (ys: seq<T>)
    requires i < |xs|
    ensures |ys| == |xs| - 1
    ensures forall k :: 0 <= k < |ys| ==> ys[k] == xs[if k < i then k else k + 1]
  {
    xs[..i] + xs[i + 1..]
  }

  predicate PairAt<A(==), B(==)>(xs: seq<A>, bs: seq<B>, d: A, c: B, i: nat) {
    i < |xs| && i < |bs| && d == xs[i] && c == bs[i]
  }

  ghost predicate HasPair<A(!new), B(!new)>(xs: seq<A>, bs: seq<B>, d: A, c: B) { exists i: nat :: PairAt(xs, bs, d, c, i) }

  /** `ds` pairs with `cs` as `xs` pairs with `bs`. */
  ghost predicate PairedAlike<A(!new), B(!new)>(xs: seq<A>, bs: seq<B>, ds: seq<A>, cs: seq<B>) {
    |xs| == |bs| && |ds| == |cs| &&
    forall j :: 0 <= j < |cs| ==> HasPair(xs, bs, ds[j], cs[j])
  }

  /** Follow a rearrangement of `bs` with the elements paired to them. */
  lemma {:induction false} Transport<A(!new), B(!new)>(xs: seq<A>, bs: seq<B>, cs: seq<B>) returns (ds: seq<A>)
    requires |xs| == |bs| && multiset(cs) == multiset(bs)
    ensures multiset(ds) == multiset(xs) && |ds| == |cs| == |bs| && PairedAlike(xs, bs, ds, cs)
    decreases |cs|
  {
    SameSize(cs, bs);
    if cs == [] {
      ds := [];
      assert xs == [];
    } else {
      assert cs[0] in multiset(bs);
      var i :| 0 <= i < |bs| && bs[i] == cs[0];
      Remove(bs, i);
      Remove(xs, i);
      Tail(cs);
      var rest := Transport(Without(xs, i), Without(bs, i), cs[1..]);
      ds := [xs[i]] + rest;
      PairedAlikeCons(xs, bs, rest, cs, i);
      assert multiset(ds) == multiset{xs[i]} + multiset(rest);
    }
  }

  lemma PairedAlikeCons<A(!new), B(!new)>(xs: seq<A>, bs: seq<B>, rest: seq<A>, cs: seq<B>, i: nat)
    requires i < |bs| == |xs| && cs != [] && cs[0] == bs[i]
    requires PairedAlike(Without(xs, i), Without(bs, i), rest, cs[1..])
    ensures PairedAlike(xs, bs, [xs[i]] + rest, cs)
  {
    var ds := [xs[i]] + rest;
    forall j | 0 <= j < |cs| ensures HasPair(xs, bs, ds[j], cs[j]) {
      if j == 0 {
        assert PairAt(xs, bs, ds[0], cs[0], i);
      } else {
        assert cs[1..][j - 1] == cs[j] && ds[j] == rest[j - 1];
        assert HasPair(Without(xs, i), Without(bs, i), rest[j - 1], cs[1..][j - 1]);
        var k: nat :| PairAt(Without(xs, i), Without(bs, i), rest[j - 1], cs[1..][j - 1], k);
        assert PairAt(xs, bs, ds[j], cs[j], if k < i then k else k + 1);
      }
    }
  }

  lemma {:induction false} KeysOfPermutation<T>(xs: seq<T>, ys: seq<T>, key: T -> Key)
    requires multiset(xs) == multiset(ys)
    ensures multiset(Keys(xs, key)) == multiset(Keys(ys, key))
    decreases |xs|
  {
    SameSize(xs, ys);
    if xs != [] {
      assert xs[0] in multiset(ys);
      var i :| 0 <= i < |ys| && ys[i] == xs[0];
      Remove(ys, i);
      Tail(xs);
      KeysOfPermutation(xs[1..], Without(ys, i), key);
      KeysWithout(ys, key, i);
    }
  }

  lemma {:induction false} KeysWithout<T>(ys: seq<T>, key: T -> Key, i: nat)
    requires i < |ys|
    ensures multiset(Keys(ys, key)) == multiset{key(ys[i])} + multiset(Keys(Without(ys, i), key))
  {
    if i > 0 {
      KeysWithout(ys[1..], key, i - 1);
      assert Without(ys, i)[1..] == Without(ys[1..], i - 1);
      assert Without(ys, i)[0] == ys[0];
    } else {
      assert Without(ys, 0) == ys[1..];
    }
  }

  lemma {:induction false} KeysOfConcat<T>(xs: seq<T>, ys: seq<T>, key: T -> Key)
    ensures Keys(xs + ys, key) == Keys(xs, key) + Keys(ys, key)
  {
    if xs == [] {
      assert xs + ys == ys;
    } else {
      assert (xs + ys)[1..] == xs[1..] + ys;
      KeysOfConcat(xs[1..], ys, key);
    }
  }
}
