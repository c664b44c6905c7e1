/**
 Generic sequence helpers shared by the rest of the model: the Rust `Option`,
 position lookup, "keep the first element per key" (the behaviour of
 `Itertools::unique_by` and of an insertion-ordered map filled with
 `entry(..).or_insert(..)`), and a stable sort (the behaviour of `sort_by`).
 */
module Seqs {

  datatype Option<+T> = None | Some(value: T)

  /** Element-wise image of a sequence. */
  function MapSeq<T, U>(xs: seq<T>, f: T -> U): (r: seq<U>)
    ensures |r| == |xs|
    ensures forall i :: 0 <= i < |xs| ==> r[i] == f(xs[i])
  {
    seq(|xs|, i requires 0 <= i < |xs| => f(xs[i]))
  }

  predicate Distinct<T(==)>(xs: seq<T>) {
    forall i, j :: 0 <= i < j < |xs| ==> xs[i] != xs[j]
  }

  /** Position of the first occurrence of `x`. */
  function IndexOf<T(==)>(xs: seq<T>, x: T): (i: nat)
    requires x in xs
    ensures i < |xs| && xs[i] == x
    ensures forall k :: 0 <= k < i ==> xs[k] != x
  {
    if xs[0] == x then 0 else 1 + IndexOf(xs[1..], x)
  }

  lemma {:induction false} IndexOfPrefix<T>(xs: seq<T>, n: nat, x: T)
    requires n <= |xs| && x in xs[..n]
    ensures x in xs && IndexOf(xs[..n], x) == IndexOf(xs, x)
  {
    assert xs[..n][0] == xs[0];
    if xs[0] != x {
      assert xs[..n][1..] == xs[1..][..n - 1];
      IndexOfPrefix(xs[1..], n - 1, x);
    }
  }

  lemma MapSeqPrefix<T, U>(xs: seq<T>, f: T -> U, n: nat)
    requires n <= |xs|
    ensures MapSeq(xs[..n], f) == MapSeq(xs, f)[..n]
  {
  }

  /** The image of a member is a member of the image. */
  lemma MapSeqMember<T, U>(xs: seq<T>, x: T, f: T -> U)
    requires x in xs
    ensures f(x) in MapSeq(xs, f)
  {
    var k :| 0 <= k < |xs| && xs[k] == x;
    assert MapSeq(xs, f)[k] == f(x);
  }

  lemma MapSeqSnoc<T, U>(xs: seq<T>, x: T, f: T -> U)
    ensures MapSeq(xs + [x], f) == MapSeq(xs, f) + [f(x)]
  {
  }

  /**
   Keeps, for every key, only the first element carrying it, in the order
   of first appearance.
   */
  function UniqueBy<T(==), K(==)>(xs: seq<T>, key: T -> K): (r: seq<T>)
    ensures |r| <= |xs|
    ensures Distinct(MapSeq(r, key))
    ensures forall x :: x in r ==> x in xs
    ensures forall i :: 0 <= i < |xs| ==> key(xs[i]) in MapSeq(r, key)
    decreases |xs|
  {
    if |xs| == 0 then []
    else
      var prev := UniqueBy(xs[..|xs| - 1], key);
      var last := xs[|xs| - 1];
      assert forall i :: 0 <= i < |xs| - 1 ==> xs[i] == xs[..|xs| - 1][i];
      if key(last) in MapSeq(prev, key) then prev
      else
        MapSeqSnoc(prev, last, key);
        prev + [last]
  }

  /** The keys of a sequence, in order. */
  function KeysOf<T, K>(xs: seq<T>, key: T -> K): seq<K> {
    MapSeq(xs, key)
  }

  /** Every element of `r` is the first element of `xs` carrying its key. */
  ghost predicate KeepsFirsts<T, K>(xs: seq<T>, key: T -> K, r: seq<T>) {
    forall i :: 0 <= i < |r| ==>
      key(r[i]) in KeysOf(xs, key) && r[i] == xs[IndexOf(KeysOf(xs, key), key(r[i]))]
  }

  /** The elements of `r` appear in the order in which their keys first occur in `xs`. */
  ghost predicate InFirstAppearanceOrder<T, K>(xs: seq<T>, key: T -> K, r: seq<T>) {
    forall i, j :: 0 <= i < j < |r| ==> FirstAppearsBefore(xs, key, r[i], r[j])
  }

  /** The key of `a` first occurs in `xs` before the key of `b`. */
  ghost predicate FirstAppearsBefore<T, K>(xs: seq<T>, key: T -> K, a: T, b: T) {
    key(a) in KeysOf(xs, key) && key(b) in KeysOf(xs, key) &&
    IndexOf(KeysOf(xs, key), key(a)) < IndexOf(KeysOf(xs, key), key(b))
  }

  /** Extending `xs` does not move the first index of a key already present. */
  lemma FirstIndexStable<T, K>(xs: seq<T>, key: T -> K, n: nat, k: K)
    requires n <= |xs| && k in KeysOf(xs[..n], key)
    ensures k in KeysOf(xs, key)
    ensures IndexOf(KeysOf(xs, key), k) == IndexOf(KeysOf(xs[..n], key), k) < n
  {
    MapSeqPrefix(xs, key, n);
    IndexOfPrefix(KeysOf(xs, key), n, k);
  }

  lemma KeepsFirstsPrefix<T, K>(xs: seq<T>, key: T -> K, n: nat, r: seq<T>)
    requires n <= |xs| && KeepsFirsts(xs[..n], key, r)
    ensures KeepsFirsts(xs, key, r)
  {
    forall i | 0 <= i < |r|
      ensures key(r[i]) in KeysOf(xs, key) && r[i] == xs[IndexOf(KeysOf(xs, key), key(r[i]))]
    {
      FirstIndexStable(xs, key, n, key(r[i]));
    }
  }

  lemma OrderPrefix<T, K>(xs: seq<T>, key: T -> K, n: nat, r: seq<T>)
    requires n <= |xs| && InFirstAppearanceOrder(xs[..n], key, r)
    ensures InFirstAppearanceOrder(xs, key, r)
  {
    var pks := KeysOf(xs[..n], key);
    forall i, j | 0 <= i < j < |r|
      ensures FirstAppearsBefore(xs, key, r[i], r[j])
    {
      assert FirstAppearsBefore(xs[..n], key, r[i], r[j]);
      var ki, kj := key(r[i]), key(r[j]);
      assert ki in pks && kj in pks && IndexOf(pks, ki) < IndexOf(pks, kj);
      FirstIndexStable(xs, key, n, ki);
      FirstIndexStable(xs, key, n, kj);
    }
  }

  /**
   Every kept element is the first element of `xs` with its key, and kept
   elements appear in the order of their first occurrence.
   */
  lemma {:induction false} UniqueByFirst<T, K>(xs: seq<T>, key: T -> K)
    ensures KeepsFirsts(xs, key, UniqueBy(xs, key))
    ensures InFirstAppearanceOrder(xs, key, UniqueBy(xs, key))
    decreases |xs|
  {
    if |xs| == 0 {
      return;
    }
    var n := |xs| - 1;
    var pre := xs[..n];
    var prev := UniqueBy(pre, key);
    UniqueByFirst(pre, key);
    KeepsFirstsPrefix(xs, key, n, prev);
    OrderPrefix(xs, key, n, prev);
    if key(xs[n]) !in MapSeq(prev, key) {
      UniqueByFirstNew(xs, key, prev);
    }
  }

  /** The step of `UniqueByFirst` that keeps the last element, whose key is new. */
  lemma {:induction false} UniqueByFirstNew<T, K>(xs: seq<T>, key: T -> K, prev: seq<T>)
    requires |xs| > 0
    requires var n := |xs| - 1;
      KeepsFirsts(xs, key, prev) && InFirstAppearanceOrder(xs, key, prev) &&
      (forall k :: 0 <= k < n ==> key(xs[..n][k]) in MapSeq(prev, key)) &&
      key(xs[n]) !in MapSeq(prev, key)
    ensures KeepsFirsts(xs, key, prev + [xs[|xs| - 1]])
    ensures InFirstAppearanceOrder(xs, key, prev + [xs[|xs| - 1]])
  {
    var n := |xs| - 1;
    var last := xs[n];
    var r := prev + [last];
    var ks := KeysOf(xs, key);
    forall k | 0 <= k < n
      ensures ks[k] != key(last)
    {
      assert key(xs[..n][k]) in MapSeq(prev, key);
    }
    assert ks[n] == key(last);
    assert IndexOf(ks, key(last)) == n;
    forall i | 0 <= i < |prev|
      ensures IndexOf(ks, key(prev[i])) < n
    {
      FirstIndexStable(xs, key, n, key(prev[i]));
    }
    assert KeepsFirsts(xs, key, r) by {
      assert forall i :: 0 <= i < |prev| ==> r[i] == prev[i];
    }
    assert InFirstAppearanceOrder(xs, key, r) by {
      assert forall i :: 0 <= i < |prev| ==> r[i] == prev[i];
    }
  }

  function Id<T>(x: T): T {
    x
  }

  /** A sequence whose identity image has no repeats has no repeats. */
  lemma DistinctById<T>(xs: seq<T>)
    requires Distinct(MapSeq(xs, Id))
    ensures Distinct(xs)
  {
    assert forall i :: 0 <= i < |xs| ==> MapSeq(xs, Id)[i] == xs[i];
  }

  /** The concatenation of the inner sequences, in order. */
  function Flatten<T>(xss: seq<seq<T>>): (r: seq<T>)
    ensures forall i, j :: 0 <= i < |xss| && 0 <= j < |xss[i]| ==> xss[i][j] in r
    ensures forall k :: 0 <= k < |r| ==> exists i :: 0 <= i < |xss| && r[k] in xss[i]
    decreases |xss|
  {
    if |xss| == 0 then []
    else
      var n := |xss| - 1;
      assert forall i :: 0 <= i < n ==> xss[..n][i] == xss[i];
      Flatten(xss[..n]) + xss[n]
  }

  /** Multiplicity-insensitive sortedness by an integer key. */
  ghost predicate SortedBy<T>(xs: seq<T>, key: T -> int) {
    forall i, j :: 0 <= i < j < |xs| ==> key(xs[i]) <= key(xs[j])
  }

  /** Inserts `x` before the first element whose key is not smaller. */
  function InsertBy<T(==)>(x: T, xs: seq<T>, key: T -> int): (r: seq<T>)
    requires SortedBy(xs, key)
    ensures SortedBy(r, key)
    ensures multiset(r) == multiset(xs) + multiset{x}
    ensures |r| == |xs| + 1
  {
    if |xs| == 0 || key(x) <= key(xs[0]) then [x] + xs
    else
      var rest := InsertBy(x, xs[1..], key);
      assert xs == [xs[0]] + xs[1..];
      forall i | 0 <= i < |rest|
        ensures key(xs[0]) <= key(rest[i])
      {
        assert rest[i] in multiset(rest);
        if rest[i] != x {
          assert rest[i] in multiset(xs[1..]);
        }
      }
      [xs[0]] + rest
  }

  /**
   Stable insertion sort: the result is ordered by `key` and is a
   permutation of the input.
   */
  function SortBy<T(==)>(xs: seq<T>, key: T -> int): (r: seq<T>)
    ensures SortedBy(r, key)
    ensures multiset(r) == multiset(xs)
    ensures |r| == |xs|
  {
    if |xs| == 0 then []
    else
      assert xs == [xs[0]] + xs[1..];
      InsertBy(xs[0], SortBy(xs[1..], key), key)
  }

  /**
   `max_by_key`: the position of an element with the largest key; when several
   share it, the LAST of them.
   */
  function MaxIndexByKey<T>(xs: seq<T>, key: T -> int): (i: nat)
    requires |xs| > 0
    ensures i < |xs|
    ensures forall j :: 0 <= j < |xs| ==> key(xs[j]) <= key(xs[i])
    ensures forall j :: i < j < |xs| ==> key(xs[j]) < key(xs[i])
    decreases |xs|
  {
    if |xs| == 1 then 0
    else
      var n := |xs| - 1;
      var best := MaxIndexByKey(xs[..n], key);
      assert forall j :: 0 <= j < n ==> xs[..n][j] == xs[j];
      if key(xs[n]) >= key(xs[best]) then n else best
  }

  /** The `k`-th item of `xs.iter().cycle()`: the sequence repeated without end. */
  function CycleNth<T>(xs: seq<T>, k: nat): T
    requires |xs| > 0
    decreases k
  {
    if k < |xs| then xs[k] else CycleNth(xs, k - |xs|)
  }

  /** After `q` whole laps a cycle is back at position `r`. */
  lemma {:induction false} CycleNthLaps<T>(xs: seq<T>, q: nat, r: nat)
    requires r < |xs|
    ensures CycleNth(xs, q * |xs| + r) == xs[r]
    decreases q
  {
    if q > 0 {
      assert q * |xs| + r - |xs| == (q - 1) * |xs| + r;
      CycleNthLaps(xs, q - 1, r);
    }
  }

  /** Walking a cycle is indexing modulo its length. */
  lemma CycleNthIsMod<T>(xs: seq<T>, k: nat)
    requires |xs| > 0
    ensures CycleNth(xs, k) == xs[k % |xs|]
  {
    assert k == (k / |xs|) * |xs| + k % |xs|;
    CycleNthLaps(xs, k / |xs|, k % |xs|);
  }

  lemma MapSeqConcat<T, U>(a: seq<T>, b: seq<T>, f: T -> U)
    ensures MapSeq(a + b, f) == MapSeq(a, f) + MapSeq(b, f)
  {
  }

  /** Removing the element at `k` removes one copy of it from the contents. */
  lemma MultisetRemoveAt<T>(b: seq<T>, k: nat)
    requires k < |b|
    ensures multiset(b[..k] + b[k + 1..]) == multiset(b) - multiset{b[k]}
  {
    assert b == b[..k] + [b[k]] + b[k + 1..];
  }

  lemma MapSeqSplitAt<T, U>(b: seq<T>, k: nat, f: T -> U)
    requires k < |b|
    ensures multiset(MapSeq(b, f)) == multiset(MapSeq(b[..k] + b[k + 1..], f)) + multiset{f(b[k])}
  {
    var m := MapSeq(b, f);
    assert m == m[..k] + [m[k]] + m[k + 1..];
    assert m[..k] == MapSeq(b[..k], f);
    assert m[k + 1..] == MapSeq(b[k + 1..], f);
    MapSeqConcat(b[..k], b[k + 1..], f);
  }

  /** Equal contents stay equal contents under an element-wise image. */
  lemma {:induction false} MultisetMapSeq<T, U>(a: seq<T>, b: seq<T>, f: T -> U)
    requires multiset(a) == multiset(b)
    ensures multiset(MapSeq(a, f)) == multiset(MapSeq(b, f))
    decreases |a|
  {
    if |a| == 0 {
      assert |multiset(b)| == 0;
    } else {
      var x := a[0];
      var tail := a[1..];
      assert x in multiset(b);
      var k := IndexOf(b, x);
      var rest := b[..k] + b[k + 1..];
      MultisetRemoveAt(b, k);
      assert a == [x] + tail;
      assert multiset(tail) == multiset(rest);
      MultisetMapSeq(tail, rest, f);
      MapSeqSplitAt(b, k, f);
      MapSeqConcat([x], tail, f);
      assert MapSeq([x], f) == [f(x)];
    }
  }

  function EntryKey<K, V>(p: (K, V)): K {
    p.0
  }

  function EntryValue<K, V>(p: (K, V)): V {
    p.1
  }

  /**
   `map.entry(k).or_insert(v)` on a map held as its entries in insertion
   order: a key already present keeps its value.
   */
  function OrInsert<K(==), V>(entries: seq<(K, V)>, k: K, v: V): seq<(K, V)> {
    if k in MapSeq(entries, EntryKey) then entries else entries + [(k, v)]
  }

  /** Inserting pairs one by one with `or_insert` keeps the first pair of every key. */
  lemma OrInsertIsUniqueBy<K, V>(ps: seq<(K, V)>, k: K, v: V)
    ensures UniqueBy(ps + [(k, v)], EntryKey) == OrInsert(UniqueBy(ps, EntryKey), k, v)
  {
    assert (ps + [(k, v)])[..|ps|] == ps;
  }
}
