/** Sequence helpers shared by the tree analytics: filtering, mapping,
    flattening, summing, grouping into maps and the in-place descending sort
    that stands for Go's `sort.Slice` with a `>` comparator. */
module Seqs {

  function Id<T>(x: T): T { x }

  /** The elements of `s` that satisfy `p`, in their original order. */
  function Filter<T>(s: seq<T>, p: T -> bool): (r: seq<T>)
    ensures |r| <= |s|
  {
    if s == [] then [] else Filter(s[..|s| - 1], p) + (if p(s[|s| - 1]) then [s[|s| - 1]] else [])
  }

  /** Filtering keeps exactly the elements that satisfy `p`. */
  lemma {:induction false} FilterMembers<T>(s: seq<T>, p: T -> bool, x: T)
    ensures x in Filter(s, p) <==> x in s && p(x)
  {
    if s != [] {
      var n := |s| - 1;
      FilterMembers(s[..n], p, x);
      assert s == s[..n] + [s[n]];
    }
  }

  lemma {:induction false} FilterConcat<T>(a: seq<T>, b: seq<T>, p: T -> bool)
    ensures Filter(a + b, p) == Filter(a, p) + Filter(b, p)
    decreases |b|
  {
    if b == [] {
      assert a + b == a;
    } else {
      var n := |b| - 1;
      assert (a + b)[..|a + b| - 1] == a + b[..n];
      FilterConcat(a, b[..n], p);
    }
  }

  /** Filtering keeps each satisfying element with its full multiplicity and
      drops every other element. */
  lemma {:induction false} FilterMultiset<T>(s: seq<T>, p: T -> bool, x: T)
    ensures multiset(Filter(s, p))[x] == if p(x) then multiset(s)[x] else 0
  {
    if s != [] {
      var n := |s| - 1;
      FilterMultiset(s[..n], p, x);
      assert s == s[..n] + [s[n]];
    }
  }

  /** Filtering a rearrangement gives a rearrangement of the kept elements. */
  lemma {:induction false} FilterPermutation<T>(s: seq<T>, t: seq<T>, p: T -> bool)
    requires multiset(s) == multiset(t)
    ensures multiset(Filter(s, p)) == multiset(Filter(t, p))
    decreases |s|
  {
    if s != [] {
      var n := |s| - 1;
      var x := s[n];
      assert s == s[..n] + [x];
      assert x in multiset(t);
      var i :| 0 <= i < |t| && t[i] == x;
      var rest := t[..i] + t[i + 1..];
      assert t == t[..i] + [x] + t[i + 1..];
      assert multiset(s[..n]) == multiset(s) - multiset{x};
      assert multiset(rest) == multiset(t) - multiset{x};
      FilterPermutation(s[..n], rest, p);
      FilterConcat(s[..n], [x], p);
      FilterConcat(t[..i] + [x], t[i + 1..], p);
      FilterConcat(t[..i], [x], p);
      FilterConcat(t[..i], t[i + 1..], p);
    }
  }

  /** `f` applied to every element of `s`. */
  /** Concatenation regrouped to the right. */
  lemma Regroup<T>(a: seq<T>, b: seq<T>, c: seq<T>, d: seq<T>)
    ensures a + b + c + d == a + (b + (c + d))
  {
  }

  function Map<T, U>(s: seq<T>, f: T -> U): (r: seq<U>)
    ensures |r| == |s|
    ensures forall i :: 0 <= i < |s| ==> r[i] == f(s[i])
  {
    seq(|s|, i requires 0 <= i < |s| => f(s[i]))
  }

  lemma MapId<T>(s: seq<T>)
    ensures Map(s, Id) == s
  {
  }

  lemma MapConcat<T, U>(a: seq<T>, b: seq<T>, f: T -> U)
    ensures Map(a + b, f) == Map(a, f) + Map(b, f)
  {
  }

  lemma SumByPrefix<T>(s: seq<T>, k: nat, f: T -> int)
    requires 0 < k <= |s|
    ensures SumBy(s[..k], f) == SumBy(s[..k - 1], f) + f(s[k - 1])
  {
    assert s[..k][..k - 1] == s[..k - 1];
  }

  /** Mapping a rearrangement gives a rearrangement of the images. */
  lemma {:induction false} MapPermutation<T, U>(s: seq<T>, t: seq<T>, f: T -> U)
    requires multiset(s) == multiset(t)
    ensures multiset(Map(s, f)) == multiset(Map(t, f))
    decreases |s|
  {
    if s != [] {
      var n := |s| - 1;
      var x := s[n];
      assert s == s[..n] + [x];
      assert x in multiset(t);
      var i :| 0 <= i < |t| && t[i] == x;
      var rest := t[..i] + t[i + 1..];
      assert t == t[..i] + [x] + t[i + 1..];
      assert multiset(s[..n]) == multiset(s) - multiset{x};
      assert multiset(rest) == multiset(t) - multiset{x};
      MapPermutation(s[..n], rest, f);
      MapConcat(s[..n], [x], f);
      MapConcat(t[..i] + [x], t[i + 1..], f);
      MapConcat(t[..i], [x], f);
      MapConcat(t[..i], t[i + 1..], f);
    }
  }

  /** The sum over the kept elements, one element at a time from the right. */
  lemma FilterSumStep<T>(s: seq<T>, p: T -> bool, f: T -> int)
    requires s != []
    ensures SumBy(Filter(s, p), f) ==
      SumBy(Filter(s[..|s| - 1], p), f) + (if p(s[|s| - 1]) then f(s[|s| - 1]) else 0)
  {
    var a := Filter(s[..|s| - 1], p);
    if p(s[|s| - 1]) {
      assert (a + [s[|s| - 1]])[..|a|] == a;
    } else {
      assert a + [] == a;
    }
  }

  /** Two sequences whose terms agree under `f` have the same sum. */
  lemma {:induction false} SumByPointwise<T>(s: seq<T>, t: seq<T>, f: T -> int)
    requires |s| == |t|
    requires forall i :: 0 <= i < |s| ==> f(s[i]) == f(t[i])
    ensures SumBy(s, f) == SumBy(t, f)
  {
    if s != [] {
      var n := |s| - 1;
      SumByPointwise(s[..n], t[..n], f);
    }
  }

  /** A sum of equal terms is their count times the term. */
  lemma {:induction false} SumByConstant<T>(s: seq<T>, f: T -> int, c: int)
    requires forall i :: 0 <= i < |s| ==> f(s[i]) == c
    ensures SumBy(s, f) == |s| * c
  {
    if s != [] {
      var n := |s| - 1;
      SumByConstant(s[..n], f, c);
    }
  }

  /** The concatenation of the sequences of `ss`, left to right. */
  function Flatten<T>(ss: seq<seq<T>>): seq<T>
  {
    if ss == [] then [] else Flatten(ss[..|ss| - 1]) + ss[|ss| - 1]
  }

  /** Sum of `f` over the elements of `s`. */
  function SumBy<T>(s: seq<T>, f: T -> int): int
  {
    if s == [] then 0 else SumBy(s[..|s| - 1], f) + f(s[|s| - 1])
  }

  lemma {:induction false} SumByConcat<T>(a: seq<T>, b: seq<T>, f: T -> int)
    ensures SumBy(a + b, f) == SumBy(a, f) + SumBy(b, f)
    decreases |b|
  {
    if b == [] {
      assert a + b == a;
    } else {
      var n := |b| - 1;
      assert (a + b)[..|a + b| - 1] == a + b[..n];
      SumByConcat(a, b[..n], f);
    }
  }

  /** Replacing one element changes the sum by the difference of its terms. */
  lemma SumByUpdate<T>(s: seq<T>, i: nat, x: T, f: T -> int)
    requires i < |s|
    ensures SumBy(s[i := x], f) == SumBy(s, f) - f(s[i]) + f(x)
  {
    assert s == s[..i] + [s[i]] + s[i + 1..];
    assert s[i := x] == s[..i] + [x] + s[i + 1..];
    SumByConcat(s[..i] + [s[i]], s[i + 1..], f);
    SumByConcat(s[..i], [s[i]], f);
    SumByConcat(s[..i] + [x], s[i + 1..], f);
    SumByConcat(s[..i], [x], f);
    assert SumBy([x], f) == f(x) by { assert [x][..0] == []; }
    assert SumBy([s[i]], f) == f(s[i]) by { assert [s[i]][..0] == []; }
  }

  /** A sum does not depend on the order of its terms. */
  lemma {:induction false} SumByPermutation<T>(s: seq<T>, t: seq<T>, f: T -> int)
    requires multiset(s) == multiset(t)
    ensures SumBy(s, f) == SumBy(t, f)
    decreases |s|
  {
    if s != [] {
      var n := |s| - 1;
      var x := s[n];
      assert s == s[..n] + [x];
      assert x in multiset(t);
      var i :| 0 <= i < |t| && t[i] == x;
      assert t == t[..i] + [x] + t[i + 1..];
      var rest := t[..i] + t[i + 1..];
      assert multiset(s[..n]) == multiset(s) - multiset{x};
      assert multiset(t) == multiset(t[..i]) + multiset{x} + multiset(t[i + 1..]);
      assert multiset(rest) == multiset(t) - multiset{x};
      SumByPermutation(s[..n], rest, f);
      SumByConcat(t[..i] + [x], t[i + 1..], f);
      SumByConcat(t[..i], [x], f);
      SumByConcat(t[..i], t[i + 1..], f);
      assert SumBy([x], f) == f(x) by { assert [x][..0] == []; }
    }
  }

  /** Every element's key is at least the key of every later element:
      the order `sort.Slice` produces for the comparator `key(i) > key(j)`. */
  ghost predicate SortedDesc<T>(s: seq<T>, key: T -> int)
  {
    forall i, j :: 0 <= i < j < |s| ==> key(s[i]) >= key(s[j])
  }

  /** The keys of `s[lo..hi]` are non-increasing. */
  ghost predicate SortedRange<T>(s: seq<T>, lo: int, hi: int, key: T -> int)
  {
    forall p, q :: lo <= p < q < hi && 0 <= p && q < |s| ==> key(s[p]) >= key(s[q])
  }

  /** While `s[i]` moves left to position `j`: both `s[..j]` and `s[j..i + 1]`
      are sorted, and every key left of `j` is at least every key right of `j`. */
  ghost predicate Inserting<T>(s: seq<T>, j: int, i: int, key: T -> int)
  {
    && 0 <= j <= i < |s|
    && SortedRange(s, 0, j, key)
    && SortedRange(s, j, i + 1, key)
    && forall p, q :: 0 <= p < j < q <= i ==> key(s[p]) >= key(s[q])
  }

  /** One exchange of `s[j - 1]` and `s[j]` moves the insertion point left. */
  lemma SwapKeepsInserting<T>(s: seq<T>, j: int, i: int, key: T -> int)
    requires Inserting(s, j, i, key) && 0 < j
    requires key(s[j - 1]) < key(s[j])
    ensures Inserting(s[j - 1 := s[j]][j := s[j - 1]], j - 1, i, key)
  {
  }

  /** Exchanges `a[i]` and `a[i + 1]`. */
  method SwapAdjacent<T>(a: array<T>, i: int)
    requires 0 <= i < a.Length - 1
    modifies a
    ensures a[..] == old(a[..])[i := old(a[i + 1])][i + 1 := old(a[i])]
    ensures multiset(a[..]) == old(multiset(a[..]))
  {
    a[i], a[i + 1] := a[i + 1], a[i];
  }

  /** Moves `a[i]` left past every element with a smaller key, extending the
      sorted prefix `a[..i]` to `a[..i + 1]`. */
  method InsertLeft<T>(a: array<T>, i: int, key: T -> int)
    requires 0 < i < a.Length
    requires SortedRange(a[..], 0, i, key)
    modifies a
    ensures SortedRange(a[..], 0, i + 1, key)
    ensures multiset(a[..]) == old(multiset(a[..]))
  {
    var j := i;
    while j > 0 && key(a[j - 1]) < key(a[j])
      invariant Inserting(a[..], j, i, key)
      invariant multiset(a[..]) == old(multiset(a[..]))
    {
      SwapKeepsInserting(a[..], j, i, key);
      SwapAdjacent(a, j - 1);
      j := j - 1;
    }
  }

  /** Sorts `a` in place so that keys are non-increasing. Elements with equal
      keys end up in no particular order, as with Go's unstable `sort.Slice`. */
  method SortDescending<T>(a: array<T>, key: T -> int)
    modifies a
    ensures SortedDesc(a[..], key)
    ensures multiset(a[..]) == old(multiset(a[..]))
  {
    var i := 1;
    while i < a.Length
      invariant a.Length == 0 || 1 <= i <= a.Length
      invariant SortedRange(a[..], 0, i, key)
      invariant multiset(a[..]) == old(multiset(a[..]))
    {
      InsertLeft(a, i, key);
      i := i + 1;
    }
  }

  /** A copy of `s` sorted by non-increasing key, made the way the Go code
      does it: `sort.Slice` on a slice it owns. */
  method SortedCopy<T>(s: seq<T>, key: T -> int) returns (r: seq<T>)
    ensures SortedDesc(r, key)
    ensures multiset(r) == multiset(s)
  {
    var a := new T[|s|](i requires 0 <= i < |s| => s[i]);
    assert a[..] == s;
    SortDescending(a, key);
    r := a[..];
  }

  /** No two elements of `s` share a key. */
  ghost predicate DistinctKeys<T, K>(s: seq<T>, key: T -> K)
  {
    forall i, j :: 0 <= i < j < |s| ==> key(s[i]) != key(s[j])
  }

  /** The keys of `m` in the order a Go `range` over the map visits them:
      each key exactly once, in an order the runtime chooses. */
  method MapKeys<K(==), V>(m: map<K, V>) returns (ks: seq<K>)
    ensures forall k :: k in ks <==> k in m
    ensures forall i, j :: 0 <= i < j < |ks| ==> ks[i] != ks[j]
    ensures |ks| == |m|
  {
    ks := [];
    var left := m.Keys;
    while left != {}
      invariant left <= m.Keys
      invariant |ks| + |left| == |m.Keys|
      invariant forall k :: k in m ==> (k in left <==> k !in ks)
      invariant forall k :: k in ks ==> k in m
      invariant forall i, j :: 0 <= i < j < |ks| ==> ks[i] != ks[j]
      decreases |left|
    {
      var k :| k in left;
      ks := ks + [k];
      left := left - {k};
    }
  }

  /** The keys the elements of `s` carry. */
  ghost function KeySet<T, K>(s: seq<T>, key: T -> K): set<K>
  {
    set i | 0 <= i < |s| :: key(s[i])
  }

  lemma KeySetSnoc<T, K>(s: seq<T>, x: T, key: T -> K)
    ensures KeySet(s + [x], key) == KeySet(s, key) + {key(x)}
  {
    forall y | y in KeySet(s, key)
      ensures y in KeySet(s + [x], key)
    {
      var i :| 0 <= i < |s| && key(s[i]) == y;
      assert (s + [x])[i] == s[i];
    }
    assert (s + [x])[|s|] == x;
  }

  /** Rearranging a sequence keeps the set of its keys. */
  lemma KeySetPermutation<T, K>(s: seq<T>, t: seq<T>, key: T -> K)
    requires multiset(s) == multiset(t)
    ensures KeySet(s, key) == KeySet(t, key)
  {
    forall y | y in KeySet(s, key)
      ensures y in KeySet(t, key)
    {
      var i :| 0 <= i < |s| && key(s[i]) == y;
      assert s[i] in multiset(t);
    }
    forall y | y in KeySet(t, key)
      ensures y in KeySet(s, key)
    {
      var i :| 0 <= i < |t| && key(t[i]) == y;
      assert t[i] in multiset(s);
    }
  }

  /** Appending an element with a new key keeps the keys distinct. */
  lemma DistinctSnoc<T, K>(s: seq<T>, x: T, key: T -> K)
    requires DistinctKeys(s, key) && key(x) !in KeySet(s, key)
    ensures DistinctKeys(s + [x], key)
  {
    forall i | 0 <= i < |s|
      ensures key((s + [x])[i]) != key(x)
    {
      assert key(s[i]) in KeySet(s, key);
    }
  }

  /** An element occurring at two positions is counted at least twice. */
  lemma TwiceCounted<T>(s: seq<T>, i: int, j: int)
    requires 0 <= i < j < |s| && s[i] == s[j]
    ensures multiset(s)[s[i]] >= 2
  {
    assert s == s[..j] + [s[j]] + s[j + 1..];
    assert s[..j][i] == s[i];
  }

  /** With distinct keys, no element occurs twice. */
  lemma {:induction false} DistinctKeysOnce<T, K>(s: seq<T>, key: T -> K, x: T)
    requires DistinctKeys(s, key)
    ensures multiset(s)[x] <= 1
  {
    if s != [] {
      var n := |s| - 1;
      assert s == s[..n] + [s[n]];
      DistinctKeysOnce(s[..n], key, x);
      if s[n] == x {
        assert x !in s[..n] by {
          forall i | 0 <= i < n
            ensures s[..n][i] != x
          {
            assert key(s[i]) != key(s[n]);
          }
        }
      }
    }
  }

  /** Rearranging a sequence keeps its keys distinct. */
  lemma DistinctPermutation<T, K>(s: seq<T>, t: seq<T>, key: T -> K)
    requires multiset(s) == multiset(t) && DistinctKeys(s, key)
    ensures DistinctKeys(t, key)
  {
    forall i, j | 0 <= i < j < |t|
      ensures key(t[i]) != key(t[j])
    {
      if key(t[i]) == key(t[j]) {
        assert t[i] in multiset(s) && t[j] in multiset(s);
        var p :| 0 <= p < |s| && s[p] == t[i];
        var q :| 0 <= q < |s| && s[q] == t[j];
        assert p == q;
        TwiceCounted(t, i, j);
        DistinctKeysOnce(s, key, t[i]);
        assert false;
      }
    }
  }

  /** The images under `val` of the elements of `s` whose key is `k`, in order. */
  function Bucket<T, K(==), V>(s: seq<T>, key: T -> K, val: T -> V, k: K): seq<V>
  {
    if s == [] then []
    else Bucket(s[..|s| - 1], key, val, k) + (if key(s[|s| - 1]) == k then [val(s[|s| - 1])] else [])
  }

  /** Every element of a bucket of the elements themselves carries its key. */
  lemma {:induction false} BucketKeys<T, K>(s: seq<T>, key: T -> K, k: K)
    ensures forall i :: 0 <= i < |Bucket(s, key, Id, k)| ==> key(Bucket(s, key, Id, k)[i]) == k
  {
    if s != [] {
      BucketKeys(s[..|s| - 1], key, k);
    }
  }

  /** A value is in a bucket exactly when some element with that key maps to it. */
  lemma {:induction false} BucketMembers<T, K, V>(s: seq<T>, key: T -> K, val: T -> V, k: K, v: V)
    ensures v in Bucket(s, key, val, k) <==> exists i :: 0 <= i < |s| && key(s[i]) == k && val(s[i]) == v
  {
    if s != [] {
      var n := |s| - 1;
      BucketMembers(s[..n], key, val, k, v);
      if exists i :: 0 <= i < n && key(s[..n][i]) == k && val(s[..n][i]) == v {
        var i :| 0 <= i < n && key(s[..n][i]) == k && val(s[..n][i]) == v;
        assert key(s[i]) == k && val(s[i]) == v;
      }
      if exists i :: 0 <= i < |s| && key(s[i]) == k && val(s[i]) == v {
        var i :| 0 <= i < |s| && key(s[i]) == k && val(s[i]) == v;
        if i < n { assert key(s[..n][i]) == k && val(s[..n][i]) == v; }
      }
    }
  }

  /** Appends `val(x)` to the slice stored under `key(x)` for every `x` of `s`
      in order, as `m[key] = append(m[key], x)` does in Go (a missing key reads
      as an empty slice). */
  function GroupBy<T, K(==), V>(m: map<K, seq<V>>, s: seq<T>, key: T -> K, val: T -> V): map<K, seq<V>>
  {
    if s == [] then m
    else
      var g := GroupBy(m, s[..|s| - 1], key, val);
      var x := s[|s| - 1];
      g[key(x) := (if key(x) in g then g[key(x)] else []) + [val(x)]]
  }

  lemma {:induction false} GroupByConcat<T, K, V>(m: map<K, seq<V>>, a: seq<T>, b: seq<T>, key: T -> K, val: T -> V)
    ensures GroupBy(m, a + b, key, val) == GroupBy(GroupBy(m, a, key, val), b, key, val)
    decreases |b|
  {
    if b == [] {
      assert a + b == a;
    } else {
      var n := |b| - 1;
      assert (a + b)[..|a + b| - 1] == a + b[..n];
      GroupByConcat(m, a, b[..n], key, val);
    }
  }

  /** After grouping, a key is present exactly when it was already present or
      some element carries it, and its slice is the old slice followed by that
      key's bucket. */
  lemma {:induction false} GroupByBuckets<T, K, V>(m: map<K, seq<V>>, s: seq<T>, key: T -> K, val: T -> V, k: K)
    ensures k in GroupBy(m, s, key, val) <==> k in m || Bucket(s, key, val, k) != []
    ensures k in GroupBy(m, s, key, val) ==>
      GroupBy(m, s, key, val)[k] == (if k in m then m[k] else []) + Bucket(s, key, val, k)
  {
    if s != [] {
      GroupByBuckets(m, s[..|s| - 1], key, val, k);
    }
  }

  /** A bucket is non-empty exactly when some element carries its key. */
  lemma {:induction false} BucketNonEmpty<T, K, V>(s: seq<T>, key: T -> K, val: T -> V, k: K)
    ensures Bucket(s, key, val, k) != [] <==> exists i :: 0 <= i < |s| && key(s[i]) == k
  {
    if s != [] {
      var n := |s| - 1;
      BucketNonEmpty(s[..n], key, val, k);
      if exists i :: 0 <= i < n && key(s[..n][i]) == k {
        var i :| 0 <= i < n && key(s[..n][i]) == k;
        assert key(s[i]) == k;
      }
      if exists i :: 0 <= i < |s| && key(s[i]) == k {
        var i :| 0 <= i < |s| && key(s[i]) == k;
        if i < n { assert key(s[..n][i]) == k; }
      }
    }
  }

  /** Stores `val(x)` under `key(x)` for every `x` of `s` in order, as
      `m[key] = val` does in Go: a later element overwrites an earlier one. */
  function Assign<T, K(==), V>(m: map<K, V>, s: seq<T>, key: T -> K, val: T -> V): map<K, V>
  {
    if s == [] then m
    else Assign(m, s[..|s| - 1], key, val)[key(s[|s| - 1]) := val(s[|s| - 1])]
  }

  lemma {:induction false} AssignConcat<T, K, V>(m: map<K, V>, a: seq<T>, b: seq<T>, key: T -> K, val: T -> V)
    ensures Assign(m, a + b, key, val) == Assign(Assign(m, a, key, val), b, key, val)
    decreases |b|
  {
    if b == [] {
      assert a + b == a;
    } else {
      var n := |b| - 1;
      assert (a + b)[..|a + b| - 1] == a + b[..n];
      AssignConcat(m, a, b[..n], key, val);
    }
  }

  /** After the writes a key is present exactly when it was before or some
      element carries it, and then it holds the value of the last such element. */
  lemma {:induction false} AssignLast<T, K, V>(m: map<K, V>, s: seq<T>, key: T -> K, val: T -> V, k: K)
    ensures k in Assign(m, s, key, val) <==> k in m || exists i :: 0 <= i < |s| && key(s[i]) == k
    ensures forall j :: 0 <= j < |s| && key(s[j]) == k && (forall i :: j < i < |s| ==> key(s[i]) != k) ==>
      Assign(m, s, key, val)[k] == val(s[j])
  {
    if s != [] {
      var n := |s| - 1;
      AssignLast(m, s[..n], key, val, k);
      if exists i :: 0 <= i < n && key(s[..n][i]) == k {
        var i :| 0 <= i < n && key(s[..n][i]) == k;
        assert key(s[i]) == k;
      }
      forall j | 0 <= j < n && key(s[j]) == k && (forall i :: j < i < |s| ==> key(s[i]) != k)
        ensures Assign(m, s, key, val)[k] == val(s[j])
      {
        assert key(s[..n][j]) == k;
        assert key(s[n]) != k;
      }
    }
  }

  /** Adds `f(x)` to the total stored under `key(x)` for every `x` of `s`, as
      `m[key] += size` does in Go (a missing key reads as zero). */
  function AddUp<T, K(==)>(m: map<K, int>, s: seq<T>, key: T -> K, f: T -> int): map<K, int>
  {
    if s == [] then m
    else
      var g := AddUp(m, s[..|s| - 1], key, f);
      var x := s[|s| - 1];
      g[key(x) := (if key(x) in g then g[key(x)] else 0) + f(x)]
  }

  /** Sum of `f` over the elements of `s` whose key is `k`. */
  function KeyTotal<T, K(==)>(s: seq<T>, key: T -> K, f: T -> int, k: K): int
  {
    if s == [] then 0
    else KeyTotal(s[..|s| - 1], key, f, k) + (if key(s[|s| - 1]) == k then f(s[|s| - 1]) else 0)
  }

  lemma {:induction false} AddUpConcat<T, K>(m: map<K, int>, a: seq<T>, b: seq<T>, key: T -> K, f: T -> int)
    ensures AddUp(m, a + b, key, f) == AddUp(AddUp(m, a, key, f), b, key, f)
    decreases |b|
  {
    if b == [] {
      assert a + b == a;
    } else {
      var n := |b| - 1;
      assert (a + b)[..|a + b| - 1] == a + b[..n];
      AddUpConcat(m, a, b[..n], key, f);
    }
  }

  /** After adding up from an empty map, the keys are exactly the keys of the
      elements and each total is the sum over the elements with that key. */
  lemma {:induction false} AddUpTotals<T, K>(s: seq<T>, key: T -> K, f: T -> int, k: K)
    ensures k in AddUp(map[], s, key, f) <==> exists i :: 0 <= i < |s| && key(s[i]) == k
    ensures k in AddUp(map[], s, key, f) ==> AddUp(map[], s, key, f)[k] == KeyTotal(s, key, f, k)
    ensures k !in AddUp(map[], s, key, f) ==> KeyTotal(s, key, f, k) == 0
  {
    if s != [] {
      var n := |s| - 1;
      AddUpTotals(s[..n], key, f, k);
      if exists i :: 0 <= i < n && key(s[..n][i]) == k {
        var i :| 0 <= i < n && key(s[..n][i]) == k;
        assert key(s[i]) == k;
      }
      if exists i :: 0 <= i < |s| && key(s[i]) == k {
        var i :| 0 <= i < |s| && key(s[i]) == k;
        if i < n { assert key(s[..n][i]) == k; }
      }
    }
  }

  /** Sum of `f` over the elements of `s` whose key lies in `keys`. */
  function KeysTotal<T, K>(s: seq<T>, key: T -> K, f: T -> int, keys: set<K>): int
  {
    if s == [] then 0
    else KeysTotal(s[..|s| - 1], key, f, keys) + (if key(s[|s| - 1]) in keys then f(s[|s| - 1]) else 0)
  }

  /** Taking one more key adds that key's total. */
  lemma {:induction false} KeysTotalAdd<T, K>(s: seq<T>, key: T -> K, f: T -> int, keys: set<K>, k: K)
    requires k !in keys
    ensures KeysTotal(s, key, f, keys + {k}) == KeysTotal(s, key, f, keys) + KeyTotal(s, key, f, k)
  {
    if s != [] {
      KeysTotalAdd(s[..|s| - 1], key, f, keys, k);
    }
  }

  /** With every element's key taken, the total is the plain sum. */
  lemma {:induction false} KeysTotalAll<T, K>(s: seq<T>, key: T -> K, f: T -> int, keys: set<K>)
    requires forall i :: 0 <= i < |s| ==> key(s[i]) in keys
    ensures KeysTotal(s, key, f, keys) == SumBy(s, f)
  {
    if s != [] {
      var n := |s| - 1;
      assert forall i :: 0 <= i < n ==> s[..n][i] == s[i];
      KeysTotalAll(s[..n], key, f, keys);
    }
  }

  lemma KeysTotalNone<T, K>(s: seq<T>, key: T -> K, f: T -> int)
    ensures KeysTotal(s, key, f, {}) == 0
  {
    if s != [] {
      KeysTotalNone(s[..|s| - 1], key, f);
    }
  }
}
