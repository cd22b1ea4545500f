/**
 * Sequence vocabulary shared by the digest model.
 *
 * A JavaScript `Map` filled by "create the bucket if missing, then push"
 * iterates its keys in order of first appearance; `DistinctKeys` is that
 * order and `Having` is the bucket of one key.  `Array.prototype.sort` with a
 * numeric comparator is stable, so its result is the unique stable order by
 * that key; `SortBy` is a stable insertion sort by an integer key (a
 * descending sort is an ascending sort on the negated key).
 */
module Seqs {

  predicate NoDup<K(==)>(s: seq<K>) {
    forall i, j :: 0 <= i < j < |s| ==> s[i] != s[j]
  }

  /** The keys of `s`, each once, in order of first appearance. */
  function DistinctKeys<T, K(==)>(s: seq<T>, key: T -> K): seq<K>
  {
    if s == [] then []
    else
      var d := DistinctKeys(s[..|s| - 1], key);
      var k := key(s[|s| - 1]);
      if k in d then d else d + [k]
  }

  /** Each key of `s` is listed, once, and nothing else is. */
  lemma {:induction false} DistinctKeysSpec<T, K(!new)>(s: seq<T>, key: T -> K)
    ensures NoDup(DistinctKeys(s, key))
    ensures forall k :: k in DistinctKeys(s, key) <==> exists i :: 0 <= i < |s| && key(s[i]) == k
  {
    if s != [] {
      var init := s[..|s| - 1];
      DistinctKeysSpec(init, key);
      assert forall i :: 0 <= i < |init| ==> init[i] == s[i];
    }
  }

  /** The elements of `s` whose key is `k`, in their original order. */
  function Having<T, K(==)>(s: seq<T>, key: T -> K, k: K): seq<T>
  {
    if s == [] then []
    else Having(s[..|s| - 1], key, k) + (if key(s[|s| - 1]) == k then [s[|s| - 1]] else [])
  }

  /** A bucket holds every element with its key, as often as `s` does, and nothing else. */
  lemma {:induction false} HavingSpec<T(!new), K>(s: seq<T>, key: T -> K, k: K)
    ensures forall i :: 0 <= i < |Having(s, key, k)| ==> key(Having(s, key, k)[i]) == k
    ensures forall x :: multiset(Having(s, key, k))[x] == if key(x) == k then multiset(s)[x] else 0
  {
    if s != [] {
      var init := s[..|s| - 1];
      HavingSpec(init, key, k);
      assert s == init + [s[|s| - 1]];
    }
  }

  /** Whatever a bucket holds comes from `s`. */
  lemma HavingMember<T(!new), K>(s: seq<T>, key: T -> K, k: K, x: T)
    requires x in Having(s, key, k)
    ensures x in s
  {
    HavingSpec(s, key, k);
    assert multiset(Having(s, key, k))[x] > 0;
  }

  /** A key that does not occur has an empty bucket. */
  lemma {:induction false} HavingMissing<T, K>(s: seq<T>, key: T -> K, k: K)
    requires k !in DistinctKeys(s, key)
    ensures Having(s, key, k) == []
  {
    if s != [] {
      HavingMissing(s[..|s| - 1], key, k);
    }
  }

  /** A bucket of elements that all already have the key is the elements themselves. */
  lemma {:induction false} HavingAll<T(!new), K>(s: seq<T>, key: T -> K, k: K)
    requires forall i :: 0 <= i < |s| ==> key(s[i]) == k
    ensures Having(s, key, k) == s
  {
    if s != [] {
      var init := s[..|s| - 1];
      assert forall i :: 0 <= i < |init| ==> init[i] == s[i];
      HavingAll(init, key, k);
      assert key(s[|s| - 1]) == k;
      calc {
        Having(s, key, k);
        Having(init, key, k) + [s[|s| - 1]];
        init + [s[|s| - 1]];
        s;
      }
    }
  }

  /** Taking a bucket twice is taking it once. */
  lemma HavingIdempotent<T(!new), K>(s: seq<T>, key: T -> K, k: K)
    ensures Having(Having(s, key, k), key, k) == Having(s, key, k)
  {
    HavingSpec(s, key, k);
    HavingAll(Having(s, key, k), key, k);
  }

  /** A bucket is an order-preserving subsequence of the whole. */
  lemma {:induction false} HavingEmbedding<T(!new), K>(s: seq<T>, key: T -> K, k: K) returns (idx: seq<int>)
    ensures IsEmbedding(idx, Having(s, key, k), s)
  {
    if s == [] {
      idx := [];
    } else {
      var init := s[..|s| - 1];
      idx := HavingEmbedding(init, key, k);
      var h := Having(init, key, k);
      assert Having(s, key, k) == h + (if key(s[|s| - 1]) == k then [s[|s| - 1]] else []);
      if key(s[|s| - 1]) == k {
        idx := idx + [|s| - 1];
      }
    }
  }

  /** The buckets of the keys `ks`, concatenated in the order of `ks`. */
  function Grouped<T(==,!new), K(==)>(s: seq<T>, key: T -> K, ks: seq<K>): seq<T>
  {
    if ks == [] then [] else Grouped(s, key, ks[..|ks| - 1]) + Having(s, key, ks[|ks| - 1])
  }

  lemma {:induction false} GroupedCount<T(!new), K>(s: seq<T>, key: T -> K, ks: seq<K>, x: T)
    requires NoDup(ks)
    ensures multiset(Grouped(s, key, ks))[x] == if key(x) in ks then multiset(s)[x] else 0
  {
    if ks != [] {
      var init := ks[..|ks| - 1];
      assert NoDup(init);
      GroupedCount(s, key, init, x);
      HavingSpec(s, key, ks[|ks| - 1]);
      assert ks == init + [ks[|ks| - 1]];
      assert key(x) in ks <==> key(x) in init || key(x) == ks[|ks| - 1];
    }
  }

  /** Splitting `s` into the buckets of its distinct keys loses and invents nothing. */
  lemma GroupedPermutation<T(!new), K(!new)>(s: seq<T>, key: T -> K)
    ensures multiset(Grouped(s, key, DistinctKeys(s, key))) == multiset(s)
  {
    var ks := DistinctKeys(s, key);
    DistinctKeysSpec(s, key);
    forall x
      ensures multiset(Grouped(s, key, ks))[x] == multiset(s)[x]
    {
      GroupedCount(s, key, ks, x);
      if x in s {
        var i :| 0 <= i < |s| && s[i] == x;
        assert key(s[i]) in ks;
      }
    }
  }

  /**
   * Grouping by key, as `processThreads` does twice: walk `s`, open an empty
   * bucket the first time a key is seen, and push the element into its bucket.
   */
  method GroupBy<T(==,!new), K(==,!new)>(s: seq<T>, key: T -> K) returns (order: seq<K>, groups: map<K, seq<T>>)
    ensures order == DistinctKeys(s, key)
    ensures forall k :: k in groups <==> k in order
    ensures forall k :: k in groups ==> groups[k] == Having(s, key, k)
  {
    order := [];
    groups := map[];
    for i := 0 to |s|
      invariant order == DistinctKeys(s[..i], key)
      invariant forall k :: k in groups <==> k in order
      invariant forall k :: k in groups ==> groups[k] == Having(s[..i], key, k)
    {
      assert s[..i + 1][..i] == s[..i] && s[..i + 1][i] == s[i];
      var k := key(s[i]);
      if k !in groups {
        HavingMissing(s[..i], key, k);
        order := order + [k];
        groups := groups[k := []];
      }
      groups := groups[k := groups[k] + [s[i]]];
    }
    assert s[..|s|] == s;
  }

  predicate SortedBy<T>(s: seq<T>, key: T -> int) {
    forall i, j :: 0 <= i < j < |s| ==> key(s[i]) <= key(s[j])
  }

  /** Inserts `x` after every element whose key is at most `x`'s. */
  function Insert<T(==)>(x: T, s: seq<T>, key: T -> int): (r: seq<T>)
    requires SortedBy(s, key)
    ensures |r| == |s| + 1
    ensures r[0] == x || (s != [] && r[0] == s[0])
    ensures SortedBy(r, key)
    ensures multiset(r) == multiset(s) + multiset{x}
  {
    if s == [] then [x]
    else if key(x) < key(s[0]) then [x] + s
    else
      assert s == [s[0]] + s[1..];
      [s[0]] + Insert(x, s[1..], key)
  }

  /** Stable ascending sort by `key`: the result is ordered and a permutation of `s`. */
  function SortBy<T(==)>(s: seq<T>, key: T -> int): (r: seq<T>)
    ensures |r| == |s|
    ensures SortedBy(r, key)
    ensures multiset(r) == multiset(s)
  {
    if s == [] then []
    else
      assert s == s[..|s| - 1] + [s[|s| - 1]];
      Insert(s[|s| - 1], SortBy(s[..|s| - 1], key), key)
  }

  lemma {:induction false} InsertAtEnd<T>(x: T, s: seq<T>, key: T -> int)
    requires SortedBy(s, key)
    requires forall i :: 0 <= i < |s| ==> key(s[i]) <= key(x)
    ensures Insert(x, s, key) == s + [x]
  {
    if s != [] {
      InsertAtEnd(x, s[1..], key);
      assert [s[0]] + (s[1..] + [x]) == s + [x];
    }
  }

  /** Sorting what is already in order changes nothing: ties keep their order. */
  lemma {:induction false} SortBySorted<T>(s: seq<T>, key: T -> int)
    requires SortedBy(s, key)
    ensures SortBy(s, key) == s
  {
    if s != [] {
      var init, last := s[..|s| - 1], s[|s| - 1];
      assert SortedBy(init, key) by {
        forall i, j | 0 <= i < j < |init| ensures key(init[i]) <= key(init[j]) {
          assert init[i] == s[i] && init[j] == s[j];
        }
      }
      SortBySorted(init, key);
      forall i | 0 <= i < |init| ensures key(init[i]) <= key(last) {
        assert init[i] == s[i];
      }
      InsertAtEnd(last, init, key);
      assert init + [last] == s;
    }
  }

  lemma SortedTail<T>(s: seq<T>, key: T -> int)
    requires SortedBy(s, key) && s != []
    ensures SortedBy(s[1..], key)
  {
    forall i, j | 0 <= i < j < |s[1..]| ensures key(s[1..][i]) <= key(s[1..][j]) {
      assert s[1..][i] == s[i + 1] && s[1..][j] == s[j + 1];
    }
  }

  /** Sorting a second time changes nothing. */
  lemma SortByIdempotent<T>(s: seq<T>, key: T -> int)
    ensures SortBy(SortBy(s, key), key) == SortBy(s, key)
  {
    SortBySorted(SortBy(s, key), key);
  }

  /** Bucketing distributes over concatenation. */
  lemma {:induction false} HavingConcat<T, K>(a: seq<T>, b: seq<T>, key: T -> K, k: K)
    ensures Having(a + b, key, k) == Having(a, key, k) + Having(b, key, k)
    decreases |b|
  {
    if b == [] {
      assert a + b == a;
    } else {
      var init := b[..|b| - 1];
      assert (a + b)[..|a + b| - 1] == a + init;
      HavingConcat(a, init, key, k);
    }
  }

  lemma {:induction false} HavingNone<T(!new), K>(s: seq<T>, key: T -> K, k: K)
    requires forall i :: 0 <= i < |s| ==> key(s[i]) != k
    ensures Having(s, key, k) == []
  {
    HavingSpec(s, key, k);
    if Having(s, key, k) != [] {
      var x := Having(s, key, k)[0];
      assert x in multiset(Having(s, key, k));
      assert false;
    }
  }

  /** The bucket of a single element. */
  function Single<T, K(==)>(x: T, key: T -> K, k: K): seq<T> {
    if key(x) == k then [x] else []
  }

  lemma HavingSingle<T, K>(x: T, key: T -> K, k: K)
    ensures Having([x], key, k) == Single(x, key, k)
  {
    assert [x][..0] == [];
  }

  /** Inserting `x` puts it after every element with its key. */
  lemma {:induction false} HavingInsert<T(!new)>(x: T, s: seq<T>, key: T -> int, v: int)
    requires SortedBy(s, key)
    ensures Having(Insert(x, s, key), key, v) == Having(s, key, v) + Single(x, key, v)
    decreases |s|, 1
  {
    HavingSingle(x, key, v);
    if s == [] {
    } else if key(x) < key(s[0]) {
      HavingInsertFront(x, s, key, v);
    } else {
      HavingInsertAfter(x, s, key, v);
    }
  }

  lemma {:induction false} HavingInsertAfter<T(!new)>(x: T, s: seq<T>, key: T -> int, v: int)
    requires SortedBy(s, key) && s != [] && key(s[0]) <= key(x)
    ensures Having(Insert(x, s, key), key, v) == Having(s, key, v) + Single(x, key, v)
    decreases |s|, 0
  {
    var t := s[1..];
    InsertAfter(x, s, key);
    var r := Insert(x, t, key);
    assert s == [s[0]] + t;
    HavingCons(s[0], r, key, v);
    HavingInsert(x, t, key, v);
    HavingCons(s[0], t, key, v);
    AppendRegroup(Having([s[0]] + r, key, v), Single(s[0], key, v), Having(r, key, v),
                  Having(t, key, v), Single(x, key, v), Having(s, key, v));
  }

  lemma AppendRegroup<T>(whole: seq<T>, a: seq<T>, rest: seq<T>, mid: seq<T>, b: seq<T>, front: seq<T>)
    requires whole == a + rest && rest == mid + b && front == a + mid
    ensures whole == front + b
  {
  }

  lemma InsertAfter<T>(x: T, s: seq<T>, key: T -> int)
    requires SortedBy(s, key) && s != [] && key(s[0]) <= key(x)
    ensures SortedBy(s[1..], key) && Insert(x, s, key) == [s[0]] + Insert(x, s[1..], key)
  {
    SortedTail(s, key);
  }

  lemma HavingCons<T, K>(y: T, s: seq<T>, key: T -> K, k: K)
    ensures Having([y] + s, key, k) == Single(y, key, k) + Having(s, key, k)
  {
    HavingConcat([y], s, key, k);
    HavingSingle(y, key, k);
  }

  lemma HavingInsertFront<T(!new)>(x: T, s: seq<T>, key: T -> int, v: int)
    requires SortedBy(s, key) && s != [] && key(x) < key(s[0])
    ensures Having([x] + s, key, v) == Having(s, key, v) + Single(x, key, v)
  {
    HavingConcat([x], s, key, v);
    HavingSingle(x, key, v);
    if key(x) == v {
      HavingNone(s, key, v);
    }
  }

  /**
   * The sort is stable: for every key value, the elements carrying it appear
   * in the same order as in `s`.
   */
  lemma {:induction false} SortByStable<T(!new)>(s: seq<T>, key: T -> int, v: int)
    ensures Having(SortBy(s, key), key, v) == Having(s, key, v)
  {
    if s != [] {
      var init := s[..|s| - 1];
      SortByStable(init, key, v);
      HavingInsert(s[|s| - 1], SortBy(init, key), key, v);
    }
  }

  /** Concatenation regrouped to the right. */
  lemma Regroup<T>(w: seq<T>, x: seq<T>, y: seq<T>, z: seq<T>)
    ensures w + x + y + z == w + (x + y + z)
  {
  }

  /** Left-to-right sum of `f` over `s` (what `reduce((sum, x) => sum + f(x), 0)` computes). */
  function SumBy<T>(s: seq<T>, f: T -> int): int
  {
    if s == [] then 0 else SumBy(s[..|s| - 1], f) + f(s[|s| - 1])
  }

  lemma {:induction false} SumByConcat<T>(a: seq<T>, b: seq<T>, f: T -> int)
    ensures SumBy(a + b, f) == SumBy(a, f) + SumBy(b, f)
  {
    if b != [] {
      assert (a + b)[..|a + b| - 1] == a + b[..|b| - 1];
      SumByConcat(a, b[..|b| - 1], f);
    } else {
      assert a + b == a;
    }
  }

  /** A sum does not depend on the order of its terms. */
  lemma {:induction false} SumByPermutation<T>(a: seq<T>, b: seq<T>, f: T -> int)
    requires multiset(a) == multiset(b)
    ensures SumBy(a, f) == SumBy(b, f)
    decreases |a|
  {
    if a == [] {
      assert |b| == |multiset(b)| == 0;
    } else {
      var x := a[|a| - 1];
      assert a == a[..|a| - 1] + [x];
      assert x in multiset(b);
      var j :| 0 <= j < |b| && b[j] == x;
      var rest := b[..j] + b[j + 1..];
      assert b == b[..j] + [x] + b[j + 1..];
      assert multiset(b) == multiset(rest) + multiset{x};
      assert multiset(a) == multiset(a[..|a| - 1]) + multiset{x};
      assert multiset(a[..|a| - 1]) == multiset(a) - multiset{x} == multiset(rest);
      SumByPermutation(a[..|a| - 1], rest, f);
      SumByConcat(b[..j] + [x], b[j + 1..], f);
      SumByConcat(b[..j], [x], f);
      SumByConcat(b[..j], b[j + 1..], f);
    }
  }

  /** No two elements of `s` share a key. */
  predicate KeysDistinct<T, K(==)>(s: seq<T>, key: T -> K) {
    forall i, j :: 0 <= i < j < |s| ==> key(s[i]) != key(s[j])
  }

  lemma {:induction false} KeysDistinctOnce<T, K>(s: seq<T>, key: T -> K, x: T)
    requires KeysDistinct(s, key)
    ensures multiset(s)[x] <= 1
  {
    if s != [] {
      var init := s[..|s| - 1];
      assert KeysDistinct(init, key);
      KeysDistinctOnce(init, key, x);
      assert s == init + [s[|s| - 1]];
    }
  }

  /** Reordering keeps the keys distinct. */
  lemma KeysDistinctPermutation<T, K>(a: seq<T>, b: seq<T>, key: T -> K)
    requires multiset(a) == multiset(b) && KeysDistinct(a, key)
    ensures KeysDistinct(b, key)
  {
    forall i, j | 0 <= i < j < |b|
      ensures key(b[i]) != key(b[j])
    {
      if key(b[i]) == key(b[j]) {
        assert b[i] in multiset(a) && b[j] in multiset(a);
        var p :| 0 <= p < |a| && a[p] == b[i];
        var q :| 0 <= q < |a| && a[q] == b[j];
        assert p == q;
        var x := b[i];
        assert b == b[..j] + [x] + b[j + 1..];
        assert b[..j][i] == x;
        assert multiset(b)[x] >= 2;
        KeysDistinctOnce(a, key, x);
        assert false;
      }
    }
  }

  /** `idx` picks, in increasing positions of `b`, the elements of `a`. */
  predicate IsEmbedding<T(==)>(idx: seq<int>, a: seq<T>, b: seq<T>) {
    && |idx| == |a|
    && (forall i :: 0 <= i < |idx| ==> 0 <= idx[i] < |b| && a[i] == b[idx[i]])
    && (forall i, j :: 0 <= i < j < |idx| ==> idx[i] < idx[j])
  }

  /** `a` is `b` with some elements deleted, the rest kept in order. */
  ghost predicate SubsequenceOf<T>(a: seq<T>, b: seq<T>) {
    exists idx :: IsEmbedding(idx, a, b)
  }
}
