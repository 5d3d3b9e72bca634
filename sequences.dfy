/** Generic sequence operations behind the stores and the views: JavaScript's
    `Array.filter`, lookup by key, grouping with counts, and "newest first, limit n". */
module Sequences {
  import opened Wrappers

  /** `s.filter(p)`: the elements satisfying `p`, in their original order. */
  function Filter<T>(p: T -> bool, s: seq<T>): (r: seq<T>)
    ensures |r| <= |s|
    ensures forall i :: 0 <= i < |r| ==> r[i] in s && p(r[i])
    ensures forall i :: 0 <= i < |s| ==> p(s[i]) ==> s[i] in r
  {
    if s == [] then [] else (if p(s[0]) then [s[0]] else []) + Filter(p, s[1..])
  }

  /** `a` is `b` with some elements dropped and the rest kept in order. */
  ghost predicate IsSubsequence<T>(a: seq<T>, b: seq<T>)
    decreases |b|
  {
    if a == [] then true
    else if b == [] then false
    else (a[0] == b[0] && IsSubsequence(a[1..], b[1..])) || IsSubsequence(a, b[1..])
  }

  /** The result of a filter is an order-preserving subsequence of its input. */
  lemma {:induction false} FilterIsSubsequence<T>(p: T -> bool, s: seq<T>)
    ensures IsSubsequence(Filter(p, s), s)
    decreases |s|
  {
    if s != [] {
      FilterIsSubsequence(p, s[1..]);
      var r := Filter(p, s);
      if p(s[0]) {
        assert r == [s[0]] + Filter(p, s[1..]);
        assert r[1..] == Filter(p, s[1..]);
      } else {
        assert r == Filter(p, s[1..]);
      }
    }
  }

  /** A filter keeps every copy of a kept element and no copy of a dropped one. */
  lemma {:induction false} FilterMultiplicity<T>(p: T -> bool, s: seq<T>, x: T)
    ensures multiset(Filter(p, s))[x] == if p(x) then multiset(s)[x] else 0
    decreases |s|
  {
    if s != [] {
      FilterMultiplicity(p, s[1..], x);
      assert s == [s[0]] + s[1..];
      assert multiset(s) == multiset([s[0]]) + multiset(s[1..]);
      var head := if p(s[0]) then [s[0]] else [];
      assert multiset(Filter(p, s)) == multiset(head) + multiset(Filter(p, s[1..]));
    }
  }

  /** Filtering a second time with the same test changes nothing. */
  lemma {:induction false} FilterIdempotent<T>(p: T -> bool, s: seq<T>)
    ensures Filter(p, Filter(p, s)) == Filter(p, s)
    decreases |s|
  {
    if s != [] {
      FilterIdempotent(p, s[1..]);
      if p(s[0]) {
        var r := Filter(p, s);
        assert r == [s[0]] + Filter(p, s[1..]);
        assert r[1..] == Filter(p, s[1..]);
        assert Filter(p, r) == [r[0]] + Filter(p, r[1..]);
      } else {
        assert Filter(p, s) == Filter(p, s[1..]);
      }
    }
  }

  /** A test every element passes keeps the whole sequence. */
  lemma {:induction false} FilterKeepsAll<T>(p: T -> bool, s: seq<T>)
    requires forall i :: 0 <= i < |s| ==> p(s[i])
    ensures Filter(p, s) == s
    decreases |s|
  {
    if s != [] {
      FilterKeepsAll(p, s[1..]);
      assert s == [s[0]] + s[1..];
    }
  }

  /** Two tests that agree on every element of `s` filter it identically. */
  lemma {:induction false} FilterCongruent<T>(p: T -> bool, q: T -> bool, s: seq<T>)
    requires forall i :: 0 <= i < |s| ==> p(s[i]) == q(s[i])
    ensures Filter(p, s) == Filter(q, s)
    decreases |s|
  {
    if s != [] {
      FilterCongruent(p, q, s[1..]);
    }
  }

  /** A test implied by another keeps at least as many elements. */
  lemma {:induction false} FilterWeaker<T>(p: T -> bool, q: T -> bool, s: seq<T>)
    requires forall i :: 0 <= i < |s| ==> p(s[i]) ==> q(s[i])
    ensures |Filter(p, s)| <= |Filter(q, s)|
    decreases |s|
  {
    if s != [] {
      FilterWeaker(p, q, s[1..]);
    }
  }

  /** No two elements of `s` share a key: a unique index over `s`. */
  predicate UniqueBy<T, K(==)>(s: seq<T>, key: T -> K)
  {
    forall i, j :: 0 <= i < j < |s| ==> key(s[i]) != key(s[j])
  }

  /** The index of the first element satisfying `p`, as `findById` finds the one document with an id. */
  function FindFirst<T>(p: T -> bool, s: seq<T>): (r: Option<nat>)
    ensures r.Some? ==> r.value < |s| && p(s[r.value])
    ensures r.Some? ==> forall j :: 0 <= j < r.value ==> !p(s[j])
    ensures r.None? <==> forall j :: 0 <= j < |s| ==> !p(s[j])
  {
    if s == [] then None
    else if p(s[0]) then Some(0)
    else match FindFirst(p, s[1..])
      case None => None
      case Some(i) => Some(i + 1)
  }

  /** A group of the `$group` aggregation stage: a key and how many elements carry it. */
  datatype Bucket<K> = Bucket(key: K, count: nat)

  /** The sum of the counts of a list of groups. */
  function TotalCount<K>(g: seq<Bucket<K>>): nat
  {
    if g == [] then 0 else g[0].count + TotalCount(g[1..])
  }

  /** No two groups share a key. */
  predicate DistinctKeys<K(==)>(g: seq<Bucket<K>>)
  {
    forall i, j :: 0 <= i < j < |g| ==> g[i].key != g[j].key
  }

  /** The total after appending a group grows by that group's count. */
  lemma {:induction false} TotalCountAppend<K>(g: seq<Bucket<K>>, b: Bucket<K>)
    ensures TotalCount(g + [b]) == TotalCount(g) + b.count
    decreases |g|
  {
    if g != [] {
      assert (g + [b])[1..] == g[1..] + [b];
      TotalCountAppend(g[1..], b);
    }
  }

  /** The total after replacing one group changes by the difference of the two counts. */
  lemma {:induction false} TotalCountUpdate<K>(g: seq<Bucket<K>>, i: nat, b: Bucket<K>)
    requires i < |g|
    ensures TotalCount(g[i := b]) + g[i].count == TotalCount(g) + b.count
    decreases |g|
  {
    if i > 0 {
      assert g[i := b][1..] == g[1..][i - 1 := b];
      TotalCountUpdate(g[1..], i - 1, b);
    }
  }

  /** Counts one more element with key `k`: bumps its group, or opens a new group at the end. */
  function AddOne<K(==)>(g: seq<Bucket<K>>, k: K): (r: seq<Bucket<K>>)
    requires DistinctKeys(g)
    ensures DistinctKeys(r)
    ensures TotalCount(r) == TotalCount(g) + 1
    ensures |g| <= |r| <= |g| + 1
    ensures forall i :: 0 <= i < |g| ==> r[i] == if g[i].key == k then Bucket(k, g[i].count + 1) else g[i]
    ensures |r| == |g| + 1 <==> forall i :: 0 <= i < |g| ==> g[i].key != k
    ensures |r| == |g| + 1 ==> r[|g|] == Bucket(k, 1)
  {
    match FindFirst((b: Bucket<K>) => b.key == k, g)
    case Some(i) =>
      TotalCountUpdate(g, i, Bucket(k, g[i].count + 1));
      g[i := Bucket(k, g[i].count + 1)]
    case None =>
      TotalCountAppend(g, Bucket(k, 1));
      g + [Bucket(k, 1)]
  }

  /** Groups a sequence of keys, counting the elements of each group; groups appear in order of
      their key's first occurrence. */
  function GroupCount<K(==)>(s: seq<K>): (g: seq<Bucket<K>>)
    ensures DistinctKeys(g)
    ensures TotalCount(g) == |s|
  {
    if s == [] then [] else AddOne(GroupCount(s[..|s| - 1]), s[|s| - 1])
  }

  /** `GroupCount` has one group per distinct key, and each group counts exactly the elements with its key. */
  lemma {:induction false} GroupCountCorrect<K>(s: seq<K>)
    ensures forall i :: 0 <= i < |GroupCount(s)| ==>
      GroupCount(s)[i].count == multiset(s)[GroupCount(s)[i].key] > 0
    ensures forall x :: x in s ==> exists i :: 0 <= i < |GroupCount(s)| && GroupCount(s)[i].key == x
    decreases |s|
  {
    if s != [] {
      var init, k := s[..|s| - 1], s[|s| - 1];
      assert s == init + [k];
      GroupCountCorrect(init);
      var g := GroupCount(init);
      var r := GroupCount(s);
      assert r == AddOne(g, k);
      assert multiset(s) == multiset(init) + multiset{k};
      if |r| == |g| + 1 {
        assert k !in init;
      }
      forall x | x in s
        ensures exists i :: 0 <= i < |r| && r[i].key == x
      {
        if x in init {
          var i :| 0 <= i < |g| && g[i].key == x;
          assert r[i].key == x;
        } else {
          assert forall i :: 0 <= i < |g| ==> g[i].key in multiset(init);
          assert r[|g|].key == x;
        }
      }
    }
  }

  /** `s` is ordered newest first by the timestamp `key`. */
  predicate NewestFirst<T>(s: seq<T>, key: T -> int)
  {
    forall i, j :: 0 <= i < j < |s| ==> key(s[i]) >= key(s[j])
  }

  /** Inserts `x` into a newest-first sequence in front of the first element no newer than it. */
  function InsertByKey<T>(x: T, s: seq<T>, key: T -> int): (r: seq<T>)
    requires NewestFirst(s, key)
    ensures NewestFirst(r, key)
    ensures |r| == |s| + 1
    ensures r[0] == x || (s != [] && r[0] == s[0])
    ensures multiset(r) == multiset(s) + multiset{x}
  {
    if s == [] then [x]
    else if key(x) >= key(s[0]) then [x] + s
    else
      assert s == [s[0]] + s[1..];
      [s[0]] + InsertByKey(x, s[1..], key)
  }

  /** `sort({createdAt: -1})`: the same elements, newest first. */
  function SortNewestFirst<T>(s: seq<T>, key: T -> int): (r: seq<T>)
    ensures NewestFirst(r, key)
    ensures multiset(r) == multiset(s)
  {
    if s == [] then []
    else
      assert s == [s[0]] + s[1..];
      InsertByKey(s[0], SortNewestFirst(s[1..], key), key)
  }

  /** `sort({createdAt: -1}).limit(n)`. */
  function Newest<T>(s: seq<T>, n: nat, key: T -> int): seq<T>
  {
    var sorted := SortNewestFirst(s, key);
    sorted[..if n < |sorted| then n else |sorted|]
  }

  /** The newest `n` are at most `n` elements of `s`, newest first, and every element left out
      is no newer than any element kept. */
  lemma NewestCorrect<T>(s: seq<T>, n: nat, key: T -> int)
    ensures |Newest(s, n, key)| == if n < |s| then n else |s|
    ensures NewestFirst(Newest(s, n, key), key)
    ensures multiset(Newest(s, n, key)) <= multiset(s)
    ensures forall x, y :: x in s && multiset(Newest(s, n, key))[x] < multiset(s)[x] && y in Newest(s, n, key) ==>
      key(x) <= key(y)
  {
    var sorted := SortNewestFirst(s, key);
    var m := if n < |sorted| then n else |sorted|;
    assert |sorted| == |multiset(sorted)| == |s|;
    PrefixIsNewest(sorted, m, key);
  }

  /** A prefix of a newest-first sequence is newest first, is contained in it, and nothing outside
      the prefix is newer than anything in it. */
  lemma PrefixIsNewest<T>(sorted: seq<T>, m: nat, key: T -> int)
    requires NewestFirst(sorted, key) && m <= |sorted|
    ensures NewestFirst(sorted[..m], key)
    ensures multiset(sorted[..m]) <= multiset(sorted)
    ensures forall x, y :: multiset(sorted[..m])[x] < multiset(sorted)[x] && y in sorted[..m] ==> key(x) <= key(y)
  {
    var r, rest := sorted[..m], sorted[m..];
    assert sorted == r + rest;
    assert multiset(sorted) == multiset(r) + multiset(rest);
    forall x, y | multiset(r)[x] < multiset(sorted)[x] && y in r
      ensures key(x) <= key(y)
    {
      assert x in multiset(rest);
      var j :| 0 <= j < |rest| && rest[j] == x;
      var i :| 0 <= i < |r| && r[i] == y;
      assert sorted[i] == y && sorted[m + j] == x;
    }
  }
}
