/**
 * The `Array.prototype` operations the data-cleaning functions chain together,
 * as functions on sequences: `filter`, `findIndex`/`find`, `slice(0, end)` and
 * the stable `sort` (ECMAScript 2019 on).
 */
module JsArray {

  import opened Wrappers

  /** `r` is `s` with some elements deleted, the rest kept in order. */
  predicate IsSubsequence<T(==)>(r: seq<T>, s: seq<T>)
    decreases |s|
  {
    if r == [] then true
    else if s == [] then false
    else if r[0] == s[0] then IsSubsequence(r[1..], s[1..])
    else IsSubsequence(r, s[1..])
  }

  /** `s.filter(p)`. */
  function Filter<T(==)>(s: seq<T>, p: T -> bool): (r: seq<T>)
    ensures |r| <= |s|
    ensures forall i :: 0 <= i < |r| ==> p(r[i])
    ensures forall x :: x in r ==> x in s && p(x)
  {
    if s == [] then []
    else
      var rest := Filter(s[1..], p);
      if p(s[0]) then [s[0]] + rest else rest
  }

  /** Filtering keeps every passing element exactly as often as it occurs, and no other. */
  lemma {:induction false} FilterCount<T>(s: seq<T>, p: T -> bool)
    ensures forall x :: multiset(Filter(s, p))[x] == if p(x) then multiset(s)[x] else 0
  {
    if s != [] {
      FilterCount(s[1..], p);
      assert s == [s[0]] + s[1..];
    }
  }

  /** Filtering deletes elements and keeps the order of the rest. */
  lemma {:induction false} FilterIsSubsequence<T>(s: seq<T>, p: T -> bool)
    ensures IsSubsequence(Filter(s, p), s)
  {
    if s != [] {
      FilterIsSubsequence(s[1..], p);
      var rest := Filter(s[1..], p);
      if p(s[0]) {
        assert ([s[0]] + rest)[1..] == rest;
      } else if rest != [] {
        assert p(rest[0]);
      }
    }
  }

  /** Membership in a filtered sequence. */
  lemma FilterMember<T>(s: seq<T>, p: T -> bool, x: T)
    ensures x in Filter(s, p) <==> x in s && p(x)
  {
    FilterCount(s, p);
    assert x in Filter(s, p) <==> multiset(Filter(s, p))[x] > 0;
    assert x in s <==> multiset(s)[x] > 0;
  }

  /** Filtering by two predicates that agree everywhere gives the same sequence. */
  lemma {:induction false} FilterExtensional<T>(s: seq<T>, p: T -> bool, q: T -> bool)
    requires forall x :: p(x) == q(x)
    ensures Filter(s, p) == Filter(s, q)
  {
    if s != [] {
      FilterExtensional(s[1..], p, q);
    }
  }

  /** A filter that every element passes returns the sequence itself. */
  lemma {:induction false} FilterKeepsAll<T>(s: seq<T>, p: T -> bool)
    requires forall i :: 0 <= i < |s| ==> p(s[i])
    ensures Filter(s, p) == s
  {
    if s != [] {
      FilterKeepsAll(s[1..], p);
      assert [s[0]] + s[1..] == s;
    }
  }

  /** The first element of a filtered sequence is the first element that passes. */
  lemma {:induction false} FilterHead<T>(s: seq<T>, p: T -> bool, k: nat)
    requires k < |s| && p(s[k])
    requires forall j :: 0 <= j < k ==> !p(s[j])
    ensures |Filter(s, p)| > 0 && Filter(s, p)[0] == s[k]
  {
    if k > 0 {
      FilterHead(s[1..], p, k - 1);
    }
  }

  /** `s.findIndex(p)`: the first index whose element passes, or -1. */
  function FindIndex<T>(s: seq<T>, p: T -> bool): (k: int)
    ensures -1 <= k < |s|
    ensures k == -1 <==> forall i :: 0 <= i < |s| ==> !p(s[i])
    ensures 0 <= k ==> p(s[k]) && forall i :: 0 <= i < k ==> !p(s[i])
  {
    if s == [] then -1
    else if p(s[0]) then 0
    else
      var k := FindIndex(s[1..], p);
      if k == -1 then -1 else k + 1
  }

  /** `s.find(p)`: the first element that passes, or `undefined`. */
  function Find<T>(s: seq<T>, p: T -> bool): (r: Option<T>)
    ensures r.None? <==> forall i :: 0 <= i < |s| ==> !p(s[i])
    ensures r.Some? ==> exists k :: 0 <= k < |s| && s[k] == r.value && p(s[k]) &&
                                   forall j :: 0 <= j < k ==> !p(s[j])
  {
    var k := FindIndex(s, p);
    if k == -1 then None else Some(s[k])
  }

  /** The length of `s.slice(0, end)` for an array of length n; a negative end counts from the back. */
  function SliceLength(n: nat, end: int): nat {
    if end >= 0 then (if end <= n then end else n)
    else if n + end >= 0 then n + end else 0
  }

  /** `s.slice(0, end)`. */
  function SliceTo<T>(s: seq<T>, end: int): (r: seq<T>)
    ensures |r| == SliceLength(|s|, end)
    ensures r == s[..|r|]
    ensures 0 <= end ==> |r| == if end < |s| then end else |s|
  {
    s[..SliceLength(|s|, end)]
  }

  /** `key` orders `s` ascending. */
  predicate SortedBy<T>(s: seq<T>, key: T -> real) {
    forall i, j :: 0 <= i < j < |s| ==> key(s[i]) <= key(s[j])
  }

  /** Inserts x before the first element whose key is not smaller; x goes ahead of its equals. */
  function InsertBy<T(==)>(x: T, s: seq<T>, key: T -> real): (r: seq<T>)
    ensures multiset(r) == multiset(s) + multiset{x}
    ensures |r| == |s| + 1
  {
    if s == [] || key(x) <= key(s[0]) then [x] + s
    else
      assert s == [s[0]] + s[1..];
      [s[0]] + InsertBy(x, s[1..], key)
  }

  /** Every element of the insertion into the tail of s, other than x, comes from that tail. */
  lemma InsertByFromTail<T>(x: T, s: seq<T>, key: T -> real, i: nat)
    requires |s| > 0 && i < |InsertBy(x, s[1..], key)|
    ensures var rest := InsertBy(x, s[1..], key);
            rest[i] == x || exists j :: 1 <= j < |s| && s[j] == rest[i]
  {
    var rest := InsertBy(x, s[1..], key);
    assert rest[i] in multiset(rest);
    if rest[i] != x {
      assert rest[i] in multiset(s[1..]);
      var j :| 0 <= j < |s[1..]| && s[1..][j] == rest[i];
      assert s[j + 1] == rest[i];
    }
  }

  /** Inserting into a sorted sequence keeps it sorted. */
  lemma {:induction false} InsertBySorted<T>(x: T, s: seq<T>, key: T -> real)
    requires SortedBy(s, key)
    ensures SortedBy(InsertBy(x, s, key), key)
  {
    if s == [] || key(x) <= key(s[0]) {
      assert forall j :: 0 <= j < |s| ==> key(s[0]) <= key(s[j]);
    } else {
      InsertBySorted(x, s[1..], key);
      var rest := InsertBy(x, s[1..], key);
      forall i | 0 <= i < |rest| ensures key(s[0]) <= key(rest[i]) {
        InsertByFromTail(x, s, key, i);
      }
      var r := [s[0]] + rest;
      forall i, j | 0 <= i < j < |r| ensures key(r[i]) <= key(r[j]) {
        if i > 0 {
          assert r[i] == rest[i - 1] && r[j] == rest[j - 1];
        } else {
          assert r[j] == rest[j - 1];
        }
      }
    }
  }

  /**
   * `s.sort((a, b) => key(a) - key(b))`: a stable insertion sort, ascending by key.
   * A comparator `b.e - a.e` is the key `-e`.
   */
  function SortBy<T(==)>(s: seq<T>, key: T -> real): (r: seq<T>)
    ensures multiset(r) == multiset(s)
    ensures |r| == |s|
    ensures SortedBy(r, key)
  {
    if s == [] then []
    else
      assert s == [s[0]] + s[1..];
      InsertBySorted(s[0], SortBy(s[1..], key), key);
      InsertBy(s[0], SortBy(s[1..], key), key)
  }

  /** Sorting keeps exactly the elements it was given. */
  lemma SortByMembers<T>(s: seq<T>, key: T -> real)
    ensures forall x :: x in SortBy(s, key) <==> x in s
  {
    forall x ensures x in SortBy(s, key) <==> x in s {
      assert x in SortBy(s, key) <==> multiset(SortBy(s, key))[x] > 0;
      assert x in s <==> multiset(s)[x] > 0;
    }
  }

  /** A one-element array is already sorted. */
  lemma SortBySingleton<T>(x: T, key: T -> real)
    ensures SortBy([x], key) == [x]
  {
    assert [x][1..] == [];
  }

  lemma {:induction false} FilterInsertBy<T>(x: T, s: seq<T>, key: T -> real, p: T -> bool)
    requires forall y, z :: p(y) && p(z) ==> key(y) == key(z)
    ensures Filter(InsertBy(x, s, key), p) == Filter([x] + s, p)
  {
    if s == [] || key(x) <= key(s[0]) {
    } else {
      FilterInsertBy(x, s[1..], key, p);
      assert ([x] + s)[1..] == s;
      assert ([x] + s[1..])[1..] == s[1..];
      if p(x) {
        assert !p(s[0]);
      }
    }
  }

  /**
   * The sort is stable: among elements that share one key, in particular any
   * class the predicate p picks out, the input order is kept.
   */
  lemma {:induction false} SortByStable<T>(s: seq<T>, key: T -> real, p: T -> bool)
    requires forall y, z :: p(y) && p(z) ==> key(y) == key(z)
    ensures Filter(SortBy(s, key), p) == Filter(s, p)
  {
    if s != [] {
      SortByStable(s[1..], key, p);
      FilterInsertBy(s[0], SortBy(s[1..], key), key, p);
      assert ([s[0]] + SortBy(s[1..], key))[1..] == SortBy(s[1..], key);
    }
  }

  /** Keys strictly increase along `s`. */
  predicate StrictlySortedBy<T>(s: seq<T>, key: T -> real) {
    forall i, j :: 0 <= i < j < |s| ==> key(s[i]) < key(s[j])
  }

  /** Inserting an element whose key is new into a strictly sorted sequence keeps it strictly sorted. */
  lemma {:induction false} InsertByStrict<T>(x: T, s: seq<T>, key: T -> real)
    requires StrictlySortedBy(s, key)
    requires forall i :: 0 <= i < |s| ==> key(s[i]) != key(x)
    ensures StrictlySortedBy(InsertBy(x, s, key), key)
  {
    if s == [] || key(x) <= key(s[0]) {
      assert forall j :: 0 <= j < |s| ==> key(s[0]) <= key(s[j]);
    } else {
      InsertByStrict(x, s[1..], key);
      var rest := InsertBy(x, s[1..], key);
      forall i | 0 <= i < |rest| ensures key(s[0]) < key(rest[i]) {
        InsertByFromTail(x, s, key, i);
      }
      var r := [s[0]] + rest;
      assert InsertBy(x, s, key) == r;
      forall i, j | 0 <= i < j < |r| ensures key(r[i]) < key(r[j]) {
        if i > 0 {
          assert r[i] == rest[i - 1] && r[j] == rest[j - 1];
        } else {
          assert r[j] == rest[j - 1];
        }
      }
    }
  }

  /** Sorting elements with pairwise different keys orders them strictly. */
  lemma {:induction false} SortByDistinctKeys<T>(s: seq<T>, key: T -> real)
    requires forall i, j :: 0 <= i < j < |s| ==> key(s[i]) != key(s[j])
    ensures StrictlySortedBy(SortBy(s, key), key)
  {
    if s != [] {
      SortByDistinctKeys(s[1..], key);
      var tail := SortBy(s[1..], key);
      forall i | 0 <= i < |tail| ensures key(tail[i]) != key(s[0]) {
        assert tail[i] in multiset(s[1..]);
        var j :| 0 <= j < |s[1..]| && s[1..][j] == tail[i];
        assert s[j + 1] == tail[i];
      }
      InsertByStrict(s[0], tail, key);
    }
  }

  /** Sorting an already sorted sequence returns it unchanged. */
  lemma {:induction false} SortBySorted<T>(s: seq<T>, key: T -> real)
    requires SortedBy(s, key)
    ensures SortBy(s, key) == s
  {
    if s != [] {
      SortBySorted(s[1..], key);
      assert [s[0]] + s[1..] == s;
    }
  }

  /** In a sorted sequence, an element keyed strictly below the n-th one lies in the first n. */
  lemma SortedPrefixHoldsSmaller<T>(sorted: seq<T>, key: T -> real, n: nat)
    requires SortedBy(sorted, key) && 0 < n <= |sorted|
    ensures forall x :: x in sorted && key(x) < key(sorted[n - 1]) ==> x in sorted[..n]
  {
    forall x | x in sorted && key(x) < key(sorted[n - 1]) ensures x in sorted[..n] {
      var j :| 0 <= j < |sorted| && sorted[j] == x;
      assert j < n;
      assert sorted[..n][j] == x;
    }
  }

  /** Facts about a prefix of a sorted permutation of s. */
  lemma SortedPrefixFacts<T>(s: seq<T>, sorted: seq<T>, key: T -> real, n: nat)
    requires multiset(sorted) == multiset(s) && SortedBy(sorted, key) && n <= |sorted|
    ensures SortedBy(sorted[..n], key)
    ensures multiset(sorted[..n]) <= multiset(s)
    ensures forall x :: x in s && n > 0 && key(x) < key(sorted[n - 1]) ==> x in sorted[..n]
  {
    assert sorted == sorted[..n] + sorted[n..];
    assert multiset(sorted) == multiset(sorted[..n]) + multiset(sorted[n..]);
    if n > 0 {
      SortedPrefixHoldsSmaller(sorted, key, n);
      forall x | x in s ensures x in sorted {
        assert multiset(s)[x] > 0;
      }
    }
  }

  /**
   * `s.sort(by key).slice(0, limit)`: the ranking prefix. It is sorted, drawn
   * from s, and no element left out ranks strictly ahead of the last one kept.
   */
  function TopBy<T(==)>(s: seq<T>, key: T -> real, limit: int): (r: seq<T>)
    ensures |r| == SliceLength(|s|, limit)
    ensures SortedBy(r, key)
    ensures multiset(r) <= multiset(s)
    ensures forall x :: x in s && |r| > 0 && key(x) < key(r[|r| - 1]) ==> x in r
  {
    var sorted := SortBy(s, key);
    SortedPrefixFacts(s, sorted, key, SliceLength(|s|, limit));
    SliceTo(sorted, limit)
  }

}
