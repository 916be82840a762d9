/** Order-preserving filtering, first-match search and sorting by an integer
    key: the query operations (`filter`, `first`, `order_by`, slicing) that the
    ORM performs on a table, stated over sequences. */
module Sequences {
  import opened Wrappers

  /** The elements of `s` that satisfy `p`, in their original order. */
  function Filter<T(!new)>(s: seq<T>, p: T -> bool): (r: seq<T>)
    ensures |r| <= |s|
    ensures forall i :: 0 <= i < |r| ==> p(r[i])
  {
    if |s| == 0 then []
    else if p(s[0]) then [s[0]] + Filter(s[1..], p) else Filter(s[1..], p)
  }

  /** Filtering keeps every satisfying element as often as it occurs and
      drops every other one: the result is the sub-multiset cut out by `p`. */
  lemma {:induction false} FilterCounts<T(!new)>(s: seq<T>, p: T -> bool)
    ensures forall x :: multiset(Filter(s, p))[x] == if p(x) then multiset(s)[x] else 0
  {
    if |s| > 0 {
      FilterCounts(s[1..], p);
      assert s == [s[0]] + s[1..];
    }
  }

  /** Filtering a sequence extended by one element filters the prefix and then
      keeps or drops the new element; this is what a loop over the sequence
      needs to build the filtered result step by step. */
  lemma {:induction false} FilterSnoc<T(!new)>(s: seq<T>, x: T, p: T -> bool)
    ensures Filter(s + [x], p) == Filter(s, p) + (if p(x) then [x] else [])
  {
    if |s| == 0 {
      assert s + [x] == [x];
    } else {
      assert (s + [x])[1..] == s[1..] + [x];
      assert (s + [x])[0] == s[0];
      FilterSnoc(s[1..], x, p);
    }
  }

  /** Filtering keeps membership exactly: an element is in the result iff it
      is in the input and satisfies the predicate. */
  lemma FilterMembership<T(!new)>(s: seq<T>, p: T -> bool, x: T)
    ensures x in Filter(s, p) <==> x in s && p(x)
  {
    FilterCounts(s, p);
    assert x in Filter(s, p) <==> multiset(Filter(s, p))[x] > 0;
    assert x in s <==> multiset(s)[x] > 0;
  }

  /** `FilterMembership` for every element at once. */
  lemma FilterMembershipAll<T(!new)>(s: seq<T>, p: T -> bool)
    ensures forall x :: x in Filter(s, p) <==> x in s && p(x)
  {
    forall x ensures x in Filter(s, p) <==> x in s && p(x) {
      FilterMembership(s, p, x);
    }
  }

  /** `s` cut at the first occurrence of `c`: the part before it and the
      part after it (Python's `s.split(c, 1)` when `c` occurs). */
  function SplitAtFirst<T(==)>(s: seq<T>, c: T): (r: Option<(seq<T>, seq<T>)>)
    ensures r.None? <==> c !in s
    ensures r.Some? ==> c !in r.value.0 && s == r.value.0 + [c] + r.value.1
  {
    if |s| == 0 then None
    else if s[0] == c then Some(([], s[1..]))
    else
      match SplitAtFirst(s[1..], c)
      case None => None
      case Some(parts) =>
        assert s == [s[0]] + s[1..];
        Some(([s[0]] + parts.0, parts.1))
  }

  /** Joining two parts with a separator the first part lacks and cutting
      at the first separator gives the parts back. */
  lemma {:induction false} SplitAtFirstOfJoin<T>(a: seq<T>, c: T, b: seq<T>)
    requires c !in a
    ensures SplitAtFirst(a + [c] + b, c) == Some((a, b))
  {
    var s := a + [c] + b;
    if |a| == 0 {
      assert s == [c] + b;
    } else {
      assert s[0] == a[0];
      assert s[1..] == a[1..] + [c] + b;
      SplitAtFirstOfJoin(a[1..], c, b);
      assert [a[0]] + a[1..] == a;
    }
  }

  /** The first element of `s` that satisfies `p`, if any (the ORM's `.first()`
      on a filtered query in primary-key order). */
  function FindFirst<T>(s: seq<T>, p: T -> bool): (r: Option<T>)
    ensures r.Some? ==> p(r.value) && r.value in s
    ensures r.Some? ==> exists i :: 0 <= i < |s| && s[i] == r.value && forall j :: 0 <= j < i ==> !p(s[j])
    ensures r.None? <==> forall i :: 0 <= i < |s| ==> !p(s[i])
  {
    if |s| == 0 then None
    else if p(s[0]) then Some(s[0])
    else
      var r := FindFirst(s[1..], p);
      assert r.Some? ==> exists i :: 0 <= i < |s| && s[i] == r.value && forall j :: 0 <= j < i ==> !p(s[j]) by {
        if r.Some? {
          var i :| 0 <= i < |s[1..]| && s[1..][i] == r.value && forall j :: 0 <= j < i ==> !p(s[1..][j]);
          assert s[i + 1] == r.value;
          assert forall j :: 0 <= j < i + 1 ==> !p(s[j]) by {
            forall j | 0 <= j < i + 1 ensures !p(s[j]) {
              if j > 0 { assert s[j] == s[1..][j - 1]; }
            }
          }
        }
      }
      assert r.None? <==> forall i :: 0 <= i < |s| ==> !p(s[i]) by {
        if r.None? {
          forall i | 0 <= i < |s| ensures !p(s[i]) {
            if i > 0 { assert s[i] == s[1..][i - 1]; }
          }
        }
      }
      r
  }

  /** `s` is in non-decreasing order of `key`. */
  ghost predicate SortedBy<T>(s: seq<T>, key: T -> int) {
    forall i, j :: 0 <= i < j < |s| ==> key(s[i]) <= key(s[j])
  }

  /** Inserts `x` into the sorted sequence `s` before the first element whose
      key is not smaller. */
  function InsertBy<T>(x: T, s: seq<T>, key: T -> int): (r: seq<T>)
    requires SortedBy(s, key)
    ensures SortedBy(r, key)
    ensures multiset(r) == multiset(s) + multiset{x}
    ensures |r| == |s| + 1 && (r[0] == x || (|s| > 0 && r[0] == s[0]))
  {
    if |s| == 0 then [x]
    else if key(x) <= key(s[0]) then [x] + s
    else
      assert s == [s[0]] + s[1..];
      var t := InsertBy(x, s[1..], key);
      assert key(s[0]) <= key(t[0]);
      [s[0]] + t
  }

  /** `s` rearranged into non-decreasing order of `key` (insertion sort). */
  function SortBy<T>(s: seq<T>, key: T -> int): (r: seq<T>)
    ensures SortedBy(r, key)
    ensures multiset(r) == multiset(s)
    ensures |r| == |s|
  {
    if |s| == 0 then []
    else
      assert s == [s[0]] + s[1..];
      InsertBy(s[0], SortBy(s[1..], key), key)
  }

  /** The first `n` elements of `s`, or all of them when there are fewer
      (Python's `s[:n]`). */
  function Take<T>(s: seq<T>, n: nat): (r: seq<T>)
    ensures |r| <= n && |r| <= |s|
    ensures |r| == n || r == s
    ensures forall i :: 0 <= i < |r| ==> r[i] == s[i]
  {
    if |s| <= n then s else s[..n]
  }

  /** The predicate "`key` of the element equals `k`". */
  function KeyIs<T, K(==)>(key: T -> K, k: K): T -> bool {
    x => key(x) == k
  }

  /** The predicate "`key` of the element differs from `k`". */
  function KeyIsNot<T, K(==)>(key: T -> K, k: K): T -> bool {
    x => key(x) != k
  }

  /** No element occurs twice and no two elements share a `key`: the
      sequence-of-rows reading of a uniqueness constraint. */
  ghost predicate UniqueBy<T(!new), K>(s: seq<T>, key: T -> K) {
    && (forall x :: multiset(s)[x] <= 1)
    && (forall a, b :: a in s && b in s && key(a) == key(b) ==> a == b)
  }

  lemma FilterKeepsUnique<T(!new), K>(s: seq<T>, p: T -> bool, key: T -> K)
    requires UniqueBy(s, key)
    ensures UniqueBy(Filter(s, p), key)
  {
    var r := Filter(s, p);
    FilterCounts(s, p);
    forall a, b | a in r && b in r && key(a) == key(b) ensures a == b {
      FilterMembership(s, p, a);
      FilterMembership(s, p, b);
    }
  }

  lemma AppendKeepsUnique<T(!new), K>(s: seq<T>, x: T, key: T -> K)
    requires UniqueBy(s, key)
    requires forall y :: y in s ==> key(y) != key(x)
    ensures UniqueBy(s + [x], key)
  {
    assert x !in s;
    assert multiset(s + [x]) == multiset(s) + multiset{x};
  }

  /** Appending an element whose key is already taken breaks uniqueness:
      either the element itself occurs twice or two elements share a key. */
  lemma AppendBreaksUnique<T(!new), K>(s: seq<T>, x: T, key: T -> K, y: T)
    requires y in s && key(y) == key(x)
    ensures !UniqueBy(s + [x], key)
  {
    assert multiset(s + [x]) == multiset(s) + multiset{x};
    if y == x {
      assert multiset(s + [x])[x] >= 2;
    } else {
      assert y in s + [x] && x in s + [x];
    }
  }

  /** In a sequence where an element occurs at most once, no later
      position holds it again. */
  lemma OccursOnceAt<T>(s: seq<T>, i: nat, j: nat)
    requires i < j < |s| && multiset(s)[s[i]] <= 1
    ensures s[i] != s[j]
  {
    var a, b := s[..j], s[j..];
    assert s == a + b;
    assert multiset(s) == multiset(a) + multiset(b);
    assert a[i] == s[i] && b[0] == s[j];
  }

  /** Distinct elements at distinct positions: every element occurs at
      most once. */
  lemma {:induction false} DistinctPositionsOccurOnce<T>(s: seq<T>)
    requires forall i, j :: 0 <= i < j < |s| ==> s[i] != s[j]
    ensures forall x :: multiset(s)[x] <= 1
  {
    if |s| > 0 {
      var t := s[1..];
      assert s == [s[0]] + t;
      forall i, j | 0 <= i < j < |t| ensures t[i] != t[j] {
        assert t[i] == s[i + 1] && t[j] == s[j + 1];
      }
      forall k | 0 <= k < |t| ensures t[k] != s[0] {
        assert t[k] == s[k + 1];
      }
      DistinctPositionsOccurOnce(t);
      assert multiset(s) == multiset{s[0]} + multiset(t);
    }
  }

  /** Replacing each element by one with the same key keeps a uniqueness
      constraint. */
  lemma SameKeysKeepUnique<T(!new), K>(s: seq<T>, r: seq<T>, key: T -> K)
    requires UniqueBy(s, key) && |r| == |s|
    requires forall i :: 0 <= i < |s| ==> key(r[i]) == key(s[i])
    ensures UniqueBy(r, key)
  {
    forall i, j | 0 <= i < j < |r| ensures key(r[i]) != key(r[j]) {
      OccursOnceAt(s, i, j);
      assert s[i] in s && s[j] in s;
    }
    DistinctPositionsOccurOnce(r);
    forall a, b | a in r && b in r && key(a) == key(b) ensures a == b {
      var i :| 0 <= i < |r| && r[i] == a;
      var j :| 0 <= j < |r| && r[j] == b;
      assert i == j;
    }
  }

  /** A sequence without repeated elements is as long as its set of
      elements. */
  lemma {:induction false} DistinctLength<T>(s: seq<T>)
    requires forall x :: multiset(s)[x] <= 1
    ensures |s| == |set x | x in s|
  {
    if |s| > 0 {
      var t := s[1..];
      assert s == [s[0]] + t;
      assert multiset(s) == multiset{s[0]} + multiset(t);
      forall x ensures multiset(t)[x] <= 1 {
        assert multiset(t)[x] <= multiset(s)[x];
      }
      assert multiset(t)[s[0]] == 0 by {
        assert multiset(s)[s[0]] == 1 + multiset(t)[s[0]];
      }
      DistinctLength(t);
      assert (set x | x in s) == {s[0]} + (set x | x in t);
    }
  }

  /** Under a uniqueness constraint at most one element carries a given key. */
  lemma {:induction false} AtMostOneWithKey<T(!new), K>(s: seq<T>, key: T -> K, k: K)
    requires UniqueBy(s, key)
    ensures |Filter(s, KeyIs(key, k))| <= 1
  {
    var r := Filter(s, KeyIs(key, k));
    FilterCounts(s, KeyIs(key, k));
    if |r| > 0 {
      forall i | 0 <= i < |r| ensures r[i] == r[0] {
        FilterMembership(s, KeyIs(key, k), r[i]);
        FilterMembership(s, KeyIs(key, k), r[0]);
      }
      CountOfConstant(r, r[0]);
    }
  }

  lemma {:induction false} CountOfConstant<T>(r: seq<T>, x: T)
    requires forall i :: 0 <= i < |r| ==> r[i] == x
    ensures multiset(r)[x] == |r|
  {
    if |r| > 0 {
      assert r == [r[0]] + r[1..];
      CountOfConstant(r[1..], x);
    }
  }

  /** The first element whose `key` is `k` (`.filter(key=k).first()`). */
  function FindByKey<T, K(==)>(s: seq<T>, key: T -> K, k: K): (r: Option<T>)
    ensures r.Some? ==> r.value in s && key(r.value) == k
    ensures r.None? <==> forall x :: x in s ==> key(x) != k
  {
    var r := FindFirst(s, KeyIs(key, k));
    assert forall i :: 0 <= i < |s| ==> (KeyIs(key, k)(s[i]) <==> key(s[i]) == k);
    r
  }

  /** The elements whose `key` is not `k`, in order (`.exclude(key=k)`, or
      what remains after `.filter(key=k).delete()`). */
  function RemoveByKey<T(!new), K(==)>(s: seq<T>, key: T -> K, k: K): (r: seq<T>)
    ensures forall x :: x in r <==> x in s && key(x) != k
    ensures forall x :: multiset(r)[x] == if key(x) != k then multiset(s)[x] else 0
  {
    var r := Filter(s, KeyIsNot(key, k));
    FilterCounts(s, KeyIsNot(key, k));
    assert forall x :: KeyIsNot(key, k)(x) == (key(x) != k);
    assert forall x :: x in r <==> x in s && key(x) != k by {
      forall x ensures x in r <==> x in s && key(x) != k {
        FilterMembership(s, KeyIsNot(key, k), x);
      }
    }
    r
  }

  lemma RemoveByKeyKeepsUnique<T(!new), K, K2>(s: seq<T>, key: T -> K, k: K, ukey: T -> K2)
    requires UniqueBy(s, ukey)
    ensures UniqueBy(RemoveByKey(s, key, k), ukey)
  {
    FilterKeepsUnique(s, KeyIsNot(key, k), ukey);
  }

  /** Filtering with a predicate every element satisfies changes nothing. */
  lemma {:induction false} FilterKeepsAll<T(!new)>(s: seq<T>, p: T -> bool)
    requires forall x :: x in s ==> p(x)
    ensures Filter(s, p) == s
  {
    if |s| > 0 {
      assert s[0] in s;
      assert forall x :: x in s[1..] ==> x in s;
      FilterKeepsAll(s[1..], p);
      assert s == [s[0]] + s[1..];
    }
  }

  /** The elements whose `key` is `k`, in order (`.filter(key=k)`). */
  function SelectByKey<T(!new), K(==)>(s: seq<T>, key: T -> K, k: K): (r: seq<T>)
    ensures forall x :: multiset(r)[x] == if key(x) == k then multiset(s)[x] else 0
    ensures forall i :: 0 <= i < |r| ==> key(r[i]) == k
  {
    var r := Filter(s, KeyIs(key, k));
    FilterCounts(s, KeyIs(key, k));
    assert forall x :: KeyIs(key, k)(x) == (key(x) == k);
    r
  }
  /** Appending one element adds one to the count of its key and leaves
      every other key's count alone. */
  lemma SelectAfterAppend<T(!new), K>(s: seq<T>, x: T, key: T -> K, k: K)
    ensures |SelectByKey(s + [x], key, k)| == |SelectByKey(s, key, k)| + (if key(x) == k then 1 else 0)
  {
    var a, b := SelectByKey(s, key, k), SelectByKey(s + [x], key, k);
    assert multiset(s + [x]) == multiset(s) + multiset{x};
    assert multiset(b) == multiset(a) + (if key(x) == k then multiset{x} else multiset{});
  }

  /** Removing the elements of a key none of which is selected leaves the
      selection's size alone. */
  lemma SelectAfterRemoveOther<T(!new), K, K2>(s: seq<T>, rkey: T -> K, rk: K, key: T -> K2, k: K2)
    requires forall y :: y in s && rkey(y) == rk ==> key(y) != k
    ensures |SelectByKey(RemoveByKey(s, rkey, rk), key, k)| == |SelectByKey(s, key, k)|
  {
    var a, b := SelectByKey(s, key, k), SelectByKey(RemoveByKey(s, rkey, rk), key, k);
    forall y ensures multiset(b)[y] == multiset(a)[y] {
      if y !in s {
        assert multiset(s)[y] == 0;
      }
    }
    assert multiset(b) == multiset(a);
  }

  /** Removing the one element of a unique key that is selected shrinks the
      selection by exactly one. */
  lemma SelectAfterRemoveOne<T(!new), K, K2>(s: seq<T>, rkey: T -> K, rk: K, key: T -> K2, k: K2, x0: T)
    requires UniqueBy(s, rkey) && x0 in s && rkey(x0) == rk && key(x0) == k
    ensures |SelectByKey(RemoveByKey(s, rkey, rk), key, k)| + 1 == |SelectByKey(s, key, k)|
  {
    var a, b := SelectByKey(s, key, k), SelectByKey(RemoveByKey(s, rkey, rk), key, k);
    assert multiset(s)[x0] == 1;
    forall y ensures multiset(a)[y] == (multiset(b) + multiset{x0})[y] {
      if rkey(y) == rk && y != x0 {
        assert y !in s;
        assert multiset(s)[y] == 0;
      }
    }
    assert multiset(a) == multiset(b) + multiset{x0};
  }

}
