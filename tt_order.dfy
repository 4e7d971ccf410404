/**
 * The orders and reference operations on sequences of pairs against which
 * the tree operations of src/TTNode.java are proved: the in-order sequence
 * of a correct tree is sorted, insertion puts a pair at its sorted place,
 * removal drops the pair with the given key, and a range search keeps the
 * values whose keys lie in the range.
 */
module TTOrder {
  import opened Wrappers
  import opened TTNodes

  /** The strict pair order of compareKVPair. */
  predicate Lt(p: Pair, q: Pair) {
    p.key < q.key || (p.key == q.key && p.val < q.val)
  }

  lemma LtIsCompare(p: Pair, q: Pair)
    ensures Lt(p, q) <==> ComparePairs(p, q) < 0
    ensures Le(p, q) <==> ComparePairs(p, q) <= 0
  {
  }

  /** Distinct pairs in increasing order. */
  predicate StrictlySorted(s: seq<Pair>) {
    forall i, j :: 0 <= i < j < |s| ==> Lt(s[i], s[j])
  }

  /** Pairs in non-decreasing key order. */
  predicate KeySorted(s: seq<Pair>) {
    forall i, j :: 0 <= i < j < |s| ==> s[i].key <= s[j].key
  }

  /** Strictly increasing keys: each key occurs at most once. */
  predicate StrictKeys(s: seq<Pair>) {
    forall i, j :: 0 <= i < j < |s| ==> s[i].key < s[j].key
  }

  // ---------------------------------------------------------------
  // Sorted insertion
  // ---------------------------------------------------------------

  /** s with p placed before the first element it does not exceed. */
  function InsertSorted(s: seq<Pair>, p: Pair): (r: seq<Pair>)
    ensures |r| == |s| + 1
  {
    if |s| == 0 then [p]
    else if Le(p, s[0]) then [p] + s
    else
      assert s == [s[0]] + s[1..];
      [s[0]] + InsertSorted(s[1..], p)
  }

  /** Insertion adds exactly the new pair. */
  lemma {:induction false} InsertSortedElements(s: seq<Pair>, p: Pair)
    ensures multiset(InsertSorted(s, p)) == multiset(s) + multiset{p}
  {
    if |s| > 0 && !Le(p, s[0]) {
      InsertSortedElements(s[1..], p);
      assert s == [s[0]] + s[1..];
    }
  }

  /** Inserting a new pair into a strictly sorted sequence keeps it strictly sorted. */
  lemma {:induction false} InsertSortedStrictlySorted(s: seq<Pair>, p: Pair)
    requires StrictlySorted(s) && p !in s
    ensures StrictlySorted(InsertSorted(s, p))
  {
    if |s| == 0 || Le(p, s[0]) {
    } else {
      InsertSortedStrictlySorted(s[1..], p);
      var r := InsertSorted(s, p);
      assert r == [s[0]] + InsertSorted(s[1..], p);
      forall j | 1 <= j < |r|
        ensures Lt(r[0], r[j])
      {
        InsertSortedElements(s[1..], p);
        assert r[j] in multiset(InsertSorted(s[1..], p));
        assert r[j] in s[1..] || r[j] == p;
      }
    }
  }

  /** When p does not exceed the first element of Y, p lands in X or right after it. */
  lemma {:induction false} InsertSortedBefore(x: seq<Pair>, y: seq<Pair>, p: Pair)
    requires |y| > 0 ==> Le(p, y[0])
    ensures InsertSorted(x + y, p) == InsertSorted(x, p) + y
  {
    if |x| == 0 {
      assert x + y == y;
    } else if Le(p, x[0]) {
    } else {
      assert (x + y)[0] == x[0] && (x + y)[1..] == x[1..] + y;
      InsertSortedBefore(x[1..], y, p);
    }
  }

  /** When p exceeds every element of X, p lands in Y. */
  lemma {:induction false} InsertSortedAfter(x: seq<Pair>, y: seq<Pair>, p: Pair)
    requires forall e :: e in x ==> !Le(p, e)
    ensures InsertSorted(x + y, p) == x + InsertSorted(y, p)
  {
    if |x| == 0 {
      assert x + y == y;
    } else {
      assert (x + y)[0] == x[0] && (x + y)[1..] == x[1..] + y;
      assert !Le(p, x[0]) by {
        assert x[0] in x;
      }
      assert forall e :: e in x[1..] ==> e in x;
      InsertSortedAfter(x[1..], y, p);
      assert x == [x[0]] + x[1..];
    }
  }

  // ---------------------------------------------------------------
  // Removal by key
  // ---------------------------------------------------------------

  /** The value of the first pair with key k. */
  function Lookup(s: seq<Pair>, k: int): (v: Option<int>)
    ensures v.Some? <==> exists i :: 0 <= i < |s| && s[i].key == k
  {
    if |s| == 0 then None
    else if s[0].key == k then Some(s[0].val)
    else
      assert forall i :: 1 <= i < |s| ==> s[i] == s[1..][i - 1];
      Lookup(s[1..], k)
  }

  /** s without its first pair with key k. */
  function RemoveKey(s: seq<Pair>, k: int): (r: seq<Pair>)
    ensures Lookup(s, k).None? ==> r == s
  {
    if |s| == 0 then []
    else if s[0].key == k then
      assert s == [s[0]] + s[1..];
      s[1..]
    else
      assert s == [s[0]] + s[1..];
      [s[0]] + RemoveKey(s[1..], k)
  }

  /** Removal drops exactly the pair that lookup finds. */
  lemma {:induction false} RemoveKeyElements(s: seq<Pair>, k: int)
    requires Lookup(s, k).Some?
    ensures multiset(RemoveKey(s, k)) + multiset{Pair(k, Lookup(s, k).value)} == multiset(s)
  {
    assert s == [s[0]] + s[1..];
    if s[0].key != k {
      RemoveKeyElements(s[1..], k);
    }
  }

  /** Removal only drops pairs. */
  lemma RemoveKeySubset(s: seq<Pair>, k: int)
    ensures multiset(RemoveKey(s, k)) <= multiset(s)
  {
    if Lookup(s, k).Some? {
      RemoveKeyElements(s, k);
    }
  }

  /** With unique keys, nothing with key k is left and the rest stays in order. */
  lemma {:induction false} RemoveKeyStrictKeys(s: seq<Pair>, k: int)
    requires StrictKeys(s)
    ensures StrictKeys(RemoveKey(s, k))
    ensures forall e :: e in RemoveKey(s, k) ==> e.key != k
  {
    if |s| == 0 {
    } else if s[0].key == k {
      assert forall e :: e in s[1..] ==> e.key > k;
    } else {
      RemoveKeyStrictKeys(s[1..], k);
      var r := RemoveKey(s, k);
      assert r == [s[0]] + RemoveKey(s[1..], k);
      forall j | 1 <= j < |r|
        ensures r[0].key < r[j].key
      {
        RemoveKeySubset(s[1..], k);
        assert r[j] in multiset(RemoveKey(s[1..], k));
        assert r[j] in multiset(s[1..]);
      }
    }
  }

  /** No key k in X: removal and lookup pass over X. */
  lemma {:induction false} RemoveKeyAfter(x: seq<Pair>, y: seq<Pair>, k: int)
    requires forall e :: e in x ==> e.key != k
    ensures RemoveKey(x + y, k) == x + RemoveKey(y, k)
    ensures Lookup(x + y, k) == Lookup(y, k)
  {
    if |x| == 0 {
      assert x + y == y;
    } else {
      assert (x + y)[0] == x[0] && (x + y)[1..] == x[1..] + y;
      RemoveKeyAfter(x[1..], y, k);
    }
  }

  /** No key k in Y: removal and lookup stay within X. */
  lemma {:induction false} RemoveKeyBefore(x: seq<Pair>, y: seq<Pair>, k: int)
    requires forall e :: e in y ==> e.key != k
    ensures RemoveKey(x + y, k) == RemoveKey(x, k) + y
    ensures Lookup(x + y, k) == Lookup(x, k)
  {
    if |x| == 0 {
      assert x + y == y;
      RemoveKeyAfter(y, [], k);
      assert y + [] == y;
    } else {
      assert (x + y)[0] == x[0] && (x + y)[1..] == x[1..] + y;
      RemoveKeyBefore(x[1..], y, k);
    }
  }

  // ---------------------------------------------------------------
  // Range filter
  // ---------------------------------------------------------------

  /** The values, in order, of the pairs whose keys lie in [lower, higher]. */
  function FilterRange(s: seq<Pair>, lower: int, higher: int): (r: seq<int>)
    ensures |r| <= |s|
  {
    if |s| == 0 then []
    else (if lower <= s[0].key <= higher then [s[0].val] else []) + FilterRange(s[1..], lower, higher)
  }

  lemma {:induction false} FilterRangeAppend(x: seq<Pair>, y: seq<Pair>, lower: int, higher: int)
    ensures FilterRange(x + y, lower, higher) == FilterRange(x, lower, higher) + FilterRange(y, lower, higher)
  {
    if |x| == 0 {
      assert x + y == y;
    } else {
      assert (x + y)[0] == x[0] && (x + y)[1..] == x[1..] + y;
      FilterRangeAppend(x[1..], y, lower, higher);
    }
  }

  /** A sequence whose keys all lie outside the range contributes nothing. */
  lemma {:induction false} FilterRangeOutside(s: seq<Pair>, lower: int, higher: int)
    requires forall e :: e in s ==> e.key < lower || e.key > higher
    ensures FilterRange(s, lower, higher) == []
  {
    if |s| > 0 {
      assert s[0] in s;
      FilterRangeOutside(s[1..], lower, higher);
    }
  }
}
