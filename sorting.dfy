/** Sorting a slice in place by an integer key, as `sort.Slice` does with
    the comparison `key(s[i]) < key(s[j])`. */
module Sorting {

  /** Ascending by `key`. */
  ghost predicate SortedBy<T>(s: seq<T>, key: T -> int)
  {
    forall p, q :: 0 <= p < q < |s| ==> key(s[p]) <= key(s[q])
  }

  /** No two elements share a key. */
  ghost predicate DistinctKeys<T>(s: seq<T>, key: T -> int)
  {
    forall p, q :: 0 <= p < |s| && 0 <= q < |s| && p != q ==> key(s[p]) != key(s[q])
  }

  /** Reorders `a` so that it ascends by `key`, keeping its elements. */
  method SortByKey<T>(a: array<T>, key: T -> int)
    modifies a
    ensures SortedBy(a[..], key)
    ensures multiset(a[..]) == multiset(old(a[..]))
  {
    for i := 0 to a.Length
      invariant forall p, q :: 0 <= p < q < i ==> key(a[p]) <= key(a[q])
      invariant multiset(a[..]) == multiset(old(a[..]))
    {
      Sink(a, i, key);
    }
  }

  /** Moves `a[i]` down past every larger element before it, so that the
      first `i + 1` elements ascend. */
  method Sink<T>(a: array<T>, i: nat, key: T -> int)
    requires i < a.Length
    requires forall p, q :: 0 <= p < q < i ==> key(a[p]) <= key(a[q])
    modifies a
    ensures forall p, q :: 0 <= p < q <= i ==> key(a[p]) <= key(a[q])
    ensures multiset(a[..]) == multiset(old(a[..]))
  {
    var j := i;
    while j > 0 && key(a[j - 1]) > key(a[j])
      invariant 0 <= j <= i
      invariant SortedExcept(a[..], i, j, key)
      invariant multiset(a[..]) == multiset(old(a[..]))
    {
      ghost var s := a[..];
      SinkStep(s, i, j, key);
      a[j - 1], a[j] := a[j], a[j - 1];
      assert a[..] == s[j - 1 := s[j]][j := s[j - 1]];
      j := j - 1;
    }
    SinkDone(a[..], i, j, key);
  }

  /** The first `i + 1` elements ascend, except that the one at `j` may be
      out of place. */
  ghost predicate SortedExcept<T>(s: seq<T>, i: nat, j: nat, key: T -> int)
    requires i < |s|
  {
    forall p, q :: 0 <= p < q <= i && q != j ==> key(s[p]) <= key(s[q])
  }

  /** Swapping an out-of-place element with the larger one before it moves
      the exception one place down, and keeps the elements. */
  lemma SinkStep<T>(s: seq<T>, i: nat, j: nat, key: T -> int)
    requires 0 < j <= i < |s|
    requires SortedExcept(s, i, j, key)
    requires key(s[j - 1]) > key(s[j])
    ensures SortedExcept(s[j - 1 := s[j]][j := s[j - 1]], i, j - 1, key)
    ensures multiset(s[j - 1 := s[j]][j := s[j - 1]]) == multiset(s)
  {
    var t := s[j - 1 := s[j]][j := s[j - 1]];
    forall p, q | 0 <= p < q <= i && q != j - 1 ensures key(t[p]) <= key(t[q]) {
      if q == j {
        if p < j - 1 {
          assert t[p] == s[p] && t[q] == s[j - 1];
        }
      } else if p == j - 1 {
        assert t[p] == s[j] && t[q] == s[q];
        assert key(s[j - 1]) <= key(s[q]);
      } else if p == j {
        assert t[p] == s[j - 1] && t[q] == s[q];
      } else {
        assert t[p] == s[p] && t[q] == s[q];
      }
    }
  }

  /** When the element at `j` is no smaller than the one before it, nothing
      is out of place. */
  lemma SinkDone<T>(s: seq<T>, i: nat, j: nat, key: T -> int)
    requires j <= i < |s|
    requires SortedExcept(s, i, j, key)
    requires j == 0 || key(s[j - 1]) <= key(s[j])
    ensures forall p, q :: 0 <= p < q <= i ==> key(s[p]) <= key(s[q])
  {
    forall p, q | 0 <= p < q <= i ensures key(s[p]) <= key(s[q]) {
      if q == j && p < j - 1 {
        assert key(s[p]) <= key(s[j - 1]);
      }
    }
  }

  /** With distinct keys the sorted order is unique: two sorted sequences
      holding the same elements are equal, so an unstable sort still gives
      one answer. */
  lemma {:induction false} SortedUnique<T>(xs: seq<T>, ys: seq<T>, key: T -> int)
    requires SortedBy(xs, key) && SortedBy(ys, key)
    requires DistinctKeys(xs, key)
    requires multiset(xs) == multiset(ys)
    ensures xs == ys
    decreases |xs|
  {
    assert |xs| == |multiset(xs)| == |multiset(ys)| == |ys|;
    if xs != [] {
      SameFirst(xs, ys, key);
      SameRest(xs, ys);
      SortedRest(xs, key);
      SortedRest(ys, key);
      DistinctRest(xs, key);
      SortedUnique(xs[1..], ys[1..], key);
      assert xs == [xs[0]] + xs[1..] && ys == [ys[0]] + ys[1..];
    }
  }

  /** Both sorted sequences start with the element of the smallest key. */
  lemma SameFirst<T>(xs: seq<T>, ys: seq<T>, key: T -> int)
    requires SortedBy(xs, key) && SortedBy(ys, key)
    requires DistinctKeys(xs, key)
    requires multiset(xs) == multiset(ys)
    requires xs != [] && ys != []
    ensures xs[0] == ys[0]
  {
    assert xs[0] in multiset(ys);
    var j :| 0 <= j < |ys| && ys[j] == xs[0];
    assert ys[0] in multiset(xs);
    var i :| 0 <= i < |xs| && xs[i] == ys[0];
    assert key(xs[0]) <= key(xs[i]) && key(ys[0]) <= key(ys[j]);
    assert i == 0;
  }

  lemma SameRest<T>(xs: seq<T>, ys: seq<T>)
    requires multiset(xs) == multiset(ys)
    requires xs != [] && ys != [] && xs[0] == ys[0]
    ensures multiset(xs[1..]) == multiset(ys[1..])
  {
    assert xs == [xs[0]] + xs[1..];
    assert ys == [ys[0]] + ys[1..];
    assert multiset(xs) == multiset{xs[0]} + multiset(xs[1..]);
    assert multiset(ys) == multiset{ys[0]} + multiset(ys[1..]);
    assert multiset(xs[1..]) == multiset(xs) - multiset{xs[0]};
    assert multiset(ys[1..]) == multiset(ys) - multiset{ys[0]};
  }

  lemma SortedRest<T>(xs: seq<T>, key: T -> int)
    requires SortedBy(xs, key) && xs != []
    ensures SortedBy(xs[1..], key)
  {
    var r := xs[1..];
    forall p, q | 0 <= p < q < |r| ensures key(r[p]) <= key(r[q]) {
      assert r[p] == xs[p + 1] && r[q] == xs[q + 1];
    }
  }

  lemma DistinctRest<T>(xs: seq<T>, key: T -> int)
    requires DistinctKeys(xs, key) && xs != []
    ensures DistinctKeys(xs[1..], key)
  {
    var r := xs[1..];
    forall p, q | 0 <= p < |r| && 0 <= q < |r| && p != q ensures key(r[p]) != key(r[q]) {
      assert r[p] == xs[p + 1] && r[q] == xs[q + 1];
    }
  }

  /** A sequence of distinct positions below its own length, in ascending
      order, is exactly 0, 1, 2, ... */
  lemma PositionsInOrder(keys: seq<int>)
    requires forall p, q :: 0 <= p < q < |keys| ==> keys[p] < keys[q]
    requires forall k :: 0 <= k < |keys| ==> 0 <= keys[k] < |keys|
    ensures forall k :: 0 <= k < |keys| ==> keys[k] == k
  {
    forall k | 0 <= k < |keys| ensures keys[k] == k {
      AtLeastPosition(keys, k);
      AtMostPosition(keys, k);
    }
  }

  lemma {:induction false} AtLeastPosition(keys: seq<int>, k: nat)
    requires forall p, q :: 0 <= p < q < |keys| ==> keys[p] < keys[q]
    requires forall k :: 0 <= k < |keys| ==> 0 <= keys[k]
    requires k < |keys|
    ensures keys[k] >= k
  {
    if k > 0 {
      AtLeastPosition(keys, k - 1);
    }
  }

  lemma {:induction false} AtMostPosition(keys: seq<int>, k: nat)
    requires forall p, q :: 0 <= p < q < |keys| ==> keys[p] < keys[q]
    requires forall k :: 0 <= k < |keys| ==> keys[k] < |keys|
    requires k < |keys|
    ensures keys[k] <= k
    decreases |keys| - k
  {
    if k + 1 < |keys| {
      AtMostPosition(keys, k + 1);
    }
  }
}
