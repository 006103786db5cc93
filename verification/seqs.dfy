/** Generic sequence helpers shared by the merge engine and the odds display:
    the distinct elements of a sequence in first-seen order, and order-keeping
    filtering. */
module Seqs {

  /** The index of the first occurrence of `x` in `xs`. */
  function FirstIndex<T(==)>(xs: seq<T>, x: T): (i: nat)
    requires x in xs
    ensures i < |xs| && xs[i] == x
    ensures forall k | 0 <= k < i :: xs[k] != x
  {
    if xs[0] == x then 0 else 1 + FirstIndex(xs[1..], x)
  }

  /** Adding elements at the end does not move a first occurrence. */
  lemma {:induction false} FirstIndexPrefix<T>(xs: seq<T>, n: nat, x: T)
    requires n <= |xs| && x in xs[..n]
    ensures x in xs && FirstIndex(xs, x) == FirstIndex(xs[..n], x)
  {
    if xs[0] != x {
      assert xs[1..][..n - 1] == xs[..n][1..];
      FirstIndexPrefix(xs[1..], n - 1, x);
    }
  }

  /** `r` lists the elements of `xs` once each, in first-seen order. */
  ghost predicate FirstSeenOrder<T>(xs: seq<T>, r: seq<T>)
  {
    && (forall i | 0 <= i < |r| :: r[i] in xs)
    && (forall i | 0 <= i < |xs| :: xs[i] in r)
    && (forall i, j | 0 <= i < j < |r| :: FirstIndex(xs, r[i]) < FirstIndex(xs, r[j]))
  }

  /** The elements of `xs` without repeats, in the order of their first
      occurrence in `xs` (see `DistinctSpec`). */
  function Distinct<T(==)>(xs: seq<T>): (r: seq<T>)
    ensures |r| <= |xs|
    ensures forall i, j | 0 <= i < j < |r| :: r[i] != r[j]
  {
    if |xs| == 0 then []
    else
      var n := |xs| - 1;
      var d := Distinct(xs[..n]);
      if xs[n] in d then d else d + [xs[n]]
  }

  /** `Distinct(xs)` lists the elements of `xs` once each, in first-seen
      order. */
  lemma {:induction false} DistinctSpec<T>(xs: seq<T>)
    ensures FirstSeenOrder(xs, Distinct(xs))
  {
    if |xs| > 0 {
      var n := |xs| - 1;
      DistinctSpec(xs[..n]);
      DistinctStep(xs, Distinct(xs[..n]));
    }
  }

  lemma DistinctStep<T>(xs: seq<T>, d: seq<T>)
    requires |xs| > 0 && FirstSeenOrder(xs[..|xs| - 1], d)
    requires |d| <= |xs| - 1
    ensures var n := |xs| - 1;
      var r := if xs[n] in d then d else d + [xs[n]];
      |r| <= |xs| && FirstSeenOrder(xs, r)
  {
    var n := |xs| - 1;
    assert xs == xs[..n] + [xs[n]];
    forall x | x in d
      ensures x in xs[..n] && FirstIndex(xs, x) == FirstIndex(xs[..n], x)
    {
      FirstIndexPrefix(xs, n, x);
    }
    if xs[n] !in d {
      assert xs[n] !in xs[..n];
      assert FirstIndex(xs, xs[n]) == n;
      var r := d + [xs[n]];
      forall i | 0 <= i < |xs| ensures xs[i] in r {
        if i < n { assert xs[..n][i] in d; }
      }
    } else {
      forall i | 0 <= i < |xs| ensures xs[i] in d {
        if i < n { assert xs[..n][i] in d; }
      }
    }
  }

  /** Appending an element leaves the distinct prefix alone. */
  lemma DistinctSnoc<T>(xs: seq<T>, x: T)
    ensures Distinct(xs + [x]) == if x in xs then Distinct(xs) else Distinct(xs) + [x]
  {
    assert (xs + [x])[..|xs|] == xs;
    DistinctMembership(xs, x);
  }

  /** One more element of the prefix. */
  lemma DistinctPrefixStep<T>(xs: seq<T>, n: nat)
    requires 0 < n <= |xs|
    ensures Distinct(xs[..n]) == if xs[n - 1] in xs[..n - 1] then Distinct(xs[..n - 1]) else Distinct(xs[..n - 1]) + [xs[n - 1]]
  {
    assert xs[..n] == xs[..n - 1] + [xs[n - 1]];
    DistinctSnoc(xs[..n - 1], xs[n - 1]);
  }

  /** The distinct elements are exactly the elements. */
  lemma DistinctMembership<T>(xs: seq<T>, x: T)
    ensures x in Distinct(xs) <==> x in xs
  {
    DistinctSpec(xs);
    var r := Distinct(xs);
    if x in r {
      var i :| 0 <= i < |r| && r[i] == x;
    }
    if x in xs {
      var i :| 0 <= i < |xs| && xs[i] == x;
    }
  }

  /** The elements of `xs` satisfying `p`, in their original order. */
  function Filter<T>(xs: seq<T>, p: T -> bool): (r: seq<T>)
    ensures |r| <= |xs|
    ensures forall i | 0 <= i < |r| :: r[i] in xs && p(r[i])
    ensures forall i | 0 <= i < |xs| && p(xs[i]) :: xs[i] in r
  {
    if |xs| == 0 then []
    else
      var n := |xs| - 1;
      assert xs == xs[..n] + [xs[n]];
      Filter(xs[..n], p) + (if p(xs[n]) then [xs[n]] else [])
  }

  /** Filtering distributes over concatenation, so the relative order of the
      kept elements is the order they had in the input. */
  lemma {:induction false} FilterAppend<T>(a: seq<T>, b: seq<T>, p: T -> bool)
    ensures Filter(a + b, p) == Filter(a, p) + Filter(b, p)
    decreases |b|
  {
    if |b| == 0 {
      assert a + b == a;
    } else {
      var n := |b| - 1;
      assert (a + b)[..|a + b| - 1] == a + b[..n];
      assert (a + b)[|a + b| - 1] == b[n];
      FilterAppend(a, b[..n], p);
    }
  }

  /** Every element satisfies `p`: nothing is filtered out. */
  lemma {:induction false} FilterAll<T>(xs: seq<T>, p: T -> bool)
    requires forall i | 0 <= i < |xs| :: p(xs[i])
    ensures Filter(xs, p) == xs
  {
    if |xs| > 0 {
      var n := |xs| - 1;
      FilterAll(xs[..n], p);
      assert xs == xs[..n] + [xs[n]];
    }
  }

  /** Filtering by a test and by its negation splits the sequence: the two
      parts together are as long as the whole. */
  lemma {:induction false} FilterComplement<T>(xs: seq<T>, p: T -> bool, q: T -> bool)
    requires forall i | 0 <= i < |xs| :: q(xs[i]) == !p(xs[i])
    ensures |Filter(xs, p)| + |Filter(xs, q)| == |xs|
  {
    if |xs| > 0 {
      var n := |xs| - 1;
      FilterComplement(xs[..n], p, q);
    }
  }

  /** The indices of `xs` whose element satisfies `p`. */
  ghost function IndicesWhere<T>(xs: seq<T>, p: T -> bool): set<int>
  {
    IndicesBelow(xs, p, |xs|)
  }

  /** The indices below `n` whose element satisfies `p`. */
  ghost function IndicesBelow<T>(xs: seq<T>, p: T -> bool, n: nat): set<int>
    requires n <= |xs|
  {
    set i | 0 <= i < n && p(xs[i])
  }

  /** The filter keeps one element per index whose element satisfies `p`. */
  lemma FilterCount<T>(xs: seq<T>, p: T -> bool)
    ensures |Filter(xs, p)| == |IndicesWhere(xs, p)|
  {
    FilterCountUpTo(xs, p, |xs|);
    assert xs[..|xs|] == xs;
  }

  lemma {:induction false} FilterCountUpTo<T>(xs: seq<T>, p: T -> bool, n: nat)
    requires n <= |xs|
    ensures |Filter(xs[..n], p)| == |IndicesBelow(xs, p, n)|
  {
    if n > 0 {
      FilterCountUpTo(xs, p, n - 1);
      assert xs[..n][..n - 1] == xs[..n - 1];
      var before := IndicesBelow(xs, p, n - 1);
      var now := IndicesBelow(xs, p, n);
      if p(xs[n - 1]) {
        assert now == before + {n - 1};
      } else {
        assert now == before;
      }
    }
  }

  /** Filtering twice is filtering once by both tests. */
  lemma {:induction false} FilterFilter<T>(xs: seq<T>, p: T -> bool, q: T -> bool, pq: T -> bool)
    requires forall i | 0 <= i < |xs| :: pq(xs[i]) == (p(xs[i]) && q(xs[i]))
    ensures Filter(Filter(xs, p), q) == Filter(xs, pq)
  {
    if |xs| > 0 {
      var n := |xs| - 1;
      FilterFilter(xs[..n], p, q, pq);
      FilterAppend(Filter(xs[..n], p), if p(xs[n]) then [xs[n]] else [], q);
    }
  }

  /** No two elements of `xs` share a key. */
  predicate DistinctBy<T, K(==)>(xs: seq<T>, key: T -> K)
  {
    forall i, j | 0 <= i < j < |xs| :: key(xs[i]) != key(xs[j])
  }

  /** Filtering keeps elements with pairwise different keys apart. */
  lemma {:induction false} FilterDistinctBy<T, K>(xs: seq<T>, p: T -> bool, key: T -> K)
    requires DistinctBy(xs, key)
    ensures DistinctBy(Filter(xs, p), key)
  {
    if |xs| > 0 {
      var n := |xs| - 1;
      FilterDistinctBy(xs[..n], p, key);
      var front := Filter(xs[..n], p);
      forall i | 0 <= i < |front| ensures key(front[i]) != key(xs[n]) {
        var j :| 0 <= j < n && xs[..n][j] == front[i];
      }
      var r := Filter(xs, p);
      assert r == front + (if p(xs[n]) then [xs[n]] else []);
      forall i, j | 0 <= i < j < |r| ensures key(r[i]) != key(r[j]) {
        if j < |front| {
          assert r[i] == front[i] && r[j] == front[j];
        } else {
          assert r[i] == front[i] && r[j] == xs[n];
        }
      }
    }
  }
}
