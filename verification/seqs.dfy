/** Sequence operations shared by the modules: duplicate removal in first-occurrence
    order (`[...new Set(xs)]` in JavaScript, insertion into an ordered dict in Python)
    and order-preserving filtering (`Array.prototype.filter`, list comprehensions). */
module Seqs {

  /** No element occurs twice. */
  predicate NoDup<T(==)>(xs: seq<T>) {
    forall i, j :: 0 <= i < j < |xs| ==> xs[i] != xs[j]
  }

  /** The index of the first occurrence of `x`. */
  function FirstIndex<T(==)>(xs: seq<T>, x: T): (i: nat)
    requires x in xs
    ensures i < |xs| && xs[i] == x
    ensures forall k :: 0 <= k < i ==> xs[k] != x
  {
    if xs[0] == x then 0 else 1 + FirstIndex(xs[1..], x)
  }

  /** The first occurrence in a longer sequence is the one in the prefix, if any. */
  lemma FirstIndexPrefix<T>(xs: seq<T>, n: nat, x: T)
    requires n <= |xs| && x in xs[..n]
    ensures FirstIndex(xs, x) == FirstIndex(xs[..n], x)
  {
    var i := FirstIndex(xs[..n], x);
    assert xs[i] == x;
    assert forall k :: 0 <= k < i ==> xs[..n][k] == xs[k];
  }

  /** Each element once, at the place of its first occurrence. */
  function Dedup<T(==,!new)>(xs: seq<T>): (r: seq<T>)
    ensures NoDup(r)
    ensures forall x :: x in r <==> x in xs
    ensures forall i, j :: 0 <= i < j < |r| ==> FirstIndex(xs, r[i]) < FirstIndex(xs, r[j])
    decreases |xs|
  {
    if xs == [] then []
    else
      var n := |xs| - 1;
      var init := xs[..n];
      var r := Dedup(init);
      assert xs == init + [xs[n]];
      forall y | y in r
        ensures FirstIndex(xs, y) == FirstIndex(init, y) < n
      {
        FirstIndexPrefix(xs, n, y);
      }
      if xs[n] in r then r
      else
        assert FirstIndex(xs, xs[n]) == n;
        r + [xs[n]]
  }

  /** Deduplication keeps a duplicate-free sequence as it is. */
  lemma {:induction false} DedupOfNoDup<T(!new)>(xs: seq<T>)
    requires NoDup(xs)
    ensures Dedup(xs) == xs
    decreases |xs|
  {
    if xs != [] {
      var n := |xs| - 1;
      DedupOfNoDup(xs[..n]);
      assert xs == xs[..n] + [xs[n]];
      assert xs[n] !in xs[..n];
    }
  }

  /** The elements satisfying `p`, in their original order. */
  function Filter<T(!new)>(xs: seq<T>, p: T -> bool): (r: seq<T>)
    ensures |r| <= |xs|
    ensures forall i :: 0 <= i < |r| ==> p(r[i])
    ensures forall x :: x in r <==> x in xs && p(x)
    decreases |xs|
  {
    if xs == [] then []
    else
      var rest := Filter(xs[1..], p);
      assert xs == [xs[0]] + xs[1..];
      if p(xs[0]) then [xs[0]] + rest else rest
  }

  /** A sequence whose elements all pass is its own filtering. */
  lemma {:induction false} FilterAll<T(!new)>(xs: seq<T>, p: T -> bool)
    requires forall i :: 0 <= i < |xs| ==> p(xs[i])
    ensures Filter(xs, p) == xs
    decreases |xs|
  {
    if xs != [] {
      FilterAll(xs[1..], p);
    }
  }

  /** Filtering twice filters nothing more. */
  lemma FilterIdempotent<T(!new)>(xs: seq<T>, p: T -> bool)
    ensures Filter(Filter(xs, p), p) == Filter(xs, p)
  {
    FilterAll(Filter(xs, p), p);
  }

  /** Filtering distributes over concatenation. */
  lemma {:induction false} FilterConcat<T(!new)>(a: seq<T>, b: seq<T>, p: T -> bool)
    ensures Filter(a + b, p) == Filter(a, p) + Filter(b, p)
    decreases |a|
  {
    if a == [] {
      assert a + b == b;
    } else {
      assert (a + b)[1..] == a[1..] + b;
      FilterConcat(a[1..], b, p);
    }
  }

  /** The number of occurrences of `k` in `xs`. */
  function Count<T(==)>(xs: seq<T>, k: T): (n: nat)
    ensures n > 0 <==> k in xs
    ensures n <= |xs|
    decreases |xs|
  {
    if xs == [] then 0
    else
      assert xs == [xs[0]] + xs[1..];
      (if xs[0] == k then 1 else 0) + Count(xs[1..], k)
  }

  /** Filtering keeps every copy of an element that passes and drops every copy of
      one that does not. */
  lemma {:induction false} FilterCount<T(!new)>(xs: seq<T>, p: T -> bool, x: T)
    ensures Count(Filter(xs, p), x) == if p(x) then Count(xs, x) else 0
    decreases |xs|
  {
    if xs != [] {
      FilterCount(xs[1..], p, x);
      if p(xs[0]) {
        assert ([xs[0]] + Filter(xs[1..], p))[1..] == Filter(xs[1..], p);
      }
    }
  }

  /** Where the elements kept by `Filter` sit in `xs`: strictly increasing positions,
      one per kept element, covering every position whose element passes. So the
      filtered sequence is `xs` with exactly the failing elements removed, in order. */
  function FilterIndices<T(!new)>(xs: seq<T>, p: T -> bool): (idx: seq<nat>)
    ensures |idx| == |Filter(xs, p)|
    ensures forall k :: 0 <= k < |idx| ==> idx[k] < |xs| && xs[idx[k]] == Filter(xs, p)[k]
    ensures forall k, l :: 0 <= k < l < |idx| ==> idx[k] < idx[l]
    ensures forall j :: 0 <= j < |xs| && p(xs[j]) ==> j in idx
    decreases |xs|
  {
    if xs == [] then []
    else
      var rest := FilterIndices(xs[1..], p);
      var r := if p(xs[0]) then [0] + Shift(rest) else Shift(rest);
      FilterCons(xs, p);
      IndicesStep(xs, p, Filter(xs[1..], p), Filter(xs, p), rest, r);
      r
  }

  /** `Filter` of a non-empty sequence, one step unfolded. */
  lemma FilterCons<T(!new)>(xs: seq<T>, p: T -> bool)
    requires xs != []
    ensures Filter(xs, p) == if p(xs[0]) then [xs[0]] + Filter(xs[1..], p) else Filter(xs[1..], p)
  {
  }

  /** The positions kept in `xs` from those kept in its tail. */
  lemma IndicesStep<T>(xs: seq<T>, p: T -> bool, f: seq<T>, whole: seq<T>, rest: seq<nat>, r: seq<nat>)
    requires xs != [] && whole == if p(xs[0]) then [xs[0]] + f else f
    requires |rest| == |f|
    requires forall k :: 0 <= k < |rest| ==> rest[k] < |xs[1..]| && xs[1..][rest[k]] == f[k]
    requires forall k, l :: 0 <= k < l < |rest| ==> rest[k] < rest[l]
    requires forall j :: 0 <= j < |xs[1..]| && p(xs[1..][j]) ==> j in rest
    requires r == if p(xs[0]) then [0] + Shift(rest) else Shift(rest)
    ensures |r| == |whole|
    ensures forall k :: 0 <= k < |r| ==> r[k] < |xs| && xs[r[k]] == whole[k]
    ensures forall k, l :: 0 <= k < l < |r| ==> r[k] < r[l]
    ensures forall j :: 0 <= j < |xs| && p(xs[j]) ==> j in r
  {
    var shifted := Shift(rest);
    TailIndices(xs, p, f, rest, shifted);
    if p(xs[0]) {
      KeptHeadIndices(xs, p, f, shifted);
    }
  }

  /** The tail's positions, shifted, are positions in `xs`. */
  lemma TailIndices<T>(xs: seq<T>, p: T -> bool, f: seq<T>, rest: seq<nat>, shifted: seq<nat>)
    requires xs != [] && shifted == Shift(rest)
    requires |rest| == |f|
    requires forall k :: 0 <= k < |rest| ==> rest[k] < |xs[1..]| && xs[1..][rest[k]] == f[k]
    requires forall k, l :: 0 <= k < l < |rest| ==> rest[k] < rest[l]
    requires forall j :: 0 <= j < |xs[1..]| && p(xs[1..][j]) ==> j in rest
    ensures |shifted| == |f|
    ensures forall k :: 0 <= k < |shifted| ==> 0 < shifted[k] < |xs| && xs[shifted[k]] == f[k]
    ensures forall k, l :: 0 <= k < l < |shifted| ==> shifted[k] < shifted[l]
    ensures forall j :: 0 < j < |xs| && p(xs[j]) ==> j in shifted
  {
    ShiftFacts(xs, rest, shifted);
    forall j | 0 < j < |xs| && p(xs[j])
      ensures j in shifted
    {
      assert xs[1..][j - 1] == xs[j];
    }
  }

  /** When the head passes, its position goes in front of the tail's shifted ones. */
  lemma KeptHeadIndices<T>(xs: seq<T>, p: T -> bool, f: seq<T>, shifted: seq<nat>)
    requires xs != [] && p(xs[0])
    requires |shifted| == |f|
    requires forall k :: 0 <= k < |shifted| ==> 0 < shifted[k] < |xs| && xs[shifted[k]] == f[k]
    requires forall k, l :: 0 <= k < l < |shifted| ==> shifted[k] < shifted[l]
    requires forall j :: 0 < j < |xs| && p(xs[j]) ==> j in shifted
    ensures var r, whole := [0] + shifted, [xs[0]] + f;
      && (forall k :: 0 <= k < |r| ==> r[k] < |xs| && xs[r[k]] == whole[k])
      && (forall k, l :: 0 <= k < l < |r| ==> r[k] < r[l])
      && (forall j :: 0 <= j < |xs| && p(xs[j]) ==> j in r)
  {
    var r, whole := [0] + shifted, [xs[0]] + f;
    forall k | 1 <= k < |r|
      ensures r[k] == shifted[k - 1] && whole[k] == f[k - 1]
    {
    }
    forall j | 0 < j < |xs| && p(xs[j])
      ensures j in r
    {
      var k :| 0 <= k < |shifted| && shifted[k] == j;
      assert r[k + 1] == j;
    }
  }

  /** Every position one further on. */
  function Shift(idx: seq<nat>): (r: seq<nat>)
    ensures |r| == |idx|
    ensures forall k :: 0 <= k < |r| ==> r[k] == idx[k] + 1
  {
    seq(|idx|, k requires 0 <= k < |idx| => idx[k] + 1)
  }

  /** The positions in the tail, shifted, are positions in the whole sequence. */
  lemma ShiftFacts<T>(xs: seq<T>, rest: seq<nat>, shifted: seq<nat>)
    requires xs != [] && shifted == Shift(rest)
    requires forall k :: 0 <= k < |rest| ==> rest[k] < |xs| - 1
    requires forall k, l :: 0 <= k < l < |rest| ==> rest[k] < rest[l]
    ensures forall k :: 0 <= k < |shifted| ==> 0 < shifted[k] < |xs| && xs[shifted[k]] == xs[1..][rest[k]]
    ensures forall k, l :: 0 <= k < l < |shifted| ==> shifted[k] < shifted[l]
    ensures forall j :: 0 < j < |xs| && j - 1 in rest ==> j in shifted
  {
    forall j | 0 < j < |xs| && j - 1 in rest
      ensures j in shifted
    {
      var k :| 0 <= k < |rest| && rest[k] == j - 1;
      assert shifted[k] == j;
    }
  }
}
