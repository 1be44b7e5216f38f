/** A stable sort on sequences, standing for Python's `sorted(...)` and
    `list.sort(key=...)`: both are stable, so for a total preorder their result is
    the unique ordering that is sorted and keeps tied elements in their input order.
    It is modelled by insertion sort and the three properties are proved of it. */
module Sorting {
  import opened Seqs

  /** `le` relates every pair one way or the other and is transitive. */
  ghost predicate TotalPreorder<T(!new)>(le: (T, T) -> bool) {
    && (forall a, b :: le(a, b) || le(b, a))
    && (forall a, b, c :: TransitiveAt(le, a, b, c))
  }

  /** Transitivity through `b`; kept as a named predicate so that the solver uses it
      only where a proof asks for it. */
  predicate TransitiveAt<T>(le: (T, T) -> bool, a: T, b: T, c: T) {
    le(a, b) && le(b, c) ==> le(a, c)
  }

  predicate Sorted<T>(xs: seq<T>, le: (T, T) -> bool) {
    forall i, j :: 0 <= i < j < |xs| ==> le(xs[i], xs[j])
  }

  /** The elements `le` cannot tell apart from `y`. */
  function Ties<T>(le: (T, T) -> bool, y: T): T -> bool {
    x => le(x, y) && le(y, x)
  }

  /** `x` placed after every element of `s` that is not greater than it. */
  function Insert<T>(s: seq<T>, x: T, le: (T, T) -> bool): (r: seq<T>)
    ensures multiset(r) == multiset(s) + multiset{x}
    decreases |s|
  {
    if s == [] then [x]
    else
      assert s == [s[0]] + s[1..];
      if le(s[0], x) then [s[0]] + Insert(s[1..], x, le)
      else [x] + s
  }

  lemma {:induction false} InsertSorted<T(!new)>(s: seq<T>, x: T, le: (T, T) -> bool)
    requires TotalPreorder(le) && Sorted(s, le)
    ensures Sorted(Insert(s, x, le), le)
    decreases |s|
  {
    if s != [] {
      var r := Insert(s, x, le);
      if le(s[0], x) {
        var tail := Insert(s[1..], x, le);
        InsertSorted(s[1..], x, le);
        forall j | 1 <= j < |r|
          ensures le(s[0], r[j])
        {
          assert r[j] == tail[j - 1];
          assert r[j] in multiset(tail);
          if r[j] != x {
            assert r[j] in multiset(s[1..]);
            var k :| 0 <= k < |s[1..]| && s[1..][k] == r[j];
            assert s[k + 1] == r[j];
          }
        }
      } else {
        forall j | 1 <= j < |r|
          ensures le(x, r[j])
        {
          assert r[j] == s[j - 1];
          if j > 1 {
            assert le(s[0], s[j - 1]);
            assert TransitiveAt(le, x, s[0], s[j - 1]);
          }
        }
      }
    }
  }

  /** Filtering a sequence with a head. */
  lemma FilterCons<T(!new)>(a: T, rest: seq<T>, p: T -> bool)
    ensures Filter([a] + rest, p) == (if p(a) then [a] else []) + Filter(rest, p)
  {
    assert ([a] + rest)[1..] == rest;
  }

  /** A filter nothing passes is empty. */
  lemma FilterNone<T(!new)>(xs: seq<T>, p: T -> bool)
    requires forall i :: 0 <= i < |xs| ==> !p(xs[i])
    ensures Filter(xs, p) == []
  {
  }

  /** When `x` goes before the smallest element of `s`, nothing in `s` is tied with
      anything `x` is tied with. */
  lemma {:induction false} NoTiesAbove<T(!new)>(s: seq<T>, x: T, le: (T, T) -> bool, y: T)
    requires TotalPreorder(le) && Sorted(s, le)
    requires s != [] && !le(s[0], x) && Ties(le, y)(x)
    ensures Filter(s, Ties(le, y)) == []
  {
    var p := Ties(le, y);
    forall i | 0 <= i < |s|
      ensures !p(s[i])
    {
      assert le(s[0], s[i]);
      assert TransitiveAt(le, s[i], y, x);
      assert TransitiveAt(le, s[0], s[i], x);
    }
    FilterNone(s, p);
  }

  /** Inserting `x` puts it after every element tied with it. */
  lemma {:induction false} InsertTies<T(!new)>(s: seq<T>, x: T, le: (T, T) -> bool, y: T)
    requires TotalPreorder(le) && Sorted(s, le)
    ensures Filter(Insert(s, x, le), Ties(le, y)) ==
      Filter(s, Ties(le, y)) + (if Ties(le, y)(x) then [x] else [])
    decreases |s|
  {
    var p := Ties(le, y);
    var tx := if p(x) then [x] else [];
    if s == [] {
      FilterCons(x, [], p);
    } else if le(s[0], x) {
      SortedTail(s, le);
      InsertTies(s[1..], x, le, y);
      InsertTiesPast(s, x, le, p, tx);
    } else {
      if p(x) {
        NoTiesAbove(s, x, le, y);
      }
      InsertTiesFront(s, x, le, p);
    }
  }

  /** The step of `InsertTies` where `x` goes past the head of `s`. */
  lemma InsertTiesPast<T(!new)>(s: seq<T>, x: T, le: (T, T) -> bool, p: T -> bool, tx: seq<T>)
    requires s != [] && le(s[0], x)
    requires Filter(Insert(s[1..], x, le), p) == Filter(s[1..], p) + tx
    ensures Filter(Insert(s, x, le), p) == Filter(s, p) + tx
  {
    InsertPast(s, x, le);
    FilterPast(s, Insert(s[1..], x, le), Insert(s, x, le), p, tx);
  }

  /** `x` not below the head goes into the tail. */
  lemma InsertPast<T>(s: seq<T>, x: T, le: (T, T) -> bool)
    requires s != [] && le(s[0], x)
    ensures Insert(s, x, le) == [s[0]] + Insert(s[1..], x, le)
  {
  }

  /** Filtering both sides of a filtered equation extended by the same head. */
  lemma FilterPast<T(!new)>(s: seq<T>, rest: seq<T>, ins: seq<T>, p: T -> bool, tx: seq<T>)
    requires s != [] && ins == [s[0]] + rest
    requires Filter(rest, p) == Filter(s[1..], p) + tx
    ensures Filter(ins, p) == Filter(s, p) + tx
  {
    var h := if p(s[0]) then [s[0]] else [];
    assert s == [s[0]] + s[1..];
    FilterCons(s[0], rest, p);
    FilterCons(s[0], s[1..], p);
    AppendAssoc(h, Filter(s[1..], p), tx);
  }

  lemma AppendAssoc<T>(a: seq<T>, b: seq<T>, c: seq<T>)
    ensures a + (b + c) == (a + b) + c
  {
  }

  /** The tail of a sorted sequence is sorted. */
  lemma SortedTail<T>(s: seq<T>, le: (T, T) -> bool)
    requires s != [] && Sorted(s, le)
    ensures Sorted(s[1..], le)
  {
    forall i, j | 0 <= i < j < |s| - 1
      ensures le(s[1..][i], s[1..][j])
    {
      assert s[1..][i] == s[i + 1] && s[1..][j] == s[j + 1];
    }
  }

  /** The step of `InsertTies` where `x` goes in front. */
  lemma {:induction false} InsertTiesFront<T(!new)>(s: seq<T>, x: T, le: (T, T) -> bool, p: T -> bool)
    requires s != [] && !le(s[0], x)
    requires p(x) ==> Filter(s, p) == []
    ensures Filter(Insert(s, x, le), p) == Filter(s, p) + (if p(x) then [x] else [])
  {
    assert Insert(s, x, le) == [x] + s;
    FilterCons(x, s, p);
  }

  /** Insertion sort: the input reordered into `le` order. */
  function InsertionSort<T(!new)>(xs: seq<T>, le: (T, T) -> bool): (r: seq<T>)
    requires TotalPreorder(le)
    ensures multiset(r) == multiset(xs)
    ensures Sorted(r, le)
    decreases |xs|
  {
    if xs == [] then []
    else
      var n := |xs| - 1;
      assert xs == xs[..n] + [xs[n]];
      InsertSorted(InsertionSort(xs[..n], le), xs[n], le);
      Insert(InsertionSort(xs[..n], le), xs[n], le)
  }

  /** Stability: the elements tied with any `y` come out in their input order. */
  lemma {:induction false} SortStable<T(!new)>(xs: seq<T>, le: (T, T) -> bool, y: T)
    requires TotalPreorder(le)
    ensures Filter(InsertionSort(xs, le), Ties(le, y)) == Filter(xs, Ties(le, y))
    decreases |xs|
  {
    if xs != [] {
      var n := |xs| - 1;
      SortStable(xs[..n], le, y);
      InsertionSortLast(xs, le);
      SortStableStep(InsertionSort(xs[..n], le), xs, InsertionSort(xs, le), le, y);
    }
  }

  /** Insertion sort inserts the last element into the sorted prefix. */
  lemma InsertionSortLast<T(!new)>(xs: seq<T>, le: (T, T) -> bool)
    requires TotalPreorder(le) && xs != []
    ensures InsertionSort(xs, le) == Insert(InsertionSort(xs[..|xs| - 1], le), xs[|xs| - 1], le)
  {
  }

  /** The step of `SortStable`: inserting the last element into the sorted prefix. */
  lemma SortStableStep<T(!new)>(sorted: seq<T>, xs: seq<T>, ins: seq<T>, le: (T, T) -> bool, y: T)
    requires TotalPreorder(le) && Sorted(sorted, le) && xs != []
    requires Filter(sorted, Ties(le, y)) == Filter(xs[..|xs| - 1], Ties(le, y))
    requires ins == Insert(sorted, xs[|xs| - 1], le)
    ensures Filter(ins, Ties(le, y)) == Filter(xs, Ties(le, y))
  {
    var n := |xs| - 1;
    InsertTies(sorted, xs[n], le, y);
    assert xs == xs[..n] + [xs[n]];
    StableStep(sorted, xs[..n], xs[n], ins, Ties(le, y));
  }

  /** Appending `x` to the input appends it, when it passes, to the filtered
      output. */
  lemma StableStep<T(!new)>(sorted: seq<T>, pre: seq<T>, x: T, ins: seq<T>, p: T -> bool)
    requires Filter(sorted, p) == Filter(pre, p)
    requires Filter(ins, p) == Filter(sorted, p) + (if p(x) then [x] else [])
    ensures Filter(ins, p) == Filter(pre + [x], p)
  {
    FilterConcat(pre, [x], p);
    FilterCons(x, [], p);
  }
}
