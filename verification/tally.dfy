/** The tag counter of `onPostBuild` in gatsby-node.js: a JavaScript `Map` from a tag
    to a count, kept as its list of entries in insertion order. `Get` is
    `map.get(key) || 0`, `Bump` is `map.set(key, (map.get(key) || 0) + 1)`. */
module Tally {
  import opened Seqs

  type Counts = seq<(string, nat)>

  function Keys(c: Counts): (ks: seq<string>)
    ensures |ks| == |c|
    decreases |c|
  {
    if c == [] then [] else [c[0].0] + Keys(c[1..])
  }

  lemma {:induction false} KeysAt(c: Counts, i: nat)
    requires i < |c|
    ensures Keys(c)[i] == c[i].0
    decreases |c|
  {
    if i > 0 {
      KeysAt(c[1..], i - 1);
    }
  }

  /** Every entry has a positive count. */
  predicate Positive(c: Counts) {
    forall i :: 0 <= i < |c| ==> c[i].1 > 0
  }

  /** The count of `k`, zero when there is no entry. */
  function Get(c: Counts, k: string): nat
    decreases |c|
  {
    if c == [] then 0
    else if c[0].0 == k then c[0].1 else Get(c[1..], k)
  }

  /** A key has a positive count exactly when it has an entry, in a positive list. */
  lemma {:induction false} GetPositive(c: Counts, k: string)
    requires Positive(c)
    ensures Get(c, k) > 0 <==> k in Keys(c)
    decreases |c|
  {
    if c != [] {
      assert c[0].1 > 0;
      assert forall i :: 0 <= i < |c| - 1 ==> c[1..][i].1 == c[i + 1].1 > 0;
      GetPositive(c[1..], k);
    }
  }

  /** One more for `k`: its entry grows in place, or a new entry goes at the end. */
  function Bump(c: Counts, k: string): (r: Counts)
    ensures Get(r, k) == Get(c, k) + 1
    ensures forall u :: u != k ==> Get(r, u) == Get(c, u)
    decreases |c|
  {
    if c == [] then [(k, 1)]
    else if c[0].0 == k then [(k, c[0].1 + 1)] + c[1..]
    else [c[0]] + Bump(c[1..], k)
  }

  /** `Bump` keeps the insertion order of the keys, adding `k` at the end when it is new,
      and keeps every count positive. */
  lemma {:induction false} BumpKeys(c: Counts, k: string)
    ensures Keys(Bump(c, k)) == if k in Keys(c) then Keys(c) else Keys(c) + [k]
    ensures Positive(c) ==> Positive(Bump(c, k))
    decreases |c|
  {
    if c != [] {
      var r := Bump(c, k);
      assert r[1..] == if c[0].0 == k then c[1..] else Bump(c[1..], k);
      if c[0].0 != k {
        BumpKeys(c[1..], k);
        assert Keys(r) == [c[0].0] + Keys(Bump(c[1..], k));
      }
      if Positive(c) {
        forall i | 0 <= i < |r|
          ensures r[i].1 > 0
        {
          if i > 0 {
            assert r[i] == r[1..][i - 1];
            if c[0].0 != k {
              assert forall j :: 0 <= j < |c| - 1 ==> c[1..][j].1 == c[j + 1].1 > 0;
            }
          }
        }
      }
    }
  }

  /** `xs.forEach(x => { if (p(x)) bump(x) })`. */
  function TallyWhere(c: Counts, xs: seq<string>, p: string -> bool): (r: Counts)
    ensures forall u :: Get(r, u) == Get(c, u) + (if p(u) then Count(xs, u) else 0)
    decreases |xs|
  {
    if xs == [] then c
    else TallyWhere(if p(xs[0]) then Bump(c, xs[0]) else c, xs[1..], p)
  }

  /** The keys after the tally are the old ones and the new ones that pass `p`. */
  lemma {:induction false} TallyKeys(c: Counts, xs: seq<string>, p: string -> bool)
    ensures forall u :: u in Keys(TallyWhere(c, xs, p)) <==> u in Keys(c) || (p(u) && u in xs)
    decreases |xs|
  {
    if xs != [] {
      var c' := if p(xs[0]) then Bump(c, xs[0]) else c;
      assert TallyWhere(c, xs, p) == TallyWhere(c', xs[1..], p);
      TallyKeys(c', xs[1..], p);
      forall u
        ensures u in Keys(TallyWhere(c, xs, p)) <==> u in Keys(c) || (p(u) && u in xs)
      {
        KeysStep(c, xs[0], p, u);
        assert u in xs <==> u == xs[0] || u in xs[1..] by {
          assert xs == [xs[0]] + xs[1..];
        }
      }
    }
  }

  /** One step of the tally on the key list. */
  lemma KeysStep(c: Counts, x: string, p: string -> bool, u: string)
    ensures u in Keys(if p(x) then Bump(c, x) else c) <==> u in Keys(c) || (p(x) && u == x)
  {
    BumpKeys(c, x);
  }

  /** No key gets a second entry. */
  lemma {:induction false} TallyNoDup(c: Counts, xs: seq<string>, p: string -> bool)
    requires NoDup(Keys(c))
    ensures NoDup(Keys(TallyWhere(c, xs, p)))
    decreases |xs|
  {
    if xs != [] {
      var c' := if p(xs[0]) then Bump(c, xs[0]) else c;
      BumpKeys(c, xs[0]);
      if p(xs[0]) && xs[0] !in Keys(c) {
        var ks := Keys(c) + [xs[0]];
        assert forall i :: 0 <= i < |Keys(c)| ==> ks[i] == Keys(c)[i];
      }
      TallyNoDup(c', xs[1..], p);
    }
  }

  /** In a list without repeated keys, `Get` finds each entry's own count. */
  lemma {:induction false} GetOfEntry(c: Counts, i: nat)
    requires NoDup(Keys(c)) && i < |c|
    ensures Get(c, c[i].0) == c[i].1
    decreases |c|
  {
    if i > 0 {
      KeysAt(c, 0);
      KeysAt(c, i);
      assert Keys(c[1..]) == Keys(c)[1..];
      GetOfEntry(c[1..], i - 1);
    }
  }
}
