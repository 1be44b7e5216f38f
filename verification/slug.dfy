/** `slugify`, which gatsby-node.js and scripts/package_obsidian.py define
    identically: lower-case, turn every run of characters outside `[a-z0-9]`
    into one `-`, then drop leading and trailing `-`. */
module Slug {
  import opened Chars

  predicate IsDash(c: char) { c == '-' }
  predicate IsSlugChar(c: char) { IsAsciiLowerAlnum(c) || c == '-' }
  predicate NotLowerAlnum(c: char) { !IsAsciiLowerAlnum(c) }

  /** A well-formed slug: only `[a-z0-9-]`, no `-` at either end, no `--`. */
  predicate IsSlug(s: string) {
    && (forall k :: 0 <= k < |s| ==> IsSlugChar(s[k]))
    && (s == [] || (s[0] != '-' && s[|s| - 1] != '-'))
    && (forall k :: 0 <= k < |s| - 1 ==> !(s[k] == '-' && s[k + 1] == '-'))
  }

  /** `.replace(/[^a-z0-9]+/g, "-")`: each maximal run of other characters becomes one `-`. */
  function CollapseRuns(s: string): (r: string)
    ensures forall k :: 0 <= k < |r| ==> IsSlugChar(r[k])
    ensures forall k :: 0 <= k < |r| - 1 ==> !(r[k] == '-' && r[k + 1] == '-')
    ensures s == [] <==> r == []
    ensures s != [] ==> (r[0] == '-' <==> !IsAsciiLowerAlnum(s[0]))
    ensures Keep(r, IsAsciiLowerAlnum) == Keep(s, IsAsciiLowerAlnum)
    decreases |s|
  {
    if s == [] then []
    else if IsAsciiLowerAlnum(s[0]) then
      var rest := CollapseRuns(s[1..]);
      KeepAlnumHead(s, rest);
      [s[0]] + rest
    else
      var e := RunEnd(s, 0, NotLowerAlnum);
      var rest := CollapseRuns(s[e..]);
      KeepDashHead(s, e, rest);
      "-" + rest
  }

  /** The `Keep` step of `CollapseRuns` for a letter or digit in front. */
  lemma KeepAlnumHead(s: string, rest: string)
    requires s != [] && IsAsciiLowerAlnum(s[0])
    requires Keep(rest, IsAsciiLowerAlnum) == Keep(s[1..], IsAsciiLowerAlnum)
    ensures Keep([s[0]] + rest, IsAsciiLowerAlnum) == Keep(s, IsAsciiLowerAlnum)
  {
    assert s == [s[0]] + s[1..];
    KeepConcat([s[0]], s[1..], IsAsciiLowerAlnum);
    KeepConcat([s[0]], rest, IsAsciiLowerAlnum);
  }

  /** The `Keep` step of `CollapseRuns` for a run of other characters in front. */
  lemma KeepDashHead(s: string, e: nat, rest: string)
    requires e <= |s| && forall k :: 0 <= k < e ==> NotLowerAlnum(s[k])
    requires Keep(rest, IsAsciiLowerAlnum) == Keep(s[e..], IsAsciiLowerAlnum)
    ensures Keep("-" + rest, IsAsciiLowerAlnum) == Keep(s, IsAsciiLowerAlnum)
  {
    assert s == s[..e] + s[e..];
    KeepConcat(s[..e], s[e..], IsAsciiLowerAlnum);
    KeepNone(s[..e], IsAsciiLowerAlnum);
    KeepConcat("-", rest, IsAsciiLowerAlnum);
  }

  /** `.replace(/^-+|-+$/g, "")` (JavaScript) and `.strip('-')` (Python). */
  function TrimDashes(s: string): string {
    Strip(s, IsDash)
  }

  /** The slug of `text`. */
  function Slugify(text: string): string {
    TrimDashes(CollapseRuns(Lower(text)))
  }

  /** Every slugify result is a well-formed slug. */
  lemma SlugifyIsSlug(text: string)
    ensures IsSlug(Slugify(text))
  {
    TrimKeepsNoDoubleDash(CollapseRuns(Lower(text)));
  }

  /** Trimming the dashes off the ends keeps a string free of `--`. */
  lemma TrimKeepsNoDoubleDash(r: string)
    requires NoDoubleDash(r)
    ensures NoDoubleDash(TrimDashes(r))
  {
    StripKeeps(r, IsDash, IsSlugChar);
    var b := StripBounds(r, IsDash);
    var t := TrimDashes(r);
    forall k | 0 <= k < |t| - 1
      ensures !(t[k] == '-' && t[k + 1] == '-')
    {
      assert t[k] == r[b.0 + k] && t[k + 1] == r[b.0 + k + 1];
    }
  }

  /** Slugify changes nothing in a string that is already a slug. */
  lemma {:induction false} SlugifyFixesSlugs(s: string)
    requires IsSlug(s)
    ensures Slugify(s) == s
  {
    LowerOfSlugChars(s);
    CollapseRunsOfSlug(s);
    var b := StripBounds(s, IsDash);
    if s != [] {
      assert b.0 == 0;
      assert RunStartBack(s, |s|, IsDash) == |s|;
    }
  }

  lemma LowerOfSlugChars(s: string)
    requires forall k :: 0 <= k < |s| ==> IsSlugChar(s[k])
    ensures Lower(s) == s
  {
  }

  /** A string of slug characters without `--` is left as it is by `CollapseRuns`. */
  lemma {:induction false} CollapseRunsOfSlug(s: string)
    requires NoDoubleDash(s)
    ensures CollapseRuns(s) == s
    decreases |s|
  {
    if s != [] {
      NoDoubleDashTail(s);
      CollapseRunsOfSlug(s[1..]);
      CollapseRunsHead(s);
    }
  }

  /** Only slug characters, and no `--`. */
  predicate NoDoubleDash(s: string) {
    && (forall k :: 0 <= k < |s| ==> IsSlugChar(s[k]))
    && (forall k :: 0 <= k < |s| - 1 ==> !(s[k] == '-' && s[k + 1] == '-'))
  }

  lemma NoDoubleDashTail(s: string)
    requires s != [] && NoDoubleDash(s)
    ensures NoDoubleDash(s[1..])
  {
    assert forall k :: 0 <= k < |s| - 1 ==> s[1..][k] == s[k + 1];
  }

  /** The first step of `CollapseRuns` on such a string keeps its head. */
  lemma CollapseRunsHead(s: string)
    requires s != [] && NoDoubleDash(s)
    ensures CollapseRuns(s) == [s[0]] + CollapseRuns(s[1..])
  {
    if !IsAsciiLowerAlnum(s[0]) {
      assert s[0] == '-';
      assert |s| > 1 ==> !NotLowerAlnum(s[1]);
      RunEndUnique(s, 0, 1, NotLowerAlnum);
    }
  }

  /** A string that ends in a letter or digit collapses on its own: no run of other
      characters reaches across its end. */
  lemma {:induction false} CollapseRunsSplit(u: string, v: string)
    requires u == [] || IsAsciiLowerAlnum(u[|u| - 1])
    ensures CollapseRuns(u + v) == CollapseRuns(u) + CollapseRuns(v)
    decreases |u|
  {
    if u == [] {
      assert u + v == v;
    } else if IsAsciiLowerAlnum(u[0]) {
      var s := u + v;
      assert s[1..] == u[1..] + v;
      CollapseRunsSplit(u[1..], v);
      CollapseRunsAlnumStep(s);
      CollapseRunsAlnumStep(u);
      HeadThenSplit([u[0]], CollapseRuns(s), CollapseRuns(s[1..]), CollapseRuns(u), CollapseRuns(u[1..]), CollapseRuns(v));
    } else {
      var s := u + v;
      var e := RunEnd(u, 0, NotLowerAlnum);
      assert e < |u| by {
        assert !NotLowerAlnum(u[|u| - 1]);
      }
      RunEndUnique(s, 0, e, NotLowerAlnum);
      assert s[e..] == u[e..] + v;
      CollapseRunsSplit(u[e..], v);
      CollapseRunsRunStep(s, e);
      CollapseRunsRunStep(u, e);
      HeadThenSplit("-", CollapseRuns(s), CollapseRuns(s[e..]), CollapseRuns(u), CollapseRuns(u[e..]), CollapseRuns(v));
    }
  }

  /** One step of `CollapseRuns` at a letter or digit. */
  lemma CollapseRunsAlnumStep(s: string)
    requires s != [] && IsAsciiLowerAlnum(s[0])
    ensures CollapseRuns(s) == [s[0]] + CollapseRuns(s[1..])
  {
  }

  /** One step of `CollapseRuns` at a run of other characters that ends at `e`. */
  lemma CollapseRunsRunStep(s: string, e: nat)
    requires s != [] && !IsAsciiLowerAlnum(s[0]) && e == RunEnd(s, 0, NotLowerAlnum)
    ensures CollapseRuns(s) == "-" + CollapseRuns(s[e..])
  {
  }

  /** A whole run of characters other than `[a-z0-9]` becomes exactly one `-`. */
  lemma CollapseRunsRun(w: string, v: string)
    requires w != [] && forall k :: 0 <= k < |w| ==> NotLowerAlnum(w[k])
    requires v == [] || IsAsciiLowerAlnum(v[0])
    ensures CollapseRuns(w + v) == "-" + CollapseRuns(v)
  {
    var s := w + v;
    RunEndUnique(s, 0, |w|, NotLowerAlnum);
    assert s[|w|..] == v;
    CollapseRunsRunStep(s, |w|);
  }

  /** The separator between two pieces: a run of other characters between a letter or
      digit (or the start) and a letter or digit (or the end) turns into one `-`, and
      the pieces on either side collapse on their own. Nothing is deleted. */
  lemma CollapseRunsSeparator(u: string, w: string, v: string)
    requires u == [] || IsAsciiLowerAlnum(u[|u| - 1])
    requires w != [] && forall k :: 0 <= k < |w| ==> NotLowerAlnum(w[k])
    requires v == [] || IsAsciiLowerAlnum(v[0])
    ensures CollapseRuns(u + w + v) == CollapseRuns(u) + "-" + CollapseRuns(v)
  {
    var t := w + v;
    ConcatAssoc(u, w, v);
    CollapseRunsSplit(u, t);
    CollapseRunsRun(w, v);
    SplitThenHead(CollapseRuns(u + w + v), CollapseRuns(u), CollapseRuns(t), "-", CollapseRuns(v));
  }

  /** Two lower-case words around a run of characters that are neither letters nor
      digits slugify to the words joined by one `-`. */
  lemma SlugifyJoinsWords(a: string, w: string, b: string)
    requires a != [] && forall k :: 0 <= k < |a| ==> IsAsciiLowerAlnum(a[k])
    requires w != [] && forall k :: 0 <= k < |w| ==> !IsAsciiAlnum(w[k])
    requires b != [] && forall k :: 0 <= k < |b| ==> IsAsciiLowerAlnum(b[k])
    ensures Slugify(a + w + b) == a + "-" + b
  {
    var s := a + w + b;
    assert Lower(s) == s;
    CollapseRunsSeparator(a, w, b);
    CollapseRunsOfSlug(a);
    CollapseRunsOfSlug(b);
    StripOfClean(a + "-" + b, IsDash);
  }

  /** `slugify(slugify(x)) == slugify(x)`. */
  lemma SlugifyIdempotent(text: string)
    ensures Slugify(Slugify(text)) == Slugify(text)
  {
    SlugifyIsSlug(text);
    SlugifyFixesSlugs(Slugify(text));
  }

  /** Trimming dashes removes no letter or digit. */
  lemma KeepTrimDashes(r: string)
    ensures Keep(TrimDashes(r), IsAsciiLowerAlnum) == Keep(r, IsAsciiLowerAlnum)
  {
    KeepStrip(r, IsDash, IsAsciiLowerAlnum);
  }

  /** The letters and digits of the lower-cased input survive, in order; slugify only
      turns the rest into single dashes between them. */
  lemma SlugifyKeepsAlnum(text: string)
    ensures Keep(Slugify(text), IsAsciiLowerAlnum) == Keep(Lower(text), IsAsciiLowerAlnum)
  {
    KeepTrimDashes(CollapseRuns(Lower(text)));
  }

  /** The slug is empty exactly when the text has no ASCII letter or digit. */
  lemma SlugifyEmptyIff(text: string)
    ensures Slugify(text) == [] <==> Keep(Lower(text), IsAsciiLowerAlnum) == []
  {
    SlugifyKeepsAlnum(text);
    SlugifyIsSlug(text);
    if Slugify(text) != [] {
      SlugHasAlnum(Slugify(text));
    }
  }

  /** A non-empty slug starts with a letter or digit. */
  lemma SlugHasAlnum(t: string)
    requires IsSlug(t) && t != []
    ensures Keep(t, IsAsciiLowerAlnum) != []
  {
    assert t == [t[0]] + t[1..];
    KeepConcat([t[0]], t[1..], IsAsciiLowerAlnum);
  }
}
