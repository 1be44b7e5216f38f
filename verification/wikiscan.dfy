/** The two link patterns the scripts search for, as hand-written scanners.

    Wiki-link, `/\[\[([^\]|]+)(?:\|[^\]]+)?\]\]/g` (gatsby-node.js) and the same
    pattern with the display text captured (scripts/package_obsidian.py):
    `[[Target]]` or `[[Target|Display]]`.

    Snippet link, `/\[[^\]]+\]\(\/snippets\/([^/)]+)\/?\)/g` (gatsby-node.js):
    `[text](/snippets/slug/)`, the trailing slash optional.

    Each matcher tries one start position the way the backtracking engine does;
    each `Is...Span` predicate states the shape of a match declaratively, and the
    two are proved to agree in both directions. The `Scan...` functions are the
    global search (`exec` in a loop, `finditer`): leftmost match, resume at its
    end. */
module WikiScan {
  import opened Wrappers
  import opened Chars

  // ---------------------------------------------------------------------------
  // Global search, for any pattern
  // ---------------------------------------------------------------------------

  /** A match `m` found at `start`. */
  datatype Hit<M> = Hit(start: nat, m: M)

  /** What a global search from `from` returns, for a pattern whose matches are the
      pairs satisfying `span` and end at `endOf`: matches at or after `from`, in
      increasing and non-overlapping order, covering every position where a match
      could have started, so none was skipped. */
  ghost predicate Scanned<M(!new)>(from: nat, hits: seq<Hit<M>>, span: (nat, M) -> bool, endOf: M -> nat) {
    && (forall i :: 0 <= i < |hits| ==>
          from <= hits[i].start < endOf(hits[i].m) && span(hits[i].start, hits[i].m))
    && (forall i, j :: 0 <= i < j < |hits| ==> endOf(hits[i].m) <= hits[j].start)
    && Covers(from, hits, span, endOf)
  }

  /** Every position at or after `from` where a match starts lies inside one of `hits`. */
  ghost predicate Covers<M(!new)>(from: nat, hits: seq<Hit<M>>, span: (nat, M) -> bool, endOf: M -> nat) {
    forall q, m :: from <= q && span(q, m) ==> Inside(hits, q, endOf)
  }

  /** Position `q` lies inside one of `hits`. */
  ghost predicate Inside<M>(hits: seq<Hit<M>>, q: nat, endOf: M -> nat)
    decreases |hits|
  {
    |hits| > 0 && (hits[0].start <= q < endOf(hits[0].m) || Inside(hits[1..], q, endOf))
  }

  /** A match at `from` followed by a scan from its end is a scan from `from`: no
      match can start inside the one just found, since the search resumes at its end. */
  lemma {:induction false} ScanStep<M(!new)>(from: nat, m: M, rest: seq<Hit<M>>, span: (nat, M) -> bool, endOf: M -> nat)
    requires from < endOf(m) && span(from, m)
    requires Scanned(endOf(m), rest, span, endOf)
    ensures Scanned(from, [Hit(from, m)] + rest, span, endOf)
  {
    var hits := [Hit(from, m)] + rest;
    forall i | 0 <= i < |hits|
      ensures from <= hits[i].start < endOf(hits[i].m) && span(hits[i].start, hits[i].m)
    {
      if i > 0 {
        assert hits[i] == rest[i - 1];
      }
    }
    forall i, j | 0 <= i < j < |hits|
      ensures endOf(hits[i].m) <= hits[j].start
    {
      assert hits[j] == rest[j - 1];
      if i > 0 {
        assert hits[i] == rest[i - 1];
      }
    }
    CoverStep(from, m, rest, span, endOf);
  }

  lemma {:induction false} CoverStep<M(!new)>(from: nat, m: M, rest: seq<Hit<M>>, span: (nat, M) -> bool, endOf: M -> nat)
    requires from < endOf(m)
    requires Covers(endOf(m), rest, span, endOf)
    ensures Covers(from, [Hit(from, m)] + rest, span, endOf)
  {
    var hits := [Hit(from, m)] + rest;
    assert hits[1..] == rest;
  }

  /** A position where no match starts adds nothing: a scan from the next position is
      a scan from this one. */
  lemma {:induction false} ScanSkip<M(!new)>(from: nat, rest: seq<Hit<M>>, span: (nat, M) -> bool, endOf: M -> nat)
    requires forall m :: !span(from, m)
    requires Scanned(from + 1, rest, span, endOf)
    ensures Scanned(from, rest, span, endOf)
  {
  }

  /** A position inside `hits` lies in the span of one of them. */
  lemma {:induction false} InsideWitness<M>(hits: seq<Hit<M>>, q: nat, endOf: M -> nat)
    requires Inside(hits, q, endOf)
    ensures exists i :: 0 <= i < |hits| && hits[i].start <= q < endOf(hits[i].m)
    decreases |hits|
  {
    if !(hits[0].start <= q < endOf(hits[0].m)) {
      InsideWitness(hits[1..], q, endOf);
      var i :| 0 <= i < |hits[1..]| && hits[1..][i].start <= q < endOf(hits[1..][i].m);
      assert hits[i + 1] == hits[1..][i];
    }
  }

  predicate InWikiTarget(c: char) { c != ']' && c != '|' }
  predicate NotCloseBracket(c: char) { c != ']' }
  predicate InSnippetSlug(c: char) { c != '/' && c != ')' }

  // ---------------------------------------------------------------------------
  // Wiki-links
  // ---------------------------------------------------------------------------

  /** One wiki-link match: the raw (unstripped) target, the raw display text when
      there is a `|`, and the index just past the closing `]]`. */
  datatype WikiMatch = WikiMatch(target: string, display: Option<string>, end: nat)

  /** A wiki-link with exactly these parts starts at `p` and ends at `m.end`:
      `[[`, the target, then either `]]` or `|`, the display text and `]]`. */
  predicate IsWikiSpan(s: string, p: nat, m: WikiMatch) {
    var k := p + 2 + |m.target|;
    && k + 2 <= m.end <= |s|
    && s[p] == '[' && s[p + 1] == '['
    && |m.target| > 0
    && (forall i :: p + 2 <= i < k ==> InWikiTarget(s[i]))
    && s[p + 2..k] == m.target
    && s[m.end - 2] == ']' && s[m.end - 1] == ']'
    && match m.display
       case None => m.end == k + 2
       case Some(d) =>
         && |d| > 0
         && m.end == k + 3 + |d|
         && (forall i :: k + 1 <= i < k + 1 + |d| ==> NotCloseBracket(s[i]))
         && s[k] == '|'
         && s[k + 1..k + 1 + |d|] == d
  }

  /** The text of a wiki-link span, written out. */
  lemma WikiSpanText(s: string, p: nat, m: WikiMatch)
    requires IsWikiSpan(s, p, m)
    ensures m.display.None? ==> s[p..m.end] == "[[" + m.target + "]]"
    ensures m.display.Some? ==> s[p..m.end] == "[[" + m.target + "|" + m.display.value + "]]"
  {
    var k := p + 2 + |m.target|;
    var e := m.end;
    assert s[p..p + 2] == "[[";
    assert s[e - 2..e] == "]]" by {
      assert s[e - 2..e][0] == s[e - 2];
    }
    if m.display.Some? {
      assert s[k..k + 1] == "|";
      JoinWithDisplay(s, p, k, e, m.target, m.display.value);
    } else {
      JoinPlain(s, p, k, e, m.target);
    }
  }

  /** `[[`, the target, `|`, the display text and `]]`, side by side in `s`. */
  lemma JoinWithDisplay(s: string, p: nat, k: nat, e: nat, t: string, d: string)
    requires p + 2 <= k && k + 1 <= e - 2 && e <= |s|
    requires s[p..p + 2] == "[[" && s[p + 2..k] == t && s[k..k + 1] == "|"
    requires s[k + 1..e - 2] == d && s[e - 2..e] == "]]"
    ensures s[p..e] == "[[" + t + "|" + d + "]]"
  {
    SliceSplit(s, p, p + 2, e);
    SliceSplit(s, p + 2, k, e);
    SliceSplit(s, k, k + 1, e);
    SliceSplit(s, k + 1, e - 2, e);
  }

  /** `[[`, the target and `]]`, side by side in `s`. */
  lemma JoinPlain(s: string, p: nat, k: nat, e: nat, t: string)
    requires p + 2 <= k && k + 2 == e <= |s|
    requires s[p..p + 2] == "[[" && s[p + 2..k] == t && s[e - 2..e] == "]]"
    ensures s[p..e] == "[[" + t + "]]"
  {
    SliceSplit(s, p, p + 2, e);
    SliceSplit(s, p + 2, k, e);
  }

  /** The regex tried at position `p` alone. The target is the longest run of
      characters other than `]` and `|` (a shorter one is never followed by `|` or
      `]`), and likewise the display text is the longest run without `]`. */
  function MatchWikiAt(s: string, p: nat): (r: Option<WikiMatch>)
    requires p <= |s|
    ensures r.Some? ==> p + 5 <= r.value.end && IsWikiSpan(s, p, r.value)
  {
    if p + 2 <= |s| && s[p] == '[' && s[p + 1] == '[' then
      var k := RunEnd(s, p + 2, InWikiTarget);
      if k == p + 2 then None
      else if k + 2 <= |s| && s[k] == ']' && s[k + 1] == ']' then
        Some(WikiMatch(s[p + 2..k], None, k + 2))
      else if k < |s| && s[k] == '|' then
        var m := RunEnd(s, k + 1, NotCloseBracket);
        if m > k + 1 && m + 2 <= |s| && s[m + 1] == ']' then
          Some(WikiMatch(s[p + 2..k], Some(s[k + 1..m]), m + 2))
        else None
      else None
    else None
  }

  /** Completeness: whenever a wiki-link of some shape starts at `p`, the matcher
      finds exactly that one (so the shape at a position is unique). */
  lemma MatchWikiComplete(s: string, p: nat, m: WikiMatch)
    requires IsWikiSpan(s, p, m)
    ensures MatchWikiAt(s, p) == Some(m)
  {
    var t := m.target;
    var k := p + 2 + |t|;
    RunEndUnique(s, p + 2, k, InWikiTarget);
    if m.display.Some? {
      var d := m.display.value;
      RunEndUnique(s, k + 1, k + 1 + |d|, NotCloseBracket);
    }
  }

  /** The wiki-link regex as a predicate on (start, match), for the global search. */
  function WikiSpans(s: string): (nat, WikiMatch) -> bool {
    (p: nat, m: WikiMatch) => IsWikiSpan(s, p, m)
  }

  function WikiEnd(m: WikiMatch): nat { m.end }

  /** A position where the matcher fails starts no wiki-link. */
  lemma NoWikiAt(s: string, p: nat)
    requires p <= |s| && MatchWikiAt(s, p).None?
    ensures forall m :: !IsWikiSpan(s, p, m)
  {
    forall m | IsWikiSpan(s, p, m)
      ensures false
    {
      MatchWikiComplete(s, p, m);
    }
  }

  /** `regex.exec` in a loop from `from` (gatsby-node.js), `re.finditer`
      (scripts/package_obsidian.py): every wiki-link, leftmost first, none skipped. */
  function ScanWiki(s: string, from: nat): (hits: seq<Hit<WikiMatch>>)
    requires from <= |s|
    ensures Scanned(from, hits, WikiSpans(s), WikiEnd)
    decreases |s| - from
  {
    if from == |s| then []
    else
      match MatchWikiAt(s, from)
      case Some(m) =>
        var rest := ScanWiki(s, m.end);
        ScanStep(from, m, rest, WikiSpans(s), WikiEnd);
        [Hit(from, m)] + rest
      case None =>
        var rest := ScanWiki(s, from + 1);
        NoWikiAt(s, from);
        ScanSkip(from, rest, WikiSpans(s), WikiEnd);
        rest
  }

  // ---------------------------------------------------------------------------
  // Markdown links to snippets
  // ---------------------------------------------------------------------------

  /** One snippet-link match: link text, slug, whether the optional `/` was present,
      and the index just past the closing `)`. */
  datatype SnippetMatch = SnippetMatch(text: string, slug: string, slash: bool, end: nat)

  const SnippetsInfix: string := "](/snippets/"

  /** A snippet link with exactly these parts starts at `p` and ends at `m.end`:
      `[`, the text, `](/snippets/`, the slug, then `)` or `/)`. */
  predicate IsSnippetSpan(s: string, p: nat, m: SnippetMatch) {
    var k := p + 1 + |m.text|;
    var e := k + 12 + |m.slug|;
    && m.end == e + (if m.slash then 2 else 1) <= |s|
    && s[p] == '['
    && |m.text| > 0
    && (forall i :: p + 1 <= i < k ==> NotCloseBracket(s[i]))
    && s[p + 1..k] == m.text
    && s[k..k + 12] == SnippetsInfix
    && |m.slug| > 0
    && (forall i :: k + 12 <= i < e ==> InSnippetSlug(s[i]))
    && s[k + 12..e] == m.slug
    && (if m.slash then s[e] == '/' && s[e + 1] == ')' else s[e] == ')')
  }

  /** The snippet-link regex tried at position `p` alone. */
  function MatchSnippetAt(s: string, p: nat): (r: Option<SnippetMatch>)
    requires p <= |s|
    ensures r.Some? ==> p + 15 <= r.value.end && IsSnippetSpan(s, p, r.value)
  {
    if p < |s| && s[p] == '[' then
      var k := RunEnd(s, p + 1, NotCloseBracket);
      if k > p + 1 && OccursAt(s, SnippetsInfix, k) then
        var m := RunEnd(s, k + 12, InSnippetSlug);
        if m == k + 12 then None
        else if m < |s| && s[m] == ')' then
          Some(SnippetMatch(s[p + 1..k], s[k + 12..m], false, m + 1))
        else if m + 1 < |s| && s[m] == '/' && s[m + 1] == ')' then
          Some(SnippetMatch(s[p + 1..k], s[k + 12..m], true, m + 2))
        else None
      else None
    else None
  }

  /** Completeness: whenever a snippet link starts at `p`, the matcher finds exactly it. */
  lemma MatchSnippetComplete(s: string, p: nat, m: SnippetMatch)
    requires IsSnippetSpan(s, p, m)
    ensures MatchSnippetAt(s, p) == Some(m)
  {
    var k := p + 1 + |m.text|;
    var e := k + 12 + |m.slug|;
    assert s[k] == s[k..k + 12][0];
    RunEndUnique(s, p + 1, k, NotCloseBracket);
    RunEndUnique(s, k + 12, e, InSnippetSlug);
    MatchSnippetAtRuns(s, p, k, e, m.slash);
  }

  /** The matcher's verdict once the two runs it measures are known. */
  lemma MatchSnippetAtRuns(s: string, p: nat, k: nat, e: nat, slash: bool)
    requires p < |s| && s[p] == '['
    requires p + 1 < k && RunEnd(s, p + 1, NotCloseBracket) == k
    requires OccursAt(s, SnippetsInfix, k)
    requires k + 12 < e && RunEnd(s, k + 12, InSnippetSlug) == e
    requires e + (if slash then 2 else 1) <= |s|
    requires if slash then s[e] == '/' && s[e + 1] == ')' else s[e] == ')'
    ensures MatchSnippetAt(s, p) == Some(SnippetMatch(s[p + 1..k], s[k + 12..e], slash, e + (if slash then 2 else 1)))
  {
    if slash {
      assert s[e] != ')';
    }
  }

  function SnippetSpans(s: string): (nat, SnippetMatch) -> bool {
    (p: nat, m: SnippetMatch) => IsSnippetSpan(s, p, m)
  }

  function SnippetEnd(m: SnippetMatch): nat { m.end }

  /** A position where the matcher fails starts no snippet link. */
  lemma NoSnippetAt(s: string, p: nat)
    requires p <= |s| && MatchSnippetAt(s, p).None?
    ensures forall m :: !IsSnippetSpan(s, p, m)
  {
    forall m | IsSnippetSpan(s, p, m)
      ensures false
    {
      MatchSnippetComplete(s, p, m);
    }
  }

  /** The global search for snippet links (gatsby-node.js). */
  function ScanSnippets(s: string, from: nat): (hits: seq<Hit<SnippetMatch>>)
    requires from <= |s|
    ensures Scanned(from, hits, SnippetSpans(s), SnippetEnd)
    decreases |s| - from
  {
    if from == |s| then []
    else
      match MatchSnippetAt(s, from)
      case Some(m) =>
        var rest := ScanSnippets(s, m.end);
        ScanStep(from, m, rest, SnippetSpans(s), SnippetEnd);
        [Hit(from, m)] + rest
      case None =>
        var rest := ScanSnippets(s, from + 1);
        NoSnippetAt(s, from);
        ScanSkip(from, rest, SnippetSpans(s), SnippetEnd);
        rest
  }
}
