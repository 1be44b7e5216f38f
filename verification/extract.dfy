/** What gatsby-node.js reads out of one content file: its link keys
    (`extractWikiLinks`), its frontmatter tags (`extractTags`) and its title (the
    `title:` pattern in `processContentDir`). Each regular expression is a scanner
    that settles on the same match the backtracking engine does. */
module Extract {
  import opened Wrappers
  import opened Chars
  import opened Seqs
  import opened WikiScan

  // ---------------------------------------------------------------------------
  // Link keys
  // ---------------------------------------------------------------------------

  const SnippetPrefix: string := "snippet:"

  /** The key a `[text](/snippets/<slug>/)` link contributes. */
  function SnippetKey(slug: string): string { SnippetPrefix + slug }

  /** The trimmed target of each wiki-link found, in order. */
  function WikiKeys(hits: seq<Hit<WikiMatch>>): seq<string> {
    seq(|hits|, i requires 0 <= i < |hits| => JsTrim(hits[i].m.target))
  }

  /** `snippet:<slug>` for each snippet link found, in order. */
  function SnippetKeys(hits: seq<Hit<SnippetMatch>>): seq<string> {
    seq(|hits|, i requires 0 <= i < |hits| => SnippetKey(hits[i].m.slug))
  }

  /** The keys without repeats, each where it first occurs (`[...new Set(links)]`),
      from the wiki-link keys followed by the snippet-link keys. */
  function LinkKeys(wiki: seq<Hit<WikiMatch>>, snip: seq<Hit<SnippetMatch>>): (r: seq<string>)
    ensures NoDup(r)
    ensures forall x :: x in r <==> x in WikiKeys(wiki) + SnippetKeys(snip)
  {
    Dedup(WikiKeys(wiki) + SnippetKeys(snip))
  }

  /** `extractWikiLinks`. */
  function ExtractWikiLinks(content: string): seq<string> {
    LinkKeys(ScanWiki(content, 0), ScanSnippets(content, 0))
  }

  /** Every key `extractWikiLinks` returns comes from a wiki-link span or a snippet-link
      span of the text, and no key repeats. */
  lemma ExtractWikiLinksFromSpans(content: string, x: string)
    ensures NoDup(ExtractWikiLinks(content))
    ensures x in ExtractWikiLinks(content) ==>
      (exists p: nat, m :: IsWikiSpan(content, p, m) && x == JsTrim(m.target)) ||
      (exists p: nat, m :: IsSnippetSpan(content, p, m) && x == SnippetKey(m.slug))
  {
    var wiki := ScanWiki(content, 0);
    var snip := ScanSnippets(content, 0);
    KeysOfHits(wiki, snip, x);
    if x in ExtractWikiLinks(content) {
      if exists i :: 0 <= i < |wiki| && x == JsTrim(wiki[i].m.target) {
        var i :| 0 <= i < |wiki| && x == JsTrim(wiki[i].m.target);
        assert WikiSpans(content)(wiki[i].start, wiki[i].m);
      } else {
        var i :| 0 <= i < |snip| && x == SnippetKey(snip[i].m.slug);
        assert SnippetSpans(content)(snip[i].start, snip[i].m);
      }
    }
  }

  /** A wiki-link at the very start of the text gives its trimmed target as a key. */
  lemma LeadingWikiLinkKept(content: string)
    requires MatchWikiAt(content, 0).Some?
    ensures JsTrim(MatchWikiAt(content, 0).value.target) in ExtractWikiLinks(content)
  {
    var m := MatchWikiAt(content, 0).value;
    var wiki := ScanWiki(content, 0);
    assert wiki[0] == Hit(0, m);
    KeysOfHits(wiki, ScanSnippets(content, 0), JsTrim(m.target));
  }

  /** The link keys are duplicate-free, and a string is a key exactly when it is the
      trimmed target of a wiki-link found or `snippet:` and the slug of a snippet link
      found. */
  lemma KeysOfHits(wiki: seq<Hit<WikiMatch>>, snip: seq<Hit<SnippetMatch>>, x: string)
    ensures NoDup(LinkKeys(wiki, snip))
    ensures x in LinkKeys(wiki, snip) <==>
      (exists i :: 0 <= i < |wiki| && x == JsTrim(wiki[i].m.target)) ||
      (exists i :: 0 <= i < |snip| && x == SnippetKey(snip[i].m.slug))
  {
    InWikiKeys(wiki, x);
    InSnippetKeys(snip, x);
    assert x in WikiKeys(wiki) + SnippetKeys(snip) <==> x in WikiKeys(wiki) || x in SnippetKeys(snip);
  }

  lemma InWikiKeys(wiki: seq<Hit<WikiMatch>>, x: string)
    ensures x in WikiKeys(wiki) <==> exists i :: 0 <= i < |wiki| && x == JsTrim(wiki[i].m.target)
  {
    if x in WikiKeys(wiki) {
      var i :| 0 <= i < |wiki| && WikiKeys(wiki)[i] == x;
    }
    if exists i :: 0 <= i < |wiki| && x == JsTrim(wiki[i].m.target) {
      var i :| 0 <= i < |wiki| && x == JsTrim(wiki[i].m.target);
      assert WikiKeys(wiki)[i] == x;
    }
  }

  lemma InSnippetKeys(snip: seq<Hit<SnippetMatch>>, x: string)
    ensures x in SnippetKeys(snip) <==> exists i :: 0 <= i < |snip| && x == SnippetKey(snip[i].m.slug)
  {
    if x in SnippetKeys(snip) {
      var i :| 0 <= i < |snip| && SnippetKeys(snip)[i] == x;
    }
    if exists i :: 0 <= i < |snip| && x == SnippetKey(snip[i].m.slug) {
      var i :| 0 <= i < |snip| && x == SnippetKey(snip[i].m.slug);
      assert SnippetKeys(snip)[i] == x;
    }
  }

  /** A wiki-link key is trimmed and holds neither `]` nor `|`. */
  lemma WikiKeyShape(content: string, p: nat, m: WikiMatch)
    requires IsWikiSpan(content, p, m)
    ensures JsTrim(JsTrim(m.target)) == JsTrim(m.target)
    ensures forall i :: 0 <= i < |JsTrim(m.target)| ==> InWikiTarget(JsTrim(m.target)[i])
  {
    KnownOfAll(content, p + 2, m.target, InWikiTarget);
    TrimmedTarget(m.target);
  }

  /** A target made of characters other than `]` and `|` keeps that shape when
      trimmed. */
  lemma TrimmedTarget(t: string)
    requires forall k :: 0 <= k < |t| ==> InWikiTarget(t[k])
    ensures JsTrim(JsTrim(t)) == JsTrim(t)
    ensures forall i :: 0 <= i < |JsTrim(t)| ==> InWikiTarget(JsTrim(t)[i])
  {
    StripIdempotent(t, IsJsSpace);
    StripKeeps(t, IsJsSpace, InWikiTarget);
  }

  // ---------------------------------------------------------------------------
  // Frontmatter and tags
  // ---------------------------------------------------------------------------

  const Fence: string := "\n---"

  /** `^---\n([\s\S]*?)\n---`: the text after the opening `---` line up to the first
      `\n---` that follows it. */
  function FrontmatterBlock(content: string): (r: Option<string>)
    ensures r.Some? ==> StartsWith(content, "---\n")
    ensures r.Some? ==> 4 + |r.value| <= |content| && content[4..4 + |r.value|] == r.value
    ensures r.Some? ==> OccursAt(content, Fence, 4 + |r.value|)
    ensures r.Some? ==> forall k :: 4 <= k < 4 + |r.value| ==> !OccursAt(content, Fence, k)
    ensures r.None? ==> !StartsWith(content, "---\n") || forall k :: 4 <= k ==> !OccursAt(content, Fence, k)
  {
    if StartsWith(content, "---\n") then
      match Find(content, Fence, 4)
      case Some(i) => Some(content[4..i])
      case None => None
    else None
  }

  predicate IsNewline(c: char) { c == '\n' }

  /** `-\s*.+` tried at the `-` at `y`: the end of the match. `\s*` takes the whole
      whitespace run when something follows it; at the end of the text it gives
      whitespace back until `.` finds one character that is not a line terminator. */
  function DashLineEnd(s: string, y: nat): (r: Option<nat>)
    requires y < |s| && s[y] == '-'
    ensures r.Some? ==> y + 2 <= r.value <= |s|
    ensures r.Some? ==> NotLineTerminator(s[r.value - 1])
    ensures r.Some? ==> r.value == |s| || IsJsLineTerminator(s[r.value])
    ensures r.None? <==> forall k :: y < k < |s| ==> IsJsLineTerminator(s[k])
  {
    var z := RunEnd(s, y + 1, IsJsSpace);
    if z < |s| then
      Some(RunEnd(s, z, NotLineTerminator))
    else
      match LastWhere(s, y + 1, z, NotLineTerminator)
      case Some(u) => Some(RunEnd(s, u, NotLineTerminator))
      case None => None
  }

  /** One repetition of `(?:\s*-\s*.+\n?)` at `x`: where it ends. */
  function ItemEnd(s: string, x: nat): (r: Option<nat>)
    requires x <= |s|
    ensures r.Some? ==> x + 2 <= r.value <= |s|
  {
    var y := RunEnd(s, x, IsJsSpace);
    if y < |s| && s[y] == '-' then
      match DashLineEnd(s, y)
      case Some(v) => Some(if v < |s| && s[v] == '\n' then v + 1 else v)
      case None => None
    else None
  }

  /** Further greedy repetitions from `x`: the group stops at the first one that fails. */
  function ItemsEnd(s: string, x: nat): (e: nat)
    requires x <= |s|
    ensures x <= e <= |s|
    ensures ItemEnd(s, e).None?
    decreases |s| - x
  {
    match ItemEnd(s, x)
    case Some(e) => ItemsEnd(s, e)
    case None => x
  }

  /** `tags:` in any case at `p`. */
  predicate TagsKeyAt(s: string, p: nat) {
    p + 5 <= |s| && Lower(s[p..p + 5]) == "tags:"
  }

  /** `tags:\s*\n((?:\s*-\s*.+\n?)+)` (case-insensitive) tried at `p`: the captured
      list. `\s*\n` settles on the last newline of the whitespace after `tags:`;
      whichever newline it picks, the list that follows starts at the same `-`. */
  function TagsAt(s: string, p: nat): (r: Option<string>)
    requires p <= |s|
    ensures r.Some? ==> TagsKeyAt(s, p) && r.value != []
  {
    if TagsKeyAt(s, p) then
      var w := RunEnd(s, p + 5, IsJsSpace);
      match LastWhere(s, p + 5, w, IsNewline)
      case None => None
      case Some(n) =>
        match ItemEnd(s, n + 1)
        case None => None
        case Some(e) => Some(s[n + 1..ItemsEnd(s, e)])
    else None
  }

  /** Where the leftmost `tags:` list match starts. */
  function FirstTagsAt(s: string, p: nat): (r: Option<nat>)
    requires p <= |s|
    ensures r.Some? ==> p <= r.value <= |s| && TagsAt(s, r.value).Some?
    ensures r.Some? ==> forall k :: p <= k < r.value ==> TagsAt(s, k).None?
    ensures r.None? ==> forall k :: p <= k <= |s| ==> TagsAt(s, k).None?
    decreases |s| - p
  {
    if TagsAt(s, p).Some? then Some(p)
    else if p == |s| then None
    else FirstTagsAt(s, p + 1)
  }

  /** `frontmatter.match(...)`: the list of the leftmost `tags:` match. */
  function TagsBlock(fm: string): Option<string> {
    match FirstTagsAt(fm, 0)
    case Some(p) => TagsAt(fm, p)
    case None => None
  }

  /** The pattern `-\s*.+` matches at `k`. */
  predicate DashMatchAt(g: string, k: nat) {
    k < |g| && g[k] == '-' && DashLineEnd(g, k).Some?
  }

  /** `.match(/-\s*(.+)/g)`: every match of the whole pattern, leftmost first,
      resuming at the end of each. */
  function DashLines(g: string, x: nat): (lines: seq<string>)
    requires x <= |g|
    ensures forall i :: 0 <= i < |lines| ==> |lines[i]| >= 2 && lines[i][0] == '-'
    decreases |g| - x
  {
    if x == |g| then []
    else if g[x] == '-' then
      match DashLineEnd(g, x)
      case Some(v) =>
        assert DashMatchAt(g, x);
        [g[x..v]] + DashLines(g, v)
      case None => DashLines(g, x + 1)
    else DashLines(g, x + 1)
  }

  /** The tag a line names: its leading `-` and the whitespace after it removed
      (`replace` with `^-\s*`), then `trim()` and `toLowerCase()`. */
  function TagOfLine(line: string): (t: string)
    ensures JsTrim(t) == t
    ensures Lower(t) == t
  {
    var rest := if line != [] && line[0] == '-' then line[RunEnd(line, 1, IsJsSpace)..] else line;
    var trimmed := JsTrim(rest);
    StripIdempotent(rest, IsJsSpace);
    LowerKeepsTrimmed(trimmed);
    LowerIdempotent(trimmed);
    Lower(trimmed)
  }

  /** `/^-+$/`: one or more dashes and nothing else. */
  predicate AllDashes(t: string) {
    t != [] && forall i :: 0 <= i < |t| ==> t[i] == '-'
  }

  /** The tags always filtered out. */
  const FilteredTags: seq<string> := ["personal", "insights"]

  /** The filter of `extractTags`: longer than one UTF-16 unit, not only dashes, not
      `loading` in any case, not a filtered tag. */
  predicate KeepTag(t: string) {
    && Utf16Length(t) > 1
    && !AllDashes(t)
    && Lower(t) != "loading"
    && t !in FilteredTags
  }

  /** The cleaned line of each `-` entry of the `tags:` list, before the filter. */
  function TagCandidates(content: string): (cands: seq<string>)
    ensures forall i :: 0 <= i < |cands| ==> JsTrim(cands[i]) == cands[i] && Lower(cands[i]) == cands[i]
  {
    match FrontmatterBlock(content)
    case None => []
    case Some(fm) =>
      match TagsBlock(fm)
      case None => []
      case Some(g) =>
        var lines := DashLines(g, 0);
        seq(|lines|, i requires 0 <= i < |lines| => TagOfLine(lines[i]))
  }

  /** `extractTags`: the candidates that pass the filter, in order. */
  function ExtractTags(content: string): (tags: seq<string>)
    ensures TagCandidates(content) == [] ==> tags == []
    ensures forall i :: 0 <= i < |tags| ==>
      JsTrim(tags[i]) == tags[i] && Lower(tags[i]) == tags[i] && KeepTag(tags[i])
    ensures forall t :: t in tags <==> t in TagCandidates(content) && KeepTag(t)
  {
    Filter(TagCandidates(content), KeepTag)
  }

  /** The filter keeps every copy of a kept candidate and the candidates' order: the
      tags are the candidates with exactly the filtered-out ones removed. */
  lemma ExtractTagsKeepsCopies(content: string, t: string)
    ensures Count(ExtractTags(content), t) == if KeepTag(t) then Count(TagCandidates(content), t) else 0
    ensures var c := TagCandidates(content);
      var idx := FilterIndices(c, KeepTag);
      && |idx| == |ExtractTags(content)|
      && (forall k :: 0 <= k < |idx| ==> idx[k] < |c| && c[idx[k]] == ExtractTags(content)[k])
      && (forall k, l :: 0 <= k < l < |idx| ==> idx[k] < idx[l])
      && (forall j :: 0 <= j < |c| && KeepTag(c[j]) ==> j in idx)
  {
    var c := TagCandidates(content);
    assert ExtractTags(content) == Filter(c, KeepTag);
    FilterCount(c, KeepTag, t);
  }

  /** Without a frontmatter block holding a `tags:` list there are no tags. */
  lemma NoTagsWithoutList(content: string)
    requires FrontmatterBlock(content).None? || TagsBlock(FrontmatterBlock(content).value).None?
    ensures ExtractTags(content) == []
  {
  }

  /** A kept tag is longer than one unit, is not only dashes, and is none of `loading`,
      `personal` and `insights`. */
  lemma KeptTagsSpelledOut(content: string)
    ensures forall t :: t in ExtractTags(content) ==>
      Utf16Length(t) > 1 && !AllDashes(t) && t != "loading" && t != "personal" && t != "insights"
  {
  }

  /** The search finds the leftmost match first and resumes at its end: every match
      of the pattern that the search reaches is returned. */
  lemma {:induction false} DashLinesFirst(g: string, x: nat, y: nat)
    requires x <= y && DashMatchAt(g, y)
    requires forall k :: x <= k < y ==> !DashMatchAt(g, k)
    ensures var v := DashLineEnd(g, y).value;
      DashLines(g, x) == [g[y..v]] + DashLines(g, v)
    decreases y - x
  {
    if x < y {
      assert !DashMatchAt(g, x);
      DashLinesFirst(g, x + 1, y);
    }
  }

  /** Where the pattern no longer matches, the search returns nothing more. Together
      with `DashLinesFirst` this fixes the result: the leftmost match, then the
      matches after its end, and no other line. */
  lemma {:induction false} DashLinesNone(g: string, x: nat)
    requires x <= |g|
    requires forall k :: x <= k < |g| ==> !DashMatchAt(g, k)
    ensures DashLines(g, x) == []
    decreases |g| - x
  {
    if x < |g| {
      assert !DashMatchAt(g, x);
      DashLinesNone(g, x + 1);
    }
  }

  /** A line `- t` whose `t` starts with something other than whitespace and holds no
      line terminator. */
  predicate ListableTag(t: string) {
    t != [] && !IsJsSpace(t[0]) && forall k :: 0 <= k < |t| ==> NotLineTerminator(t[k])
  }

  /** A character that may indent a list item: whitespace that ends no line. */
  predicate IsIndent(c: char) { IsJsSpace(c) && NotLineTerminator(c) }

  /** `n` indenting characters from `x` on. */
  predicate IndentAt(s: string, x: nat, n: nat)
    decreases n
  {
    if n == 0 then x <= |s| else x < |s| && IsIndent(s[x]) && IndentAt(s, x + 1, n - 1)
  }

  /** An indent is a run of indenting characters inside the text. */
  lemma {:induction false} IndentAtAll(s: string, x: nat, n: nat)
    ensures IndentAt(s, x, n) <==> x + n <= |s| && forall k :: x <= k < x + n ==> IsIndent(s[k])
    decreases n
  {
    if n > 0 {
      IndentAtAll(s, x + 1, n - 1);
      assert x + 1 + (n - 1) == x + n;
      if x + n <= |s| && forall k :: x <= k < x + n ==> IsIndent(s[k]) {
        assert IsIndent(s[x]);
      }
    }
  }

  /** The length of the list `- t1\n- t2\n...\n- tn` with every item indented by `n`. */
  function ListLength(n: nat, ts: seq<string>): nat
    requires ts != []
    decreases |ts|
  {
    if |ts| == 1 then n + 2 + |ts[0]| else n + 3 + |ts[0]| + ListLength(n, ts[1..])
  }

  /** `s` spells out `w` from `x` on, one character at a time. */
  predicate Spells(s: string, x: nat, w: string)
    decreases |w|
  {
    w == [] || (x < |s| && s[x] == w[0] && Spells(s, x + 1, w[1..]))
  }

  /** Spelling out `w` from `x` is having `w` as the slice there. */
  lemma {:induction false} SpellsSlice(s: string, x: nat, w: string)
    requires x <= |s|
    ensures Spells(s, x, w) <==> x + |w| <= |s| && s[x..x + |w|] == w
    decreases |w|
  {
    if w != [] && x < |s| {
      SpellsSlice(s, x + 1, w[1..]);
      if x + |w| <= |s| {
        assert s[x..x + |w|] == [s[x]] + s[x + 1..x + 1 + |w[1..]|];
        assert w == [w[0]] + w[1..];
      }
    }
  }

  /** The list `- t1\n- t2\n...\n- tn`, every item indented by `n` characters, starts
      at `x` of `s`, and a line terminator or the end of `s` follows it. A YAML block
      sequence indents all its items alike. */
  predicate ListAt(s: string, x: nat, n: nat, ts: seq<string>)
    decreases |ts|
  {
    && ts != []
    && ListableTag(ts[0])
    && IndentAt(s, x, n)
    && var v := x + n + 2 + |ts[0]|;
    && v <= |s| && Spells(s, x + n, "- " + ts[0])
    && if |ts| == 1 then v == |s| || IsJsLineTerminator(s[v])
       else v < |s| && s[v] == '\n' && ListAt(s, v + 1, n, ts[1..])
  }

  /** The items after the first form a list of their own, one line further on. */
  lemma ListTail(s: string, x: nat, n: nat, ts: seq<string>, y: nat)
    requires ListAt(s, x, n, ts) && |ts| > 1 && y == x + n + 2 + |ts[0]| + 1
    ensures ListAt(s, y, n, ts[1..])
    ensures x + ListLength(n, ts) == y + ListLength(n, ts[1..])
  {
  }

  /** The tag each item of a list names. */
  function ListedTags(ts: seq<string>): seq<string> {
    seq(|ts|, i requires 0 <= i < |ts| => Lower(JsTrim(ts[i])))
  }

  /** The line `- t` at `y` is one match of `-\s*.+`, ending where `t` ends. */
  lemma DashLineAt(s: string, y: nat, t: string)
    requires ListableTag(t)
    requires y + 2 + |t| <= |s| && s[y..y + 2 + |t|] == "- " + t
    requires y + 2 + |t| == |s| || IsJsLineTerminator(s[y + 2 + |t|])
    ensures DashLineEnd(s, y) == Some(y + 2 + |t|)
  {
    var w := "- " + t;
    var e := y + 2 + |t|;
    assert s[y + 2..e] == t && s[y + 1] == ' ' by {
      SliceOfKnown(s, y, w, 1, 2 + |t|);
      SliceOfKnown(s, y, w, 2, 2 + |t|);
      assert w[2..2 + |t|] == t;
    }
    assert RunEnd(s, y + 1, IsJsSpace) == y + 2 by {
      assert s[y + 2] == t[0];
      RunEndUnique(s, y + 1, y + 2, IsJsSpace);
    }
    assert RunEnd(s, y + 2, NotLineTerminator) == e by {
      AllOfKnown(s, y + 2, t, NotLineTerminator);
      RunEndUnique(s, y + 2, e, NotLineTerminator);
    }
  }

  /** The tag the line `- t` names is `t`, trimmed and lower-cased. */
  lemma TagOfDashLine(t: string)
    requires ListableTag(t)
    ensures TagOfLine("- " + t) == Lower(JsTrim(t))
  {
    var line := "- " + t;
    RunEndUnique(line, 1, 2, IsJsSpace);
    assert line[2..] == t;
  }

  /** The indent before a list line: the leading `\s*` of an item stops at its dash,
      and no dash match starts inside it. */
  lemma IndentBeforeDash(s: string, x: nat, n: nat)
    requires IndentAt(s, x, n) && x + n < |s| && s[x + n] == '-'
    ensures RunEnd(s, x, IsJsSpace) == x + n
    ensures forall k :: x <= k < x + n ==> !DashMatchAt(s, k)
  {
    IndentAtAll(s, x, n);
    RunEndUnique(s, x, x + n, IsJsSpace);
  }

  /** One list line at `x`, indented by `n`, is one repetition of the item group,
      which also takes the newline after it. */
  lemma ItemOfLine(s: string, x: nat, n: nat, t: string, more: bool)
    requires ListableTag(t) && IndentAt(s, x, n)
    requires x + n + 2 + |t| <= |s| && s[x + n..x + n + 2 + |t|] == "- " + t
    requires x + n + 2 + |t| == |s| || IsJsLineTerminator(s[x + n + 2 + |t|])
    requires more ==> x + n + 2 + |t| < |s| && s[x + n + 2 + |t|] == '\n'
    ensures ItemEnd(s, x).Some? && ItemEnd(s, x).value >= x + n + 2 + |t|
    ensures more ==> ItemEnd(s, x) == Some(x + n + 2 + |t| + 1)
  {
    var v := x + n + 2 + |t|;
    assert s[x + n] == '-' && DashLineEnd(s, x + n) == Some(v) by {
      DashLineAt(s, x + n, t);
      assert s[x + n] == (s[x + n..v])[0];
    }
    ItemAfterIndent(s, x, n, v, more);
  }

  /** The item group at `x` of a dash line indented by `n`. */
  lemma ItemAfterIndent(s: string, x: nat, n: nat, v: nat, more: bool)
    requires IndentAt(s, x, n) && x + n < |s| && s[x + n] == '-'
    requires DashLineEnd(s, x + n) == Some(v)
    requires more ==> v < |s| && s[v] == '\n'
    ensures ItemEnd(s, x).Some? && ItemEnd(s, x).value >= v
    ensures more ==> ItemEnd(s, x) == Some(v + 1)
  {
    IndentBeforeDash(s, x, n);
    ItemAtDash(s, x, x + n, v);
  }

  /** The item group at `x` whose leading whitespace stops at a dash line. */
  lemma ItemAtDash(s: string, x: nat, y: nat, v: nat)
    requires x <= y < |s| && RunEnd(s, x, IsJsSpace) == y && s[y] == '-'
    requires DashLineEnd(s, y) == Some(v)
    ensures ItemEnd(s, x) == Some(if v < |s| && s[v] == '\n' then v + 1 else v)
  {
  }

  /** `ItemOfLine` for the first item of a list. */
  lemma ItemOfList(s: string, x: nat, n: nat, ts: seq<string>)
    requires ListAt(s, x, n, ts)
    ensures ItemEnd(s, x).Some? && ItemEnd(s, x).value >= x + n + 2 + |ts[0]|
    ensures |ts| > 1 ==> ItemEnd(s, x) == Some(x + n + 2 + |ts[0]| + 1)
  {
    var t := ts[0];
    SpellsSlice(s, x + n, "- " + t);
    ItemOfLine(s, x, n, t, |ts| > 1);
  }

  /** The repetition continues from where one item ends. */
  lemma ItemsEndStep(s: string, x: nat, e: nat)
    requires x <= |s| && ItemEnd(s, x) == Some(e)
    ensures ItemsEnd(s, x) == ItemsEnd(s, e) >= e
  {
  }

  /** The greedy item repetition consumes a whole list. */
  lemma {:induction false} ItemsCover(s: string, x: nat, n: nat, ts: seq<string>)
    requires ListAt(s, x, n, ts)
    ensures ItemsEnd(s, x) >= x + ListLength(n, ts)
    decreases |ts|
  {
    ItemOfList(s, x, n, ts);
    if |ts| > 1 {
      var y := x + n + 2 + |ts[0]| + 1;
      ListTail(s, x, n, ts, y);
      ItemsEndStep(s, x, y);
      ItemsCover(s, y, n, ts[1..]);
    } else {
      ItemsEndStep(s, x, ItemEnd(s, x).value);
    }
  }

  /** The search passes over text without a dash. */
  lemma {:induction false} DashLinesSkip(g: string, x: nat, y: nat)
    requires x <= y <= |g|
    requires forall k :: x <= k < y ==> g[k] != '-'
    ensures DashLines(g, x) == DashLines(g, y)
    decreases y - x
  {
    if x < y {
      DashLinesPast(g, x, g[x]);
      DashLinesSkip(g, x + 1, y);
    }
  }

  /** The search steps over a character other than a dash. */
  lemma DashLinesPast(g: string, x: nat, c: char)
    requires x < |g| && g[x] == c && c != '-'
    ensures DashLines(g, x) == DashLines(g, x + 1)
  {
  }

  /** One step of the search at a match of the pattern that ends at `v`. */
  lemma DashLinesAt(g: string, y: nat, v: nat)
    requires y < |g| && g[y] == '-' && DashLineEnd(g, y) == Some(v)
    ensures DashLines(g, y) == [g[y..v]] + DashLines(g, v)
  {
  }

  /** A match of the pattern at `y` that ends at `v` is the first line the search
      from `y` returns, and the search resumes at `w`: at `v`, or past the newline
      there. */
  lemma LineAt(g: string, y: nat, v: nat, w: nat, line: string)
    requires y < |g| && g[y] == '-' && DashLineEnd(g, y) == Some(v) && g[y..v] == line
    requires w == v || (w == v + 1 && v < |g| && g[v] == '\n')
    ensures DashLines(g, y) == [line] + DashLines(g, w)
  {
    DashLinesAt(g, y, v);
    if w != v {
      DashLinesSkip(g, v, w);
    }
  }

  /** `LineAt` after an indent, which the search passes over. */
  lemma LinesHead(g: string, x: nat, n: nat, v: nat, w: nat, line: string)
    requires IndentAt(g, x, n) && x + n < |g| && g[x + n] == '-'
    requires DashLineEnd(g, x + n) == Some(v) && g[x + n..v] == line
    requires w == v || (w == v + 1 && v < |g| && g[v] == '\n')
    ensures DashLines(g, x) == [line] + DashLines(g, w)
  {
    IndentNoDash(g, x, n);
    DashLinesSkip(g, x, x + n);
    LineAt(g, x + n, v, w, line);
  }

  /** The first line of a list, after its indent, is the first match, and the search
      resumes at `w`: where the line ends, or past the newline that follows it. */
  lemma ListLineHead(g: string, x: nat, n: nat, t: string, w: nat)
    requires ListableTag(t) && IndentAt(g, x, n)
    requires x + n + 2 + |t| <= |g| && g[x + n..x + n + 2 + |t|] == "- " + t
    requires x + n + 2 + |t| == |g| || IsJsLineTerminator(g[x + n + 2 + |t|])
    requires w == x + n + 2 + |t| || (w == x + n + 2 + |t| + 1 && x + n + 2 + |t| < |g| && g[x + n + 2 + |t|] == '\n')
    ensures DashLines(g, x) == ["- " + t] + DashLines(g, w)
  {
    var v := x + n + 2 + |t|;
    DashLineAt(g, x + n, t);
    assert g[x + n] == (g[x + n..v])[0];
    LinesHead(g, x, n, v, w, "- " + t);
  }

  /** An indent holds no dash. */
  lemma IndentNoDash(s: string, x: nat, n: nat)
    requires IndentAt(s, x, n)
    ensures x + n <= |s| && forall k :: x <= k < x + n ==> s[k] != '-'
  {
    IndentAtAll(s, x, n);
  }

  /** Every item of a list is a listable tag. */
  lemma {:induction false} ListItemsListable(s: string, x: nat, n: nat, ts: seq<string>)
    requires ListAt(s, x, n, ts)
    ensures forall i :: 0 <= i < |ts| ==> ListableTag(ts[i])
    decreases |ts|
  {
    if |ts| > 1 {
      var y := x + n + 2 + |ts[0]| + 1;
      ListTail(s, x, n, ts, y);
      ListItemsListable(s, y, n, ts[1..]);
      assert forall i :: 1 <= i < |ts| ==> ts[i] == ts[1..][i - 1];
    }
  }

  /** The global dash search returns the lines of a list in order, without their
      indent, and nothing more when the list runs to the end of the text. */
  lemma {:induction false} LinesOfList(g: string, x: nat, n: nat, ts: seq<string>)
    requires ListAt(g, x, n, ts)
    ensures |DashLines(g, x)| >= |ts|
    ensures forall i :: 0 <= i < |ts| ==> DashLines(g, x)[i] == "- " + ts[i]
    ensures x + ListLength(n, ts) == |g| ==> |DashLines(g, x)| == |ts|
    decreases |ts|
  {
    if |ts| > 1 {
      var y := x + n + 2 + |ts[0]| + 1;
      ListTail(g, x, n, ts, y);
      LinesOfList(g, y, n, ts[1..]);
      LinesStep(g, x, n, ts[0], ts, y);
    } else {
      LinesLast(g, x, n, ts[0], ts);
    }
  }

  /** The step of `LinesOfList` for a list of more than one item: the first line,
      then the lines of the rest. */
  lemma LinesStep(g: string, x: nat, n: nat, t: string, ts: seq<string>, y: nat)
    requires |ts| > 1 && t == ts[0] && ListableTag(t) && IndentAt(g, x, n)
    requires x + n + 2 + |t| < |g| && Spells(g, x + n, "- " + t) && g[x + n + 2 + |t|] == '\n'
    requires y == x + n + 2 + |t| + 1 && ListLength(n, ts) == n + 2 + |t| + 1 + ListLength(n, ts[1..])
    requires |DashLines(g, y)| >= |ts[1..]|
    requires forall i :: 0 <= i < |ts[1..]| ==> DashLines(g, y)[i] == "- " + ts[1..][i]
    requires y + ListLength(n, ts[1..]) == |g| ==> |DashLines(g, y)| == |ts[1..]|
    ensures |DashLines(g, x)| >= |ts|
    ensures forall i :: 0 <= i < |ts| ==> DashLines(g, x)[i] == "- " + ts[i]
    ensures x + ListLength(n, ts) == |g| ==> |DashLines(g, x)| == |ts|
  {
    SpellsSlice(g, x + n, "- " + t);
    ListLineHead(g, x, n, t, y);
    LinesCons(DashLines(g, x), DashLines(g, y), t, ts, x + ListLength(n, ts) == |g|);
  }

  /** `LinesOfList` for a list of one item. */
  lemma LinesLast(g: string, x: nat, n: nat, t: string, ts: seq<string>)
    requires |ts| == 1 && t == ts[0] && ListableTag(t) && IndentAt(g, x, n)
    requires x + n + 2 + |t| <= |g| && Spells(g, x + n, "- " + t)
    requires x + n + 2 + |t| == |g| || IsJsLineTerminator(g[x + n + 2 + |t|])
    ensures |DashLines(g, x)| >= |ts|
    ensures forall i :: 0 <= i < |ts| ==> DashLines(g, x)[i] == "- " + ts[i]
    ensures x + ListLength(n, ts) == |g| ==> |DashLines(g, x)| == |ts|
  {
    SpellsSlice(g, x + n, "- " + t);
    var v := x + n + 2 + |t|;
    ListLineHead(g, x, n, t, v);
    assert ListLength(n, ts) == n + 2 + |t|;
    if v == |g| {
      assert DashLines(g, v) == [];
    }
    LinesCons(DashLines(g, x), DashLines(g, v), t, ts, v == |g|);
  }

  /** The step of `LinesOfList`: the lines of the first item and of the rest. */
  lemma LinesCons(lines: seq<string>, rest: seq<string>, t: string, ts: seq<string>, exact: bool)
    requires ts != [] && t == ts[0] && lines == ["- " + t] + rest
    requires |rest| >= |ts| - 1 && forall i :: 0 <= i < |ts| - 1 ==> rest[i] == "- " + ts[1..][i]
    requires exact ==> |rest| == |ts| - 1
    ensures |lines| >= |ts| && forall i :: 0 <= i < |ts| ==> lines[i] == "- " + ts[i]
    ensures exact ==> |lines| == |ts|
  {
    forall i | 0 < i < |ts|
      ensures lines[i] == "- " + ts[i]
    {
      assert lines[i] == rest[i - 1];
      assert ts[i] == ts[1..][i - 1];
    }
  }

  /** A list inside a slice that contains all of it is a list of the slice. */
  lemma {:induction false} ListInSlice(s: string, a: nat, e: nat, x: nat, n: nat, ts: seq<string>)
    requires ListAt(s, a + x, n, ts) && a + x + ListLength(n, ts) <= e <= |s|
    ensures ListAt(s[a..e], x, n, ts)
    decreases |ts|
  {
    var v := x + n + 2 + |ts[0]|;
    IndentInSlice(s, a, e, x, n);
    SpellsInSlice(s, a, e, x + n, "- " + ts[0]);
    if |ts| > 1 {
      assert s[a..e][v] == s[a + v];
      ListInSlice(s, a, e, v + 1, n, ts[1..]);
    } else if v < e - a {
      assert s[a..e][v] == s[a + v];
    }
  }

  /** Spelling inside a slice that contains the whole word. */
  lemma {:induction false} SpellsInSlice(s: string, a: nat, e: nat, x: nat, w: string)
    requires Spells(s, a + x, w) && a + x + |w| <= e <= |s|
    ensures Spells(s[a..e], x, w)
    decreases |w|
  {
    if w != [] {
      assert s[a..e][x] == s[a + x];
      SpellsInSlice(s, a, e, x + 1, w[1..]);
    }
  }

  /** An indent inside a slice that contains the whole of it. */
  lemma {:induction false} IndentInSlice(s: string, a: nat, e: nat, x: nat, n: nat)
    requires IndentAt(s, a + x, n) && a + x + n <= e <= |s|
    ensures IndentAt(s[a..e], x, n)
    decreases n
  {
    if n > 0 {
      assert s[a..e][x] == s[a + x];
      IndentInSlice(s, a, e, x + 1, n - 1);
    }
  }

  /** The search for `tags:` settles on the first position where the pattern matches. */
  lemma {:induction false} FirstTagsAtIs(s: string, q: nat, p: nat)
    requires q <= p <= |s| && TagsAt(s, p).Some?
    requires forall k :: q <= k < p ==> TagsAt(s, k).None?
    ensures FirstTagsAt(s, q) == Some(p)
    decreases p - q
  {
    if q < p {
      FirstTagsAtIs(s, q + 1, p);
    }
  }

  /** A `tags:` key followed by a newline and a list: the pattern captures the list,
      and at least all of it. The `\s*` before the newline stops at that newline,
      since the indent after it ends no line. */
  lemma TagsAtList(fm: string, p: nat, n: nat, ts: seq<string>)
    requires TagsKeyAt(fm, p) && p + 5 < |fm| && fm[p + 5] == '\n'
    requires ListAt(fm, p + 6, n, ts)
    ensures TagsAt(fm, p) == Some(fm[p + 6..ItemsEnd(fm, p + 6)])
    ensures ItemsEnd(fm, p + 6) >= p + 6 + ListLength(n, ts)
  {
    assert fm[p + 6 + n] == ("- " + ts[0])[0];
    IndentAfterNewline(fm, p, n);
    ItemOfList(fm, p + 6, n, ts);
    TagsAtParts(fm, p, p + 6 + n, ItemEnd(fm, p + 6).value);
    ItemsCover(fm, p + 6, n, ts);
  }

  /** `TagsAt` from its parts: where the whitespace after the key ends, the newline
      the pattern settles on, and the end of the first item. */
  lemma TagsAtParts(s: string, p: nat, w: nat, e: nat)
    requires TagsKeyAt(s, p) && p + 6 <= |s|
    requires RunEnd(s, p + 5, IsJsSpace) == w && p + 5 < w
    requires LastWhere(s, p + 5, w, IsNewline) == Some(p + 5)
    requires ItemEnd(s, p + 6) == Some(e)
    ensures TagsAt(s, p) == Some(s[p + 6..ItemsEnd(s, p + 6)])
  {
    ItemsEndStep(s, p + 6, e);
  }

  /** A newline after the key, then an indent before a dash: the whitespace run ends
      at the dash, and its last newline is the first one. */
  lemma IndentAfterNewline(fm: string, p: nat, n: nat)
    requires p + 5 < |fm| && fm[p + 5] == '\n'
    requires IndentAt(fm, p + 6, n) && p + 6 + n < |fm| && fm[p + 6 + n] == '-'
    ensures RunEnd(fm, p + 5, IsJsSpace) == p + 6 + n
    ensures LastWhere(fm, p + 5, p + 6 + n, IsNewline) == Some(p + 5)
  {
    IndentAtAll(fm, p + 6, n);
    RunEndUnique(fm, p + 5, p + 6 + n, IsJsSpace);
  }

  /** The `tags:` list the frontmatter search settles on, when the first key is
      followed by a newline and a list: it starts with that list. */
  lemma TagsBlockOfList(fm: string, p: nat, n: nat, ts: seq<string>)
    requires TagsKeyAt(fm, p) && (forall k :: 0 <= k < p ==> !TagsKeyAt(fm, k))
    requires p + 5 < |fm| && fm[p + 5] == '\n' && ListAt(fm, p + 6, n, ts)
    ensures TagsBlock(fm).Some? && ListAt(TagsBlock(fm).value, 0, n, ts)
    ensures p + 6 + ListLength(n, ts) == |fm| ==> |TagsBlock(fm).value| == ListLength(n, ts)
  {
    TagsAtList(fm, p, n, ts);
    FirstTagsAtIs(fm, 0, p);
    ListInSlice(fm, p + 6, ItemsEnd(fm, p + 6), 0, n, ts);
  }

  /** The candidates of a list block: the tag of every item, in order. */
  lemma CandidatesOfBlock(g: string, n: nat, ts: seq<string>)
    requires ListAt(g, 0, n, ts)
    ensures var lines := DashLines(g, 0);
      && |lines| >= |ts|
      && (forall i :: 0 <= i < |ts| ==> TagOfLine(lines[i]) == Lower(JsTrim(ts[i])))
      && (ListLength(n, ts) == |g| ==> |lines| == |ts|)
  {
    LinesOfList(g, 0, n, ts);
    ListItemsListable(g, 0, n, ts);
    var lines := DashLines(g, 0);
    forall i | 0 <= i < |ts|
      ensures TagOfLine(lines[i]) == Lower(JsTrim(ts[i]))
    {
      TagOfDashLine(ts[i]);
    }
  }

  /** The converse of the tag scan: when the first `tags:` key of the frontmatter is
      followed by a newline and a list of `- t` lines, all indented alike (by none at
      all, or by the two spaces the packager writes), every item's tag is a
      candidate, in list order, and every item whose tag passes the filter gives a
      tag. When the list is the rest of the block there is nothing else. */
  lemma ListedTagsExtracted(content: string, p: nat, n: nat, ts: seq<string>)
    requires FrontmatterBlock(content).Some?
    requires var fm := FrontmatterBlock(content).value;
      && TagsKeyAt(fm, p) && (forall k :: 0 <= k < p ==> !TagsKeyAt(fm, k))
      && p + 5 < |fm| && fm[p + 5] == '\n' && ListAt(fm, p + 6, n, ts)
    ensures var c := TagCandidates(content);
      |c| >= |ts| && forall i :: 0 <= i < |ts| ==> c[i] == Lower(JsTrim(ts[i]))
    ensures forall i :: 0 <= i < |ts| && KeepTag(Lower(JsTrim(ts[i]))) ==>
      Lower(JsTrim(ts[i])) in ExtractTags(content)
    ensures p + 6 + ListLength(n, ts) == |FrontmatterBlock(content).value| ==>
      TagCandidates(content) == ListedTags(ts) && ExtractTags(content) == Filter(ListedTags(ts), KeepTag)
  {
    var fm := FrontmatterBlock(content).value;
    TagsBlockOfList(fm, p, n, ts);
    CandidatesOfBlock(TagsBlock(fm).value, n, ts);
    CandidatesOfLines(content, ts, p + 6 + ListLength(n, ts) == |fm|);
  }

  /** The first item of a `tags:` list, indented by `n`, when the list follows the
      first key on the next line: its tag is the first candidate and, when it passes
      the filter, a tag of the file. */
  lemma FirstListedTagExtracted(content: string, p: nat, n: nat, t: string)
    requires FrontmatterBlock(content).Some?
    requires var fm := FrontmatterBlock(content).value;
      && TagsKeyAt(fm, p) && (forall k :: 0 <= k < p ==> !TagsKeyAt(fm, k))
      && p + 5 < |fm| && fm[p + 5] == '\n'
      && p + 6 + n <= |fm| && (forall k :: p + 6 <= k < p + 6 + n ==> IsIndent(fm[k]))
      && p + 8 + n + |t| <= |fm| && fm[p + 6 + n..p + 8 + n + |t|] == "- " + t
      && (p + 8 + n + |t| == |fm| || IsJsLineTerminator(fm[p + 8 + n + |t|]))
    requires ListableTag(t)
    ensures TagCandidates(content) != [] && TagCandidates(content)[0] == Lower(JsTrim(t))
    ensures KeepTag(Lower(JsTrim(t))) ==> Lower(JsTrim(t)) in ExtractTags(content)
  {
    var fm := FrontmatterBlock(content).value;
    IndentAtAll(fm, p + 6, n);
    SpellsSlice(fm, p + 6 + n, "- " + t);
    assert ListAt(fm, p + 6, n, [t]);
    ListedTagsExtracted(content, p, n, [t]);
  }

  /** The candidates once the lines of the list block are known. */
  lemma CandidatesOfLines(content: string, ts: seq<string>, exact: bool)
    requires FrontmatterBlock(content).Some? && TagsBlock(FrontmatterBlock(content).value).Some?
    requires var lines := DashLines(TagsBlock(FrontmatterBlock(content).value).value, 0);
      && |lines| >= |ts|
      && (forall i :: 0 <= i < |ts| ==> TagOfLine(lines[i]) == Lower(JsTrim(ts[i])))
      && (exact ==> |lines| == |ts|)
    ensures var c := TagCandidates(content);
      |c| >= |ts| && forall i :: 0 <= i < |ts| ==> c[i] == Lower(JsTrim(ts[i]))
    ensures forall i :: 0 <= i < |ts| && KeepTag(Lower(JsTrim(ts[i]))) ==>
      Lower(JsTrim(ts[i])) in ExtractTags(content)
    ensures exact ==>
      TagCandidates(content) == ListedTags(ts) && ExtractTags(content) == Filter(ListedTags(ts), KeepTag)
  {
    var lines := DashLines(TagsBlock(FrontmatterBlock(content).value).value, 0);
    ItemCandidates(TagCandidates(content), lines, ts, exact);
    forall i | 0 <= i < |ts| && KeepTag(Lower(JsTrim(ts[i])))
      ensures Lower(JsTrim(ts[i])) in ExtractTags(content)
    {
      assert TagCandidates(content)[i] in TagCandidates(content);
    }
  }

  /** Candidates that are the tags of lines whose first ones are list items. */
  lemma ItemCandidates(c: seq<string>, lines: seq<string>, ts: seq<string>, exact: bool)
    requires c == seq(|lines|, i requires 0 <= i < |lines| => TagOfLine(lines[i]))
    requires |lines| >= |ts| && forall i :: 0 <= i < |ts| ==> TagOfLine(lines[i]) == Lower(JsTrim(ts[i]))
    requires exact ==> |lines| == |ts|
    ensures |c| >= |ts| && forall i :: 0 <= i < |ts| ==> c[i] == Lower(JsTrim(ts[i]))
    ensures exact ==> c == ListedTags(ts)
  {
  }


  // ---------------------------------------------------------------------------
  // Title
  // ---------------------------------------------------------------------------

  predicate InTitle(c: char) { c != '"' && c != '\'' && c != '\n' }
  predicate IsQuote(c: char) { c == '"' || c == '\'' }
  predicate NotNewline(c: char) { c != '\n' }

  /** `title:` in any case at `p`. */
  predicate TitleKeyAt(s: string, p: nat) {
    p + 6 <= |s| && Lower(s[p..p + 6]) == "title:"
  }

  /** `["']?([^"'\n]+)` after `\s*` took everything up to `j`: where the capture starts. */
  function TitleValueAt(s: string, j: nat): (r: Option<nat>)
    requires j <= |s|
    ensures r.Some? ==> r.value < |s| && InTitle(s[r.value])
    ensures r.Some? ==> r.value == j || (r.value == j + 1 && IsQuote(s[j]))
  {
    if j + 1 < |s| && IsQuote(s[j]) && InTitle(s[j + 1]) then Some(j + 1)
    else if j < |s| && InTitle(s[j]) then Some(j)
    else None
  }

  /** `title:\s*["']?([^"'\n]+)["']?` (case-insensitive) tried at `p`: the capture.
      When nothing usable follows the whitespace, `\s*` gives back whitespace and the
      capture starts at the last whitespace character that is not a newline. */
  function TitleAt(s: string, p: nat): (r: Option<string>)
    requires p <= |s|
    ensures r.Some? ==> TitleKeyAt(s, p)
    ensures r.Some? ==> r.value != [] && forall i :: 0 <= i < |r.value| ==> InTitle(r.value[i])
  {
    if TitleKeyAt(s, p) then
      var w := RunEnd(s, p + 6, IsJsSpace);
      match TitleValueAt(s, w)
      case Some(c) => Some(s[c..RunEnd(s, c, InTitle)])
      case None =>
        match LastWhere(s, p + 6, w, NotNewline)
        case Some(j) => Some(s[j..RunEnd(s, j, InTitle)])
        case None => None
    else None
  }

  /** The capture of the leftmost match of the title pattern anywhere in the text. */
  function TitleCapture(s: string, p: nat): (r: Option<string>)
    requires p <= |s|
    ensures r.Some? ==> r.value != [] && forall i :: 0 <= i < |r.value| ==> InTitle(r.value[i])
    ensures r.None? ==> forall k :: p <= k <= |s| ==> TitleAt(s, k).None?
    decreases |s| - p
  {
    if TitleAt(s, p).Some? then TitleAt(s, p)
    else if p == |s| then None
    else TitleCapture(s, p + 1)
  }

  /** `titleMatch ? titleMatch[1].trim() : dir`. */
  function ExtractTitle(content: string, dir: string): (title: string)
    ensures TitleCapture(content, 0).None? ==> title == dir
    ensures TitleCapture(content, 0).Some? ==>
      JsTrim(title) == title && forall i :: 0 <= i < |title| ==> InTitle(title[i])
  {
    match TitleCapture(content, 0)
    case Some(c) =>
      StripIdempotent(c, IsJsSpace);
      StripKeeps(c, IsJsSpace, InTitle);
      JsTrim(c)
    case None => dir
  }

  /** A text with no `title:` in any case falls back to the directory name. */
  lemma TitleFallsBackToDir(content: string, dir: string)
    requires forall p: nat :: !TitleKeyAt(content, p)
    ensures ExtractTitle(content, dir) == dir
  {
    if TitleCapture(content, 0).Some? {
      TitleFound(content, 0);
    }
  }

  /** When the search succeeds, the pattern matched at some position. */
  lemma {:induction false} TitleFound(s: string, p: nat)
    requires p <= |s| && TitleCapture(s, p).Some?
    ensures exists k :: p <= k <= |s| && TitleAt(s, k).Some?
    decreases |s| - p
  {
    if TitleAt(s, p).None? {
      TitleFound(s, p + 1);
    }
  }

  /** Where the whitespace after `title:` stops at a character that is not a quote or
      newline, the match captures the run from there. */
  lemma TitleAtValue(s: string, p: nat)
    requires TitleKeyAt(s, p)
    requires RunEnd(s, p + 6, IsJsSpace) < |s| && InTitle(s[RunEnd(s, p + 6, IsJsSpace)])
    ensures var w := RunEnd(s, p + 6, IsJsSpace);
      TitleAt(s, p) == Some(s[w..RunEnd(s, w, InTitle)])
  {
  }

  /** The search returns the match at the first position where the pattern matches. */
  lemma {:induction false} TitleCaptureAt(s: string, q: nat, p: nat)
    requires q <= p <= |s| && TitleAt(s, p).Some?
    requires forall k :: q <= k < p ==> TitleAt(s, k).None?
    ensures TitleCapture(s, q) == TitleAt(s, p)
    decreases p - q
  {
    if q < p {
      TitleCaptureAt(s, q + 1, p);
    }
  }

  /** The title of a file whose first `title:` key is followed by a usable value is
      that value, trimmed: the converse of the fallback to the directory name. */
  lemma TitleOfFirstKey(s: string, p: nat, dir: string)
    requires TitleKeyAt(s, p)
    requires forall k :: 0 <= k < p ==> !TitleKeyAt(s, k)
    requires RunEnd(s, p + 6, IsJsSpace) < |s| && InTitle(s[RunEnd(s, p + 6, IsJsSpace)])
    ensures var w := RunEnd(s, p + 6, IsJsSpace);
      ExtractTitle(s, dir) == JsTrim(s[w..RunEnd(s, w, InTitle)])
  {
    TitleAtValue(s, p);
    TitleCaptureAt(s, 0, p);
  }

  // ---------------------------------------------------------------------------
  // A worked example
  // ---------------------------------------------------------------------------

  /** A file laid out as the packager writes it: `tags:` and one item indented by
      two spaces. */
  const OneTagFile: string := "---\ntags:\n  - xy\n---\n"

  /** The example block is `tags:\n  - xy`. */
  lemma OneTagFrontmatter()
    ensures FrontmatterBlock(OneTagFile) == Some("tags:\n  - xy")
  {
    var c := OneTagFile;
    assert c[..4] == "---\n";
    OneTagFence();
    assert c[4..16] == "tags:\n  - xy";
  }

  /** The first closing fence of the example starts at position 16. */
  lemma OneTagFence()
    ensures OccursAt(OneTagFile, Fence, 16)
    ensures forall k :: 4 <= k < 16 ==> !OccursAt(OneTagFile, Fence, k)
  {
    var c := OneTagFile;
    assert c[16..20] == Fence;
    forall k | 4 <= k < 16
      ensures !OccursAt(c, Fence, k)
    {
      if k == 9 {
        assert c[k..k + 4][1] == c[10] == ' ';
      } else {
        assert c[k..k + 4][0] == c[k] != '\n';
      }
    }
  }

  /** The example block is the key `tags:` and, on the next line, the list `- xy`
      indented by two spaces. */
  lemma OneTagList()
    ensures TagsKeyAt("tags:\n  - xy", 0) && ListAt("tags:\n  - xy", 6, 2, ["xy"])
  {
    var fm := "tags:\n  - xy";
    assert fm[0..5] == "tags:";
    assert Lower("tags:") == "tags:";
    assert fm[8..12] == "- xy";
    SpellsSlice(fm, 8, "- xy");
    IndentAtAll(fm, 6, 2);
  }

  /** A file whose frontmatter holds `tags:` and the indented item `- xy` has the one
      tag `xy`. */
  lemma OneTagExtracted(content: string)
    requires content == OneTagFile
    ensures ExtractTags(content) == ["xy"]
  {
    OneTagFrontmatter();
    OneTagList();
    ListedTagsExtracted(content, 0, 2, ["xy"]);
    XyKept();
    KeptSingle(ListedTags(["xy"]), "xy");
  }

  /** The item `xy` names the tag `xy`, which passes the filter. */
  lemma XyKept()
    ensures ListedTags(["xy"]) == ["xy"] && KeepTag("xy")
  {
    StripOfClean("xy", IsJsSpace);
    assert Lower("xy") == "xy";
    assert "xy" != "personal" && "xy" != "insights";
  }

  /** A single candidate that passes the filter is the only tag. */
  lemma KeptSingle(c: seq<string>, t: string)
    requires c == [t] && KeepTag(t)
    ensures Filter(c, KeepTag) == [t]
  {
    FilterAll(c, KeepTag);
  }
}
