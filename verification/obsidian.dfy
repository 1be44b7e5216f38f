/** The pure part of scripts/package_obsidian.py: the wiki-link parser, the
    frontmatter split, the quality pass rule, the packaged-tag filter and
    `convert_to_mdx`, which writes MDX frontmatter and rewrites every wiki-link span of
    the body. The YAML parser, the chat-model call, the clock and the file system are
    outside the model: their results are parameters. */
module Obsidian {
  import opened Wrappers
  import opened Chars
  import opened Seqs
  import opened Slug
  import opened WikiScan

  // ---------------------------------------------------------------------------
  // Parsing wiki-links
  // ---------------------------------------------------------------------------

  /** One entry of `parse_wiki_links`: stripped target and display text, whether the
      target names an image, and the span `[start, end)` with its text. */
  datatype WikiLink = WikiLink(
    target: string,
    display: Option<string>,
    isImage: bool,
    start: nat,
    end: nat,
    fullMatch: string)

  const ImageExtensions: seq<string> := [".png", ".jpg", ".jpeg", ".gif", ".svg", ".webp", ".bmp"]

  /** `any(s.endswith(ext) for ext in exts)`. */
  function EndsWithAny(s: string, exts: seq<string>): (b: bool)
    ensures b <==> exists i :: 0 <= i < |exts| && EndsWith(s, exts[i])
    decreases |exts|
  {
    if exts == [] then false
    else
      assert forall i :: 0 < i < |exts| ==> exts[i] == exts[1..][i - 1];
      EndsWith(s, exts[0]) || EndsWithAny(s, exts[1..])
  }

  /** A target names an image when, lower-cased, it ends with an image extension. */
  function IsImageName(target: string): bool {
    EndsWithAny(Lower(target), ImageExtensions)
  }

  /** The entry built from one regex match. */
  function ParseLink(content: string, h: Hit<WikiMatch>): WikiLink
    requires h.start <= h.m.end <= |content|
  {
    var target := PyStrip(h.m.target);
    var display := if h.m.display.Some? then Some(PyStrip(h.m.display.value)) else None;
    WikiLink(target, display, IsImageName(target), h.start, h.m.end, content[h.start..h.m.end])
  }

  /** The text of an entry spelled out from a raw target and an optional raw display
      text: `[[`, the raw target, which holds neither `]` nor `|`, then either `]]`, or
      `|`, the raw display text and `]]`. Target and display text are the raw ones
      stripped. */
  predicate SpelledFrom(l: WikiLink, rawTarget: string, rawDisplay: Option<string>) {
    && (forall k :: 0 <= k < |rawTarget| ==> InWikiTarget(rawTarget[k]))
    && l.target == PyStrip(rawTarget)
    && match rawDisplay
       case None => l.fullMatch == "[[" + rawTarget + "]]" && l.display == None
       case Some(d) => l.fullMatch == "[[" + rawTarget + "|" + d + "]]" && l.display == Some(PyStrip(d))
  }

  /** What every parsed entry satisfies: its span lies in the content and carries its
      text; the target and display text are the stripped parts of that text; they are
      stripped; the target holds neither `]` nor `|` and the display text no `]`;
      there is a display text exactly when the span holds a `|`; and the image flag
      is decided by the extension. */
  ghost predicate WellParsed(content: string, l: WikiLink) {
    && l.start < l.end <= |content|
    && content[l.start..l.end] == l.fullMatch
    && (exists rawTarget, rawDisplay :: SpelledFrom(l, rawTarget, rawDisplay))
    && PyStrip(l.target) == l.target
    && (forall k :: 0 <= k < |l.target| ==> InWikiTarget(l.target[k]))
    && (l.display.None? <==> '|' !in l.fullMatch)
    && (l.display.Some? ==>
          && PyStrip(l.display.value) == l.display.value
          && forall k :: 0 <= k < |l.display.value| ==> NotCloseBracket(l.display.value[k]))
    && (l.isImage <==> IsImageName(l.target))
  }

  /** Where the parts of a spelled-out text lie in it. */
  lemma SpelledParts(l: WikiLink, t: string, d: Option<string>)
    requires SpelledFrom(l, t, d)
    ensures |l.fullMatch| >= 4 + |t|
    ensures l.fullMatch[2..2 + |t|] == t
    ensures l.fullMatch[2 + |t|] == if d.Some? then '|' else ']'
    ensures d.None? ==> |l.fullMatch| == 4 + |t|
    ensures d.Some? ==> l.fullMatch[3 + |t|..|l.fullMatch| - 2] == d.value
  {
    var fm := l.fullMatch;
    if d.Some? {
      assert fm == "[[" + t + "|" + d.value + "]]";
      assert fm[3 + |t|..|fm| - 2] == d.value;
    }
  }

  /** The text of an entry decides its raw parts: the raw target is the run up to the
      first `|` or `]`, and the raw display text is what lies between that `|` and
      the closing `]]`. */
  lemma SpelledFromUnique(l1: WikiLink, t1: string, d1: Option<string>, l2: WikiLink, t2: string, d2: Option<string>)
    requires SpelledFrom(l1, t1, d1) && SpelledFrom(l2, t2, d2) && l1.fullMatch == l2.fullMatch
    ensures t1 == t2 && d1 == d2
  {
    SpelledParts(l1, t1, d1);
    SpelledParts(l2, t2, d2);
  }

  /** Two entries with the same text have the same target, display text and image
      flag: nothing in an entry but its span is free. */
  lemma WellParsedByText(content: string, l1: WikiLink, l2: WikiLink)
    requires WellParsed(content, l1) && WellParsed(content, l2) && l1.fullMatch == l2.fullMatch
    ensures l1.target == l2.target && l1.display == l2.display && l1.isImage == l2.isImage
  {
    var t1, d1 :| SpelledFrom(l1, t1, d1);
    var t2, d2 :| SpelledFrom(l2, t2, d2);
    SpelledFromUnique(l1, t1, d1, l2, t2, d2);
  }

  /** The text of a well-parsed entry gives back its target and display text: when
      the text is `[[t]]` or `[[t|d]]` for a raw target `t` without `]` or `|`, the
      target is `t` stripped and the display text is `d` stripped, or absent. */
  lemma WellParsedReadsText(content: string, l: WikiLink, t: string, d: Option<string>)
    requires WellParsed(content, l)
    requires forall k :: 0 <= k < |t| ==> InWikiTarget(t[k])
    requires d.None? ==> l.fullMatch == "[[" + t + "]]"
    requires d.Some? ==> l.fullMatch == "[[" + t + "|" + d.value + "]]"
    ensures l.target == PyStrip(t)
    ensures l.display == if d.Some? then Some(PyStrip(d.value)) else None
  {
    var t0, d0 :| SpelledFrom(l, t0, d0);
    var read := WikiLink(PyStrip(t), if d.Some? then Some(PyStrip(d.value)) else None, false, 0, 0, l.fullMatch);
    assert SpelledFrom(read, t, d);
    SpelledFromUnique(l, t0, d0, read, t, d);
  }

  /** The raw target of a wiki-link holds neither `]` nor `|`, its raw display text
      no `]`. */
  lemma {:induction false} WikiSpanChars(content: string, p: nat, m: WikiMatch)
    requires IsWikiSpan(content, p, m)
    ensures forall i :: 0 <= i < |m.target| ==> InWikiTarget(m.target[i])
    ensures m.display.Some? ==> forall i :: 0 <= i < |m.display.value| ==> NotCloseBracket(m.display.value[i])
  {
    var k := p + 2 + |m.target|;
    forall i | 0 <= i < |m.target|
      ensures InWikiTarget(m.target[i])
    {
      assert m.target[i] == content[p + 2..k][i];
    }
    if m.display.Some? {
      var d := m.display.value;
      forall i | 0 <= i < |d|
        ensures NotCloseBracket(d[i])
      {
        assert d[i] == content[k + 1..k + 1 + |d|][i];
      }
    }
  }

  /** A wiki-link has a display text exactly when its text holds a `|`. */
  lemma {:induction false} WikiSpanPipe(content: string, p: nat, m: WikiMatch)
    requires IsWikiSpan(content, p, m)
    ensures m.display.None? <==> '|' !in content[p..m.end]
  {
    WikiSpanText(content, p, m);
    var fm := content[p..m.end];
    if m.display.Some? {
      assert fm[2 + |m.target|] == '|';
    } else {
      WikiSpanChars(content, p, m);
      forall i | 0 <= i < |fm|
        ensures fm[i] != '|'
      {
        if 2 <= i < 2 + |m.target| {
          assert fm[i] == m.target[i - 2];
        }
      }
    }
  }

  lemma {:induction false} ParseLinkWellParsed(content: string, h: Hit<WikiMatch>)
    requires h.start < h.m.end && IsWikiSpan(content, h.start, h.m)
    ensures WellParsed(content, ParseLink(content, h))
    ensures SpelledFrom(ParseLink(content, h), h.m.target, h.m.display)
  {
    var m := h.m;
    WikiSpanChars(content, h.start, m);
    WikiSpanPipe(content, h.start, m);
    WikiSpanText(content, h.start, m);
    assert SpelledFrom(ParseLink(content, h), m.target, m.display);
    StripIdempotent(m.target, IsPySpace);
    StripKeeps(m.target, IsPySpace, InWikiTarget);
    if m.display.Some? {
      StripIdempotent(m.display.value, IsPySpace);
      StripKeeps(m.display.value, IsPySpace, NotCloseBracket);
    }
  }

  /** `parse_wiki_links`: the entries of `re.finditer` over the wiki-link pattern. */
  function ParseWikiLinks(content: string): (links: seq<WikiLink>)
    ensures forall i :: 0 <= i < |links| ==> WellParsed(content, links[i])
    ensures forall i, j :: 0 <= i < j < |links| ==> links[i].end <= links[j].start
    ensures |links| == |ScanWiki(content, 0)|
    ensures forall i :: 0 <= i < |links| ==>
      links[i].start == ScanWiki(content, 0)[i].start && links[i].end == ScanWiki(content, 0)[i].m.end
    ensures forall i :: 0 <= i < |links| ==> SpelledFrom(links[i], ScanWiki(content, 0)[i].m.target, ScanWiki(content, 0)[i].m.display)
  {
    ScanWikiFacts(content);
    ParseHits(content, ScanWiki(content, 0))
  }

  /** The matches of the global search, in the plain terms `ParseWikiLinks` needs. */
  lemma ScanWikiFacts(content: string)
    ensures forall i :: 0 <= i < |ScanWiki(content, 0)| ==>
      ScanWiki(content, 0)[i].start < ScanWiki(content, 0)[i].m.end &&
      IsWikiSpan(content, ScanWiki(content, 0)[i].start, ScanWiki(content, 0)[i].m)
    ensures forall i, j :: 0 <= i < j < |ScanWiki(content, 0)| ==>
      ScanWiki(content, 0)[i].m.end <= ScanWiki(content, 0)[j].start
  {
  }

  /** Each match parsed into its entry. */
  function ParseHits(content: string, hits: seq<Hit<WikiMatch>>): (links: seq<WikiLink>)
    requires forall i :: 0 <= i < |hits| ==> hits[i].start < hits[i].m.end && IsWikiSpan(content, hits[i].start, hits[i].m)
    ensures |links| == |hits|
    ensures forall i :: 0 <= i < |links| ==> links[i].start == hits[i].start && links[i].end == hits[i].m.end
    ensures forall i :: 0 <= i < |links| ==> WellParsed(content, links[i])
    ensures forall i :: 0 <= i < |links| ==> SpelledFrom(links[i], hits[i].m.target, hits[i].m.display)
  {
    forall i | 0 <= i < |hits|
      ensures hits[i].m.end <= |content|
    {
      assert IsWikiSpan(content, hits[i].start, hits[i].m);
    }
    var links := seq(|hits|, i requires 0 <= i < |hits| => ParseLink(content, hits[i]));
    forall i | 0 <= i < |hits|
      ensures WellParsed(content, links[i])
      ensures SpelledFrom(links[i], hits[i].m.target, hits[i].m.display)
    {
      ParseLinkWellParsed(content, hits[i]);
    }
    links
  }

  /** No wiki-link is missed: every position where one starts lies inside a parsed span. */
  lemma ParseWikiLinksComplete(content: string, p: nat, m: WikiMatch)
    requires IsWikiSpan(content, p, m)
    ensures exists i :: 0 <= i < |ParseWikiLinks(content)| &&
                      ParseWikiLinks(content)[i].start <= p < ParseWikiLinks(content)[i].end
  {
    var i := ScanWikiCovers(content, p, m);
    assert ParseWikiLinks(content)[i].start <= p < ParseWikiLinks(content)[i].end;
  }

  /** The match of the global search whose span holds a given wiki-link start. */
  lemma {:induction false} ScanWikiCovers(content: string, p: nat, m: WikiMatch) returns (i: nat)
    requires IsWikiSpan(content, p, m)
    ensures i < |ScanWiki(content, 0)|
    ensures ScanWiki(content, 0)[i].start <= p < ScanWiki(content, 0)[i].m.end
  {
    var hits := ScanWiki(content, 0);
    assert WikiSpans(content)(p, m);
    InsideWitness(hits, p, WikiEnd);
    i :| 0 <= i < |hits| && hits[i].start <= p < hits[i].m.end;
  }

  // ---------------------------------------------------------------------------
  // Frontmatter split, pass rule, tag filter
  // ---------------------------------------------------------------------------

  /** What `extract_frontmatter` separates: the YAML text, when there is a block, and
      the body. Parsing the YAML text is not modelled. */
  datatype Split = Split(yaml: Option<string>, body: string)

  const Dashes: string := "---"

  /** `content.split('---', 2)` on text that starts with `---`: with a second `---`,
      the text between the two is the YAML and the stripped rest is the body;
      otherwise the whole text is the body. */
  function ExtractFrontmatter(content: string): (r: Split)
    ensures r.yaml.None? ==> r.body == content
    ensures r.yaml.Some? <==> StartsWith(content, Dashes) && exists k :: 3 <= k && OccursAt(content, Dashes, k)
  {
    if StartsWith(content, Dashes) then
      match Find(content, Dashes, 3)
      case Some(i) => Split(Some(content[3..i]), PyStrip(content[i + 3..]))
      case None => Split(None, content)
    else Split(None, content)
  }

  /** A block whose YAML text holds no `---` (not even one completed by the closing
      fence) splits back into that text and the stripped body. */
  lemma {:induction false} FrontmatterRoundTrip(yaml: string, body: string)
    requires forall k :: 0 <= k < |yaml| ==> !OccursAt(yaml + Dashes, Dashes, k)
    ensures ExtractFrontmatter(Dashes + yaml + Dashes + body) == Split(Some(yaml), PyStrip(body))
  {
    var c := Dashes + yaml + Dashes + body;
    var e := 3 + |yaml|;
    assert c[..3] == Dashes;
    assert c[e..e + 3] == Dashes;
    forall k | 3 <= k < e
      ensures !OccursAt(c, Dashes, k)
    {
      if OccursAt(c, Dashes, k) {
        assert c[k..k + 3] == (yaml + Dashes)[k - 3..k];
        assert OccursAt(yaml + Dashes, Dashes, k - 3);
      }
    }
    assert OccursAt(c, Dashes, e);
    assert Find(c, Dashes, 3) == Some(e);
    assert c[3..e] == yaml;
    assert c[e + 3..] == body;
  }

  const MinQualityScore: int := 6
  const AutoPassScore: int := 7

  /** The verdict of `check_quality`. */
  datatype Quality = Quality(appropriate: bool, technicallySound: bool, score: int, passes: bool)

  /** The fields of the model's JSON reply; a missing field is `None`. */
  datatype Reply = Reply(appropriate: Option<bool>, technicallySound: Option<bool>, score: Option<int>)

  function BoolOr(o: Option<bool>, d: bool): bool { if o.Some? then o.value else d }
  function IntOr(o: Option<int>, d: int): int { if o.Some? then o.value else d }

  /** The verdict given without asking the model, for a missing key or a failed call. */
  const AutoPass: Quality := Quality(true, true, AutoPassScore, true)

  /** `check_quality`: no key or a failed call (`reply == None`) passes automatically;
      otherwise a reply passes when it is appropriate, technically sound and scores at
      least 6, missing fields counting as false and 0. */
  function CheckQuality(apiKey: string, reply: Option<Reply>): (q: Quality)
    ensures q.passes <==>
      || apiKey == [] || reply.None?
      || (&& reply.value.appropriate == Some(true)
          && reply.value.technicallySound == Some(true)
          && reply.value.score.Some? && reply.value.score.value >= MinQualityScore)
  {
    if apiKey == [] || reply.None? then AutoPass
    else
      var r := reply.value;
      var a, t, s := BoolOr(r.appropriate, false), BoolOr(r.technicallySound, false), IntOr(r.score, 0);
      Quality(a, t, s, a && t && s >= MinQualityScore)
  }

  /** Whether a reply passes depends on the score only through the threshold: a
      higher score never turns a pass into a failure. */
  lemma PassMonotone(apiKey: string, r: Reply, better: int)
    requires CheckQuality(apiKey, Some(r)).passes
    requires r.score.Some? && r.score.value <= better
    ensures CheckQuality(apiKey, Some(r.(score := Some(better)))).passes
  {
  }

  /** Every verdict, automatic or not, agrees with the pass rule applied to its own
      fields. */
  lemma VerdictConsistent(apiKey: string, reply: Option<Reply>)
    ensures var q := CheckQuality(apiKey, reply);
      q.passes <==> q.appropriate && q.technicallySound && q.score >= MinQualityScore
  {
  }

  /** Tags kept in a packaged post: not `personal` or `insights` in any case. */
  predicate KeepPackagedTag(t: string) {
    Lower(t) != "personal" && Lower(t) != "insights"
  }

  function PackagedTags(tags: seq<string>): (r: seq<string>)
    ensures forall t :: t in r <==> t in tags && KeepPackagedTag(t)
  {
    Filter(tags, KeepPackagedTag)
  }

  /** The filter drops the two tags whatever their case and nothing it keeps. */
  lemma PackagedTagsDrop(tags: seq<string>)
    ensures forall t :: t in PackagedTags(tags) ==> Lower(t) != "personal" && Lower(t) != "insights"
    ensures forall t :: t in tags && Lower(t) == "insights" ==> t !in PackagedTags(tags)
    ensures PackagedTags(PackagedTags(tags)) == PackagedTags(tags)
  {
    FilterIdempotent(tags, KeepPackagedTag);
  }

  // ---------------------------------------------------------------------------
  // Frontmatter emission
  // ---------------------------------------------------------------------------

  /** `description.replace('"', '\\"')`: a backslash before every double quote. */
  function EscapeQuotes(d: string): (e: string)
    ensures |e| >= |d|
    ensures forall k :: 0 <= k < |e| && e[k] == '"' ==> k > 0 && e[k - 1] == '\\'
    decreases |d|
  {
    if d == [] then []
    else
      var head := if d[0] == '"' then "\\\"" else [d[0]];
      var rest := EscapeQuotes(d[1..]);
      assert forall k :: |head| <= k < |head + rest| ==> (head + rest)[k] == rest[k - |head|];
      head + rest
  }

  /** Reading `\"` back as `"`, left to right. */
  function UnescapeQuotes(e: string): string
    decreases |e|
  {
    if e == [] then []
    else if |e| >= 2 && e[0] == '\\' && e[1] == '"' then "\"" + UnescapeQuotes(e[2..])
    else [e[0]] + UnescapeQuotes(e[1..])
  }

  /** Escaping loses nothing: reading the escapes back gives the description. */
  lemma {:induction false} UnescapeEscape(d: string)
    ensures UnescapeQuotes(EscapeQuotes(d)) == d
    decreases |d|
  {
    if d != [] {
      var e := EscapeQuotes(d);
      var rest := EscapeQuotes(d[1..]);
      UnescapeEscape(d[1..]);
      if d[0] == '"' {
        assert e == "\\\"" + rest;
        assert e[2..] == rest;
      } else {
        assert e == [d[0]] + rest;
        assert e[1..] == rest;
        assert |e| >= 2 ==> e[1] != '"';
      }
    }
  }

  /** The frontmatter lines of `convert_to_mdx`, in order. */
  function FrontmatterLines(title: string, date: string, description: string, tags: seq<string>): seq<string> {
    ["---", "title: \"" + title + "\"", "date: " + date]
    + (if description != [] then ["description: \"" + EscapeQuotes(description) + "\""] else [])
    + (if tags != [] then ["tags:"] + seq(|tags|, i requires 0 <= i < |tags| => "  - " + tags[i]) else [])
    + ["---"]
  }

  /** The layout: fence, title, date, the description line when there is one, the
      `tags:` line and one item line per tag in order when there are tags, fence. */
  lemma FrontmatterLayout(title: string, date: string, description: string, tags: seq<string>)
    ensures var ls := FrontmatterLines(title, date, description, tags);
      var d := if description != [] then 1 else 0;
      && |ls| == 4 + d + (if tags != [] then 1 + |tags| else 0)
      && ls[0] == "---" && ls[|ls| - 1] == "---"
      && ls[1] == "title: \"" + title + "\""
      && ls[2] == "date: " + date
      && (description != [] ==> ls[3] == "description: \"" + EscapeQuotes(description) + "\"")
      && (tags != [] ==> ls[3 + d] == "tags:" && forall i :: 0 <= i < |tags| ==> ls[4 + d + i] == "  - " + tags[i])
  {
  }

  /** `'\n'.join(lines)`. */
  function JoinLines(lines: seq<string>): string
    decreases |lines|
  {
    if lines == [] then []
    else if |lines| == 1 then lines[0]
    else lines[0] + "\n" + JoinLines(lines[1..])
  }

  predicate NotNewline(c: char) { c != '\n' }

  predicate SingleLine(l: string) {
    forall k :: 0 <= k < |l| ==> NotNewline(l[k])
  }

  /** `s.split('\n')`. */
  function SplitLines(s: string): (lines: seq<string>)
    ensures |lines| > 0
    decreases |s|
  {
    var k := RunEnd(s, 0, NotNewline);
    if k == |s| then [s] else [s[..k]] + SplitLines(s[k + 1..])
  }

  /** Joining lines that hold no newline and splitting again gives the lines back. */
  lemma {:induction false} SplitJoin(lines: seq<string>)
    requires |lines| > 0
    requires forall i :: 0 <= i < |lines| ==> SingleLine(lines[i])
    ensures SplitLines(JoinLines(lines)) == lines
    decreases |lines|
  {
    var l := lines[0];
    var s := JoinLines(lines);
    if |lines| == 1 {
      RunEndUnique(s, 0, |l|, NotNewline);
    } else {
      assert s == l + "\n" + JoinLines(lines[1..]);
      assert forall k :: 0 <= k < |l| ==> s[k] == l[k];
      RunEndUnique(s, 0, |l|, NotNewline);
      assert s[..|l|] == l;
      assert s[|l| + 1..] == JoinLines(lines[1..]);
      SplitJoin(lines[1..]);
    }
  }

  /** `'\n'.join(frontmatter_lines)`. */
  function Frontmatter(title: string, date: string, description: string, tags: seq<string>): string {
    JoinLines(FrontmatterLines(title, date, description, tags))
  }

  /** When no field spans lines, the emitted header reads back line by line as the
      frontmatter lines. */
  lemma FrontmatterReadsBack(title: string, date: string, description: string, tags: seq<string>)
    requires SingleLine(title) && SingleLine(date) && SingleLine(description)
    requires forall i :: 0 <= i < |tags| ==> SingleLine(tags[i])
    ensures SplitLines(Frontmatter(title, date, description, tags)) == FrontmatterLines(title, date, description, tags)
  {
    var ls := FrontmatterLines(title, date, description, tags);
    FrontmatterLinesSingle(title, date, description, tags);
    SplitJoin(ls);
  }

  /** No frontmatter line spans lines when no field does. */
  lemma FrontmatterLinesSingle(title: string, date: string, description: string, tags: seq<string>)
    requires SingleLine(title) && SingleLine(date) && SingleLine(description)
    requires forall i :: 0 <= i < |tags| ==> SingleLine(tags[i])
    ensures var ls := FrontmatterLines(title, date, description, tags);
      forall i :: 0 <= i < |ls| ==> SingleLine(ls[i])
  {
    var ls := FrontmatterLines(title, date, description, tags);
    FrontmatterLayout(title, date, description, tags);
    var d := if description != [] then 1 else 0;
    forall i | 0 <= i < |ls|
      ensures SingleLine(ls[i])
    {
      if i == 1 {
        SingleLineConcat3("title: \"", title, "\"");
      } else if i == 2 {
        SingleLineConcat3("date: ", date, "");
        assert "date: " + date + "" == ls[2];
      } else if i == 3 && d == 1 {
        EscapeSingleLine(description);
        SingleLineConcat3("description: \"", EscapeQuotes(description), "\"");
      } else if tags != [] && 4 + d <= i < |ls| - 1 {
        SingleLineConcat3("  - ", tags[i - 4 - d], "");
        assert "  - " + tags[i - 4 - d] + "" == ls[i];
      }
    }
  }

  lemma SingleLineConcat3(a: string, b: string, c: string)
    requires SingleLine(a) && SingleLine(b) && SingleLine(c)
    ensures SingleLine(a + b + c)
  {
    var s := a + b + c;
    forall k | 0 <= k < |s|
      ensures NotNewline(s[k])
    {
      if k < |a| {
        assert s[k] == a[k];
      } else if k < |a| + |b| {
        assert s[k] == b[k - |a|];
      } else {
        assert s[k] == c[k - |a| - |b|];
      }
    }
  }

  /** Escaping adds only backslashes, never a newline. */
  lemma {:induction false} EscapeSingleLine(d: string)
    requires SingleLine(d)
    ensures SingleLine(EscapeQuotes(d))
    decreases |d|
  {
    if d != [] {
      assert SingleLine(d[1..]) by {
        assert forall k :: 0 <= k < |d| - 1 ==> d[1..][k] == d[k + 1];
      }
      EscapeSingleLine(d[1..]);
      var head := if d[0] == '"' then "\\\"" else [d[0]];
      SingleLineConcat3(head, EscapeQuotes(d[1..]), "");
      assert EscapeQuotes(d) == head + EscapeQuotes(d[1..]) + "";
    }
  }

  // ---------------------------------------------------------------------------
  // Rewriting the body
  // ---------------------------------------------------------------------------

  /** What the converter knows of a linked note published as a snippet. */
  datatype SnippetInfo = SnippetInfo(slug: string, passes: bool)

  const GreySpanOpen: string := "<span style={{color: " + "\"#999\", cursor: " + "\"not-allowed\"}}>"
  const GreySpanClose: string := "</span>"

  /** The grey span holds no `]`. */
  lemma GreySpanClean()
    ensures ']' !in GreySpanOpen && ']' !in GreySpanClose
  {
  }

  /** `link['display'] or target`: the display text unless it is missing or empty. */
  function LinkText(l: WikiLink): string {
    if l.display.Some? && l.display.value != [] then l.display.value else l.target
  }

  /** `[d](/snippets/<slug>/)`. */
  function SnippetLink(d: string, slug: string): string {
    "[" + d + "](/snippets/" + slug + "/)"
  }

  /** The text that replaces one wiki-link: an image with a copied file becomes an
      image, a missing image an italic note, a passing snippet a link to its page, a
      failing snippet grey text, and anything else its display text. */
  function Replacement(l: WikiLink, snippets: map<string, SnippetInfo>, images: map<string, string>): string {
    var d := LinkText(l);
    if l.isImage then
      if l.target in images then "![" + d + "](./" + images[l.target] + ")"
      else "*[Image: " + l.target + "]*"
    else if l.target in snippets then
      if snippets[l.target].passes then SnippetLink(d, snippets[l.target].slug)
      else GreySpanOpen + d + GreySpanClose
    else d
  }

  /** The link to a passing snippet is one the site build recognises as a snippet
      link, with the same text and slug: for a non-empty slug made by `slugify`, its
      snippet-link pattern matches the whole replacement. */
  lemma SnippetLinkReadBack(d: string, slug: string)
    requires |d| > 0 && forall k :: 0 <= k < |d| ==> NotCloseBracket(d[k])
    requires |slug| > 0 && IsSlug(slug)
    ensures var r := SnippetLink(d, slug);
      MatchSnippetAt(r, 0) == Some(SnippetMatch(d, slug, true, |r|))
  {
    var r := SnippetLink(d, slug);
    var k := 1 + |d|;
    var e := k + 12 + |slug|;
    assert r == "[" + d + SnippetsInfix + slug + "/)";
    assert r[1..k] == d;
    assert r[k..k + 12] == SnippetsInfix;
    assert r[k + 12..e] == slug;
    forall i | 1 <= i < k
      ensures NotCloseBracket(r[i])
    {
      assert r[i] == d[i - 1];
    }
    forall i | k + 12 <= i < e
      ensures InSnippetSlug(r[i])
    {
      assert r[i] == slug[i - k - 12];
      assert IsSlugChar(slug[i - k - 12]);
    }
    assert r[e] == '/' && r[e + 1] == ')';
    MatchSnippetComplete(r, 0, SnippetMatch(d, slug, true, |r|));
  }

  /** The replacement of a parsed link to a passing snippet whose text is not empty
      is read back by the site build as a link to that snippet. */
  lemma PassingSnippetReadBack(content: string, l: WikiLink, snippets: map<string, SnippetInfo>, images: map<string, string>)
    requires WellParsed(content, l) && !l.isImage && l.target in snippets
    requires snippets[l.target].passes && |snippets[l.target].slug| > 0 && IsSlug(snippets[l.target].slug)
    requires |LinkText(l)| > 0
    ensures var r := Replacement(l, snippets, images);
      MatchSnippetAt(r, 0) == Some(SnippetMatch(LinkText(l), snippets[l.target].slug, true, |r|))
  {
    var d := LinkText(l);
    forall k | 0 <= k < |d|
      ensures NotCloseBracket(d[k])
    {
      if !(l.display.Some? && l.display.value != []) {
        assert InWikiTarget(l.target[k]);
      }
    }
    SnippetLinkReadBack(d, snippets[l.target].slug);
  }

  /** No `]` of `s` starts the `](/snippets/` of a snippet link: the site build finds
      no snippet link anywhere in `s`. */
  lemma NoSnippetLinkIn(s: string)
    requires forall k :: 0 <= k < |s| && s[k] == ']' ==> !OccursAt(s, SnippetsInfix, k)
    ensures forall p :: 0 <= p <= |s| ==> MatchSnippetAt(s, p).None?
  {
    InfixStartsWithBracket(s);
  }

  /** `](/snippets/` starts with `]`. */
  lemma InfixStartsWithBracket(s: string)
    ensures forall k :: OccursAt(s, SnippetsInfix, k) ==> s[k] == ']'
  {
    forall k | OccursAt(s, SnippetsInfix, k)
      ensures s[k] == ']'
    {
      assert s[k] == s[k..k + 12][0];
    }
  }

  /** A text with no `]` holds no snippet link. */
  lemma NoBracketNoSnippet(s: string)
    requires ']' !in s
    ensures forall p :: 0 <= p <= |s| ==> MatchSnippetAt(s, p).None?
  {
    NoSnippetLinkIn(s);
  }

  /** A string whose characters all avoid a predicate's `]`. */
  lemma NoBracketOf(t: string, p: char -> bool)
    requires (forall k :: 0 <= k < |t| ==> p(t[k])) && !p(']')
    ensures ']' !in t
  {
    forall k | 0 <= k < |t|
      ensures t[k] != ']'
    {
      assert p(t[k]);
    }
  }

  /** The text of a parsed link has no `]`. */
  lemma LinkTextClean(content: string, l: WikiLink)
    requires WellParsed(content, l)
    ensures ']' !in LinkText(l) && ']' !in l.target
  {
    NoBracketOf(l.target, InWikiTarget);
    if l.display.Some? && l.display.value != [] {
      NoBracketOf(l.display.value, NotCloseBracket);
    }
  }

  /** The image of a copied file: its only `]` is followed by `(./`. */
  lemma ImageNoSnippet(d: string, name: string)
    requires ']' !in d && ']' !in name
    ensures var r := "![" + d + "](./" + name + ")";
      forall p :: 0 <= p <= |r| ==> MatchSnippetAt(r, p).None?
  {
    var a := "![" + d;
    var b := name + ")";
    var r := "![" + d + "](./" + name + ")";
    assert r == a + "](./" + b;
    assert ']' !in a && ']' !in b;
    forall k | 0 <= k < |r| && r[k] == ']'
      ensures !OccursAt(r, SnippetsInfix, k)
    {
      if k == |a| && k + 12 <= |r| {
        assert r[k..k + 12][2] == r[k + 2] == '.';
      }
    }
    NoSnippetLinkIn(r);
  }

  /** The note for a missing image: its only `]` is the second-last character. */
  lemma MissingImageNoSnippet(target: string)
    requires ']' !in target
    ensures var r := "*[Image: " + target + "]*";
      forall p :: 0 <= p <= |r| ==> MatchSnippetAt(r, p).None?
  {
    var a := "*[Image: " + target;
    var r := "*[Image: " + target + "]*";
    assert r == a + "]*";
    assert ']' !in a;
    forall k | 0 <= k < |r| && r[k] == ']'
      ensures !OccursAt(r, SnippetsInfix, k)
    {
    }
    NoSnippetLinkIn(r);
  }

  /** The converse of `PassingSnippetReadBack`: the replacement of any other parsed
      link holds no snippet link at all, provided no copied image's file name has a
      `]` (the packaging maps each image target, which has none, to itself). */
  lemma OtherReplacementNoSnippet(content: string, l: WikiLink, snippets: map<string, SnippetInfo>, images: map<string, string>)
    requires WellParsed(content, l)
    requires !(!l.isImage && l.target in snippets && snippets[l.target].passes)
    requires forall name :: name in images ==> ']' !in images[name]
    ensures var r := Replacement(l, snippets, images);
      forall p :: 0 <= p <= |r| ==> MatchSnippetAt(r, p).None?
  {
    var d := LinkText(l);
    LinkTextClean(content, l);
    if l.isImage && l.target in images {
      ImageNoSnippet(d, images[l.target]);
    } else if l.isImage {
      MissingImageNoSnippet(l.target);
    } else if l.target in snippets {
      GreySpanClean();
      NoBracketNoSnippet(GreySpanOpen + d + GreySpanClose);
    } else {
      NoBracketNoSnippet(d);
    }
  }

  /** The replacement of each link, in order. */
  function Replacements(links: seq<WikiLink>, snippets: map<string, SnippetInfo>, images: map<string, string>)
    : (reps: seq<string>)
    ensures |reps| == |links|
    ensures forall i :: 0 <= i < |links| ==> reps[i] == Replacement(links[i], snippets, images)
  {
    seq(|links|, i requires 0 <= i < |links| => Replacement(links[i], snippets, images))
  }

  /** Spans at or after `from`, inside a text of length `n`, in increasing and
      non-overlapping order. */
  predicate Ordered(from: nat, links: seq<WikiLink>, n: nat) {
    && (forall i :: 0 <= i < |links| ==> from <= links[i].start <= links[i].end <= n)
    && (forall i, j :: 0 <= i < j < |links| ==> links[i].end <= links[j].start)
  }

  /** The spans after the first all lie after its end. */
  lemma OrderedTail(from: nat, links: seq<WikiLink>, n: nat)
    requires links != [] && Ordered(from, links, n)
    ensures Ordered(links[0].end, links[1..], n)
  {
    forall i | 0 <= i < |links| - 1
      ensures links[0].end <= links[1..][i].start <= links[1..][i].end <= n
    {
      assert links[1..][i] == links[i + 1];
    }
  }

  /** The text from `from` on with the i-th span replaced by `reps[i]`: the text
      between spans is kept, in order. This is the forward reading of the rewrite. */
  function Spliced(s: string, from: nat, links: seq<WikiLink>, reps: seq<string>): string
    requires from <= |s| && |links| == |reps| && Ordered(from, links, |s|)
    decreases |links|
  {
    if links == [] then s[from..]
    else
      OrderedTail(from, links, |s|);
      s[from..links[0].start] + reps[0] + Spliced(s, links[0].end, links[1..], reps[1..])
  }

  /** One step of the splice: the text up to the first span, its replacement, and
      the splice of the rest. */
  lemma SplicedUnfold(s: string, from: nat, links: seq<WikiLink>, reps: seq<string>)
    requires from <= |s| && |links| == |reps| && Ordered(from, links, |s|) && links != []
    ensures Ordered(links[0].end, links[1..], |s|)
    ensures Spliced(s, from, links, reps) ==
      s[from..links[0].start] + reps[0] + Spliced(s, links[0].end, links[1..], reps[1..])
  {
    OrderedTail(from, links, |s|);
  }

  /** Text before the first span passes through unchanged. */
  lemma {:induction false} SplicedFrom(s: string, x: nat, y: nat, links: seq<WikiLink>, reps: seq<string>)
    requires x <= y <= |s| && |links| == |reps| && Ordered(y, links, |s|)
    ensures Spliced(s, x, links, reps) == s[x..y] + Spliced(s, y, links, reps)
  {
    if links == [] {
      assert s[x..] == s[x..y] + s[y..];
    } else {
      var a := links[0].start;
      SplicedUnfold(s, x, links, reps);
      SplicedUnfold(s, y, links, reps);
      assert s[x..a] == s[x..y] + s[y..a];
    }
  }

  /** Replacing every span with its own text gives the text back. */
  lemma {:induction false} SplicedIdentity(s: string, from: nat, links: seq<WikiLink>, reps: seq<string>)
    requires from <= |s| && |links| == |reps| && Ordered(from, links, |s|)
    requires forall i :: 0 <= i < |links| ==> reps[i] == s[links[i].start..links[i].end]
    ensures Spliced(s, from, links, reps) == s[from..]
    decreases |links|
  {
    if links != [] {
      var a, b := links[0].start, links[0].end;
      OrderedTail(from, links, |s|);
      SplicedIdentity(s, b, links[1..], reps[1..]);
      assert s[from..] == s[from..a] + s[a..b] + s[b..];
    }
  }

  /** The rewrite loop of `convert_to_mdx`: links are replaced from last to first, so
      that the positions of the ones still to do stay valid. */
  method RewriteSpans(s: string, links: seq<WikiLink>, reps: seq<string>) returns (out: string)
    requires |links| == |reps| && Ordered(0, links, |s|)
    ensures out == Spliced(s, 0, links, reps)
  {
    out := s;
    var i := |links|;
    while i > 0
      invariant 0 <= i <= |links|
      invariant Ordered(0, links[i..], |s|)
      invariant out == Spliced(s, 0, links[i..], reps[i..])
    {
      i := i - 1;
      SpliceStep(s, links, reps, i, out);
      out := out[..links[i].start] + reps[i] + out[links[i].end..];
    }
  }

  /** One iteration of `RewriteSpans`: replacing span `i` in the text that already has
      the later spans replaced gives the splice from span `i` on. */
  lemma SpliceStep(s: string, links: seq<WikiLink>, reps: seq<string>, i: nat, out: string)
    requires |links| == |reps| && i < |links| && Ordered(0, links[i..], |s|)
    requires Ordered(0, links[i + 1..], |s|) && out == Spliced(s, 0, links[i + 1..], reps[i + 1..])
    ensures links[i].start <= links[i].end <= |out|
    ensures out[..links[i].start] + reps[i] + out[links[i].end..] == Spliced(s, 0, links[i..], reps[i..])
  {
    var a, b := links[i].start, links[i].end;
    assert links[i..][0] == links[i];
    assert links[i..][1..] == links[i + 1..] && reps[i..][1..] == reps[i + 1..];
    SplicedUnfold(s, 0, links[i..], reps[i..]);
    SplicedFrom(s, 0, b, links[i + 1..], reps[i + 1..]);
    assert out[..a] == s[..a];
    assert out[b..] == Spliced(s, b, links[i + 1..], reps[i + 1..]);
  }

  /** `convert_to_mdx`: the frontmatter, a blank line, and the body with every
      wiki-link replaced. */
  method ConvertToMdx(
    content: string, title: string, date: string, tags: seq<string>, description: string,
    snippets: map<string, SnippetInfo>, images: map<string, string>)
    returns (mdx: string)
    ensures var links := ParseWikiLinks(content);
      mdx == Frontmatter(title, date, description, tags) + "\n\n"
        + Spliced(content, 0, links, Replacements(links, snippets, images))
  {
    var links := ParseWikiLinks(content);
    var body := RewriteSpans(content, links, Replacements(links, snippets, images));
    mdx := Frontmatter(title, date, description, tags) + "\n\n" + body;
  }

  /** The header begins with the fence, title and date lines and ends with the fence. */
  lemma {:induction false} FrontmatterEnds(title: string, date: string, description: string, tags: seq<string>)
    ensures StartsWith(Frontmatter(title, date, description, tags), "---\ntitle: \"" + title + "\"\ndate: " + date + "\n")
    ensures EndsWith(Frontmatter(title, date, description, tags), "\n---")
  {
    var ls := FrontmatterLines(title, date, description, tags);
    FrontmatterLayout(title, date, description, tags);
    JoinHead(ls);
    JoinLast(ls);
  }

  /** The output begins with the fence, the title line and the date line, and the
      header ends with a fence and a blank line before the body. */
  lemma {:induction false} MdxLayout(title: string, date: string, tags: seq<string>, description: string, body: string)
    ensures var mdx := Frontmatter(title, date, description, tags) + "\n\n" + body;
      && StartsWith(mdx, "---\ntitle: \"" + title + "\"\ndate: " + date + "\n")
      && EndsWith(mdx, "\n---\n\n" + body)
  {
    var f := Frontmatter(title, date, description, tags);
    FrontmatterEnds(title, date, description, tags);
    var head := "---\ntitle: \"" + title + "\"\ndate: " + date + "\n";
    var mdx := f + "\n\n" + body;
    assert mdx[..|head|] == f[..|head|];
    var tail := "\n---\n\n" + body;
    assert mdx[|mdx| - |tail|..] == f[|f| - 4..] + "\n\n" + body;
  }

  /** The joined text starts with the first three lines, each followed by a newline. */
  lemma {:induction false} JoinHead(lines: seq<string>)
    requires |lines| > 3
    ensures StartsWith(JoinLines(lines), lines[0] + "\n" + lines[1] + "\n" + lines[2] + "\n")
  {
    var r1 := JoinLines(lines[1..]);
    var r2 := JoinLines(lines[2..]);
    var r3 := JoinLines(lines[3..]);
    assert lines[1..][1..] == lines[2..];
    assert lines[2..][1..] == lines[3..];
    assert r2 == lines[2] + "\n" + r3;
    assert r1 == lines[1] + "\n" + r2;
    assert JoinLines(lines) == lines[0] + "\n" + r1;
    assert JoinLines(lines) == (lines[0] + "\n" + lines[1] + "\n" + lines[2] + "\n") + r3;
  }

  /** Joining splits at any line boundary. */
  lemma {:induction false} JoinSplit(lines: seq<string>, n: nat)
    requires 0 < n < |lines|
    ensures JoinLines(lines) == JoinLines(lines[..n]) + "\n" + JoinLines(lines[n..])
    decreases n
  {
    if n > 1 {
      JoinSplit(lines[1..], n - 1);
      assert lines[1..][..n - 1] == lines[..n][1..];
      assert lines[1..][n - 1..] == lines[n..];
    }
  }

  /** The joined text ends with a newline and the last line. */
  lemma JoinLast(lines: seq<string>)
    requires |lines| > 1
    ensures EndsWith(JoinLines(lines), "\n" + lines[|lines| - 1])
  {
    var n := |lines| - 1;
    JoinSplit(lines, n);
    assert lines[n..] == [lines[n]];
    var head := JoinLines(lines[..n]);
    var tail := "\n" + lines[n];
    assert JoinLines(lines) == head + tail;
    assert (head + tail)[|head + tail| - |tail|..] == tail;
    assert EndsWith(head + tail, tail);
  }

  /** With no wiki-links, or with every link replaced by its own text, the body is
      left as it was. */
  lemma RewriteKeepsPlainText(content: string, reps: seq<string>)
    requires |reps| == |ParseWikiLinks(content)|
    requires forall i :: 0 <= i < |reps| ==> reps[i] == ParseWikiLinks(content)[i].fullMatch
    ensures Spliced(content, 0, ParseWikiLinks(content), reps) == content
  {
    SplicedIdentity(content, 0, ParseWikiLinks(content), reps);
  }
}
