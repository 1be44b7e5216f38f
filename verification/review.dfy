/** The selection logic of scripts/review_snippets.py: the latest logged quality
    check of each snippet title (`get_recent_quality_checks`), the snippets that need
    a review and their order (`main`), and the review file name
    (`create_review_file`). Reading the logs, the chat-model call and writing the
    file are outside the model: the log files arrive as a sequence of names with
    their parsed entries. */
module Review {
  import opened Wrappers
  import opened Chars
  import opened Seqs
  import opened Sorting

  /** Snippets scoring at or below this get a review. */
  const ReviewThreshold: int := 7
  /** The score assumed when a logged verdict has none. */
  const DefaultScore: int := 10

  /** The fields of a logged verdict the selection reads; a missing field is `None`. */
  datatype Verdict = Verdict(score: Option<int>, passes: Option<bool>)

  /** One logged quality check; a missing title is the empty string. */
  datatype LogEntry = LogEntry(title: string, result: Verdict, preview: string, timestamp: string)

  /** One `ai_checks_*.json` file: its name, and its entries unless it cannot be read. */
  datatype LogFile = LogFile(name: string, entries: Option<seq<LogEntry>>)

  // ---------------------------------------------------------------------------
  // Newest log first
  // ---------------------------------------------------------------------------

  /** Python's string order: lexicographic by code point. */
  predicate StrLe(a: string, b: string)
    decreases |a|
  {
    a == [] || (b != [] && (a[0] < b[0] || (a[0] == b[0] && StrLe(a[1..], b[1..]))))
  }

  lemma {:induction false} StrLeTotal(a: string, b: string)
    ensures StrLe(a, b) || StrLe(b, a)
    decreases |a|
  {
    if a != [] && b != [] && a[0] == b[0] {
      StrLeTotal(a[1..], b[1..]);
    }
  }

  lemma {:induction false} StrLeTrans(a: string, b: string, c: string)
    requires StrLe(a, b) && StrLe(b, c)
    ensures StrLe(a, c)
    decreases |a|
  {
    if a != [] && a[0] == b[0] && b[0] == c[0] {
      StrLeTrans(a[1..], b[1..], c[1..]);
    }
  }

  /** `sorted(..., reverse=True)` on the file names: a later name comes first. */
  predicate NewerFirst(f: LogFile, g: LogFile) {
    StrLe(g.name, f.name)
  }

  lemma NewerFirstIsPreorder()
    ensures TotalPreorder(NewerFirst)
  {
    forall f: LogFile, g: LogFile
      ensures NewerFirst(f, g) || NewerFirst(g, f)
    {
      StrLeTotal(f.name, g.name);
    }
    forall f: LogFile, g: LogFile, h: LogFile | NewerFirst(f, g) && NewerFirst(g, h)
      ensures NewerFirst(f, h)
    {
      StrLeTrans(h.name, g.name, f.name);
    }
  }

  /** The log files in reverse name order: with timestamped names, newest first. */
  function NewestFirst(files: seq<LogFile>): (r: seq<LogFile>)
    ensures multiset(r) == multiset(files)
    ensures forall i, j :: 0 <= i < j < |r| ==> StrLe(r[j].name, r[i].name)
  {
    NewerFirstIsPreorder();
    InsertionSort(files, NewerFirst)
  }

  // ---------------------------------------------------------------------------
  // The latest check per title
  // ---------------------------------------------------------------------------

  /** The entries of the readable files, file by file; a file that cannot be read
      contributes nothing. */
  function Entries(files: seq<LogFile>): seq<LogEntry>
    decreases |files|
  {
    if files == [] then []
    else (if files[0].entries.Some? then files[0].entries.value else []) + Entries(files[1..])
  }

  function Titles(es: seq<LogEntry>): (ts: seq<string>)
    ensures |ts| == |es|
    ensures forall i :: 0 <= i < |es| ==> ts[i] == es[i].title
  {
    seq(|es|, i requires 0 <= i < |es| => es[i].title)
  }

  /** `r` holds, once each, the non-empty titles of `es`, each with the entry where
      the title first occurs in `es`. */
  predicate FirstOccurrences(es: seq<LogEntry>, r: seq<LogEntry>) {
    && NoDup(Titles(r))
    && (forall i :: 0 <= i < |r| ==> r[i].title != [])
    && (forall i :: 0 <= i < |es| && es[i].title != [] ==> es[i].title in Titles(r))
    && (forall i :: 0 <= i < |r| ==> r[i].title in Titles(es) && r[i] == es[FirstIndex(Titles(es), r[i].title)])
  }

  /** The dictionary `results`, as its entries in insertion order: an entry is taken
      when its title is not empty and not taken yet. */
  function FirstPerTitle(es: seq<LogEntry>): (r: seq<LogEntry>)
    ensures FirstOccurrences(es, r)
    decreases |es|
  {
    if es == [] then []
    else
      var n := |es| - 1;
      var r := FirstPerTitle(es[..n]);
      FirstPerTitleStep(es, r);
      if es[n].title != [] && es[n].title !in Titles(r) then r + [es[n]] else r
  }

  /** One more entry: taken exactly when its title is new and not empty. */
  lemma {:induction false} FirstPerTitleStep(es: seq<LogEntry>, r: seq<LogEntry>)
    requires es != [] && FirstOccurrences(es[..|es| - 1], r)
    ensures var e := es[|es| - 1];
      e.title != [] && e.title !in Titles(r) ==> FirstOccurrences(es, r + [e])
    ensures var e := es[|es| - 1];
      !(e.title != [] && e.title !in Titles(r)) ==> FirstOccurrences(es, r)
  {
    StepFacts(es, r);
    var e := es[|es| - 1];
    if e.title != [] && e.title !in Titles(r) {
      TakeStep(es, r);
    } else {
      SkipStep(es, r);
    }
  }

  /** What the entries taken so far still satisfy against the longer log. */
  lemma {:induction false} StepFacts(es: seq<LogEntry>, r: seq<LogEntry>)
    requires es != [] && FirstOccurrences(es[..|es| - 1], r)
    ensures forall i :: 0 <= i < |r| ==> r[i].title in Titles(es) && r[i] == es[FirstIndex(Titles(es), r[i].title)]
    ensures forall i :: 0 <= i < |es| - 1 && es[i].title != [] ==> es[i].title in Titles(r)
  {
    var n := |es| - 1;
    assert Titles(es)[..n] == Titles(es[..n]);
    forall i | 0 <= i < |r|
      ensures r[i].title in Titles(es) && r[i] == es[FirstIndex(Titles(es), r[i].title)]
    {
      FirstIndexPrefix(Titles(es), n, r[i].title);
    }
    forall i | 0 <= i < n && es[i].title != []
      ensures es[i].title in Titles(r)
    {
      assert es[i].title == es[..n][i].title;
    }
  }

  /** The case of `FirstPerTitleStep` where the last entry is skipped. */
  lemma {:induction false} SkipStep(es: seq<LogEntry>, r: seq<LogEntry>)
    requires es != [] && NoDup(Titles(r))
    requires forall i :: 0 <= i < |r| ==> r[i].title != []
    requires forall i :: 0 <= i < |r| ==> r[i].title in Titles(es) && r[i] == es[FirstIndex(Titles(es), r[i].title)]
    requires forall i :: 0 <= i < |es| - 1 && es[i].title != [] ==> es[i].title in Titles(r)
    requires es[|es| - 1].title == [] || es[|es| - 1].title in Titles(r)
    ensures FirstOccurrences(es, r)
  {
  }

  /** The case of `FirstPerTitleStep` where the last entry is taken. */
  lemma {:induction false} TakeStep(es: seq<LogEntry>, r: seq<LogEntry>)
    requires es != [] && NoDup(Titles(r))
    requires forall i :: 0 <= i < |r| ==> r[i].title != []
    requires forall i :: 0 <= i < |r| ==> r[i].title in Titles(es) && r[i] == es[FirstIndex(Titles(es), r[i].title)]
    requires forall i :: 0 <= i < |es| - 1 && es[i].title != [] ==> es[i].title in Titles(r)
    requires es[|es| - 1].title != [] && es[|es| - 1].title !in Titles(r)
    ensures FirstOccurrences(es, r + [es[|es| - 1]])
  {
    var n := |es| - 1;
    var e := es[n];
    var r' := r + [e];
    assert Titles(r') == Titles(r) + [e.title];
    assert FirstIndex(Titles(es), e.title) == n;
    assert r'[|r|] == e;
  }

  /** `get_recent_quality_checks`: for each title, its entry in the newest log. */
  function RecentQualityChecks(files: seq<LogFile>): (r: seq<LogEntry>)
    ensures FirstOccurrences(Entries(NewestFirst(files)), r)
  {
    FirstPerTitle(Entries(NewestFirst(files)))
  }

  // ---------------------------------------------------------------------------
  // Which snippets need a review, and in what order
  // ---------------------------------------------------------------------------

  /** An entry of `needs_review`, with the defaults filled in. */
  datatype Candidate = Candidate(title: string, score: int, passes: bool)

  function ToCandidate(e: LogEntry): Candidate {
    Candidate(
      e.title,
      if e.result.score.Some? then e.result.score.value else DefaultScore,
      if e.result.passes.Some? then e.result.passes.value else true)
  }

  /** Failed, or scored at or below the threshold. */
  predicate Wanted(c: Candidate) {
    !c.passes || c.score <= ReviewThreshold
  }

  /** The rule on the logged verdict itself: a review is wanted exactly when the
      check failed outright or recorded a score of at most 7; a verdict with neither
      field wants none. */
  lemma WantedRule(e: LogEntry)
    ensures Wanted(ToCandidate(e)) <==>
      e.result.passes == Some(false) || (e.result.score.Some? && e.result.score.value <= ReviewThreshold)
  {
  }

  function Candidates(checks: seq<LogEntry>): (cs: seq<Candidate>)
    ensures |cs| == |checks|
    ensures forall i :: 0 <= i < |checks| ==> cs[i] == ToCandidate(checks[i])
  {
    seq(|checks|, i requires 0 <= i < |checks| => ToCandidate(checks[i]))
  }

  /** The checks that need a review, in the order of the checks. */
  function NeedsReview(checks: seq<LogEntry>): (r: seq<Candidate>)
    ensures forall c :: c in r <==> Wanted(c) && exists i :: 0 <= i < |checks| && c == ToCandidate(checks[i])
  {
    Filter(Candidates(checks), Wanted)
  }

  predicate ByScore(a: Candidate, b: Candidate) {
    a.score <= b.score
  }

  lemma ByScoreIsPreorder()
    ensures TotalPreorder(ByScore)
  {
  }

  /** `needs_review.sort(key=lambda x: x['score'])`: the same candidates, lowest
      score first. */
  function ReviewQueue(checks: seq<LogEntry>): (q: seq<Candidate>)
    ensures multiset(q) == multiset(NeedsReview(checks))
    ensures forall i, j :: 0 <= i < j < |q| ==> q[i].score <= q[j].score
  {
    ByScoreIsPreorder();
    InsertionSort(NeedsReview(checks), ByScore)
  }

  /** Candidates with equal scores keep the order of the checks. */
  lemma ReviewQueueStable(checks: seq<LogEntry>, c: Candidate)
    ensures Filter(ReviewQueue(checks), Ties(ByScore, c)) == Filter(NeedsReview(checks), Ties(ByScore, c))
  {
    ByScoreIsPreorder();
    SortStable(NeedsReview(checks), ByScore, c);
  }

  // ---------------------------------------------------------------------------
  // The review file name
  // ---------------------------------------------------------------------------

  /** `[-\s]`. */
  predicate IsSep(c: char) { c == '-' || IsPySpace(c) }

  /** `[\w\s-]`: what the first substitution keeps. */
  predicate KeptInName(c: char) { IsWordChar(c) || IsSep(c) }

  /** `re.sub(r'[-\s]+', '_', s)`: each maximal run of dashes and whitespace becomes
      one `_`. No separator is left and every other character comes from `s`. */
  function CollapseSeps(s: string): (r: string)
    ensures forall k :: 0 <= k < |r| ==> r[k] == '_' || (r[k] in s && !IsSep(r[k]))
    decreases |s|
  {
    if s == [] then []
    else if !IsSep(s[0]) then
      [s[0]] + CollapseSeps(s[1..])
    else
      var e := RunEnd(s, 0, IsSep);
      "_" + CollapseSeps(s[e..])
  }

  /** One step of `CollapseSeps` at a character that is no separator. */
  lemma CollapseSepsKeptStep(s: string)
    requires s != [] && !IsSep(s[0])
    ensures CollapseSeps(s) == [s[0]] + CollapseSeps(s[1..])
  {
  }

  /** One step of `CollapseSeps` at a separator run that ends at `e`. */
  lemma CollapseSepsRunStep(s: string, e: nat)
    requires s != [] && IsSep(s[0]) && e == RunEnd(s, 0, IsSep)
    ensures CollapseSeps(s) == "_" + CollapseSeps(s[e..])
  {
  }

  /** A string that ends in a character other than a separator collapses on its own:
      no separator run reaches across its end. */
  lemma {:induction false} CollapseSepsSplit(u: string, v: string)
    requires u == [] || !IsSep(u[|u| - 1])
    ensures CollapseSeps(u + v) == CollapseSeps(u) + CollapseSeps(v)
    decreases |u|
  {
    if u == [] {
      assert u + v == v;
    } else if !IsSep(u[0]) {
      var s := u + v;
      assert s[1..] == u[1..] + v;
      CollapseSepsSplit(u[1..], v);
      CollapseSepsKeptStep(s);
      CollapseSepsKeptStep(u);
      HeadThenSplit([u[0]], CollapseSeps(s), CollapseSeps(s[1..]), CollapseSeps(u), CollapseSeps(u[1..]), CollapseSeps(v));
    } else {
      var s := u + v;
      var e := RunEnd(u, 0, IsSep);
      assert e < |u| by {
        assert !IsSep(u[|u| - 1]);
      }
      RunEndUnique(s, 0, e, IsSep);
      assert s[e..] == u[e..] + v;
      CollapseSepsSplit(u[e..], v);
      CollapseSepsRunStep(s, e);
      CollapseSepsRunStep(u, e);
      HeadThenSplit("_", CollapseSeps(s), CollapseSeps(s[e..]), CollapseSeps(u), CollapseSeps(u[e..]), CollapseSeps(v));
    }
  }

  /** A whole run of dashes and whitespace becomes exactly one `_`. */
  lemma CollapseSepsRun(w: string, v: string)
    requires w != [] && forall k :: 0 <= k < |w| ==> IsSep(w[k])
    requires v == [] || !IsSep(v[0])
    ensures CollapseSeps(w + v) == "_" + CollapseSeps(v)
  {
    var s := w + v;
    RunEndUnique(s, 0, |w|, IsSep);
    assert s[|w|..] == v;
    CollapseSepsRunStep(s, |w|);
  }

  /** The separator between two pieces: a run of dashes and whitespace between other
      characters (or the ends) turns into one `_`, and the pieces on either side
      collapse on their own. Nothing is deleted. */
  lemma CollapseSepsSeparator(u: string, w: string, v: string)
    requires u == [] || !IsSep(u[|u| - 1])
    requires w != [] && forall k :: 0 <= k < |w| ==> IsSep(w[k])
    requires v == [] || !IsSep(v[0])
    ensures CollapseSeps(u + w + v) == CollapseSeps(u) + "_" + CollapseSeps(v)
  {
    var t := w + v;
    ConcatAssoc(u, w, v);
    CollapseSepsSplit(u, t);
    CollapseSepsRun(w, v);
    SplitThenHead(CollapseSeps(u + w + v), CollapseSeps(u), CollapseSeps(t), "_", CollapseSeps(v));
  }

  /** The letters and digits survive the collapse, in order. */
  lemma {:induction false} CollapseSepsKeeps(s: string)
    ensures Keep(CollapseSeps(s), IsAsciiAlnum) == Keep(s, IsAsciiAlnum)
    decreases |s|
  {
    if s != [] {
      if !IsSep(s[0]) {
        CollapseSepsKeeps(s[1..]);
        assert s == [s[0]] + s[1..];
        KeepHead(s[0], s[1..], CollapseSeps(s[1..]));
      } else {
        var e := RunEnd(s, 0, IsSep);
        CollapseSepsKeeps(s[e..]);
        assert s == s[..e] + s[e..];
        KeepRun(s[..e], s[e..], CollapseSeps(s[e..]));
      }
    }
  }

  /** A kept character in front of two strings with the same letters and digits. */
  lemma {:induction false} KeepHead(c: char, tail: string, rest: string)
    requires Keep(rest, IsAsciiAlnum) == Keep(tail, IsAsciiAlnum)
    ensures Keep([c] + rest, IsAsciiAlnum) == Keep([c] + tail, IsAsciiAlnum)
  {
    KeepConcat([c], tail, IsAsciiAlnum);
    KeepConcat([c], rest, IsAsciiAlnum);
  }

  /** A separator run turned into `_` in front of two strings with the same letters
      and digits. */
  lemma {:induction false} KeepRun(run: string, tail: string, rest: string)
    requires forall k :: 0 <= k < |run| ==> IsSep(run[k])
    requires Keep(rest, IsAsciiAlnum) == Keep(tail, IsAsciiAlnum)
    ensures Keep("_" + rest, IsAsciiAlnum) == Keep(run + tail, IsAsciiAlnum)
  {
    KeepConcat(run, tail, IsAsciiAlnum);
    KeepNone(run, IsAsciiAlnum);
    KeepConcat("_", rest, IsAsciiAlnum);
  }

  /** `safe_title`: drop everything but word characters, whitespace and `-`, strip
      whitespace, then turn separator runs into `_`. The result holds only word
      characters, and the ASCII letters and digits of the title, in order. */
  function SafeTitle(title: string): (r: string)
    ensures forall k :: 0 <= k < |r| ==> IsWordChar(r[k])
    ensures Keep(r, IsAsciiAlnum) == Keep(title, IsAsciiAlnum)
  {
    var kept := Keep(title, KeptInName);
    var stripped := PyStrip(kept);
    StripKeeps(kept, IsPySpace, KeptInName);
    KeepKeep(title, KeptInName, IsAsciiAlnum);
    KeepStrip(kept, IsPySpace, IsAsciiAlnum);
    CollapseSepsKeeps(stripped);
    CollapseSeps(stripped)
  }

  /** A string of word characters collapses to itself. */
  lemma {:induction false} CollapseSepsOfWord(s: string)
    requires forall k :: 0 <= k < |s| ==> IsWordChar(s[k])
    ensures CollapseSeps(s) == s
    decreases |s|
  {
    if s != [] {
      assert !IsSep(s[0]);
      CollapseSepsOfWord(s[1..]);
    }
  }

  /** A word character is not whitespace. */
  lemma WordNotSpace(c: char)
    requires IsWordChar(c)
    ensures !IsPySpace(c)
  {
  }

  /** Two words around a run of dashes and whitespace make the title `a_b`. */
  lemma SafeTitleJoinsWords(a: string, w: string, b: string)
    requires a != [] && forall k :: 0 <= k < |a| ==> IsWordChar(a[k])
    requires w != [] && forall k :: 0 <= k < |w| ==> IsSep(w[k])
    requires b != [] && forall k :: 0 <= k < |b| ==> IsWordChar(b[k])
    ensures SafeTitle(a + w + b) == a + "_" + b
  {
    var s := a + w + b;
    JoinedWordsClean(a, w, b, s);
    JoinedWordsCollapse(a, w, b, s);
  }

  /** Two words around a separator run lose nothing to the filter or the strip. */
  lemma JoinedWordsClean(a: string, w: string, b: string, s: string)
    requires a != [] && forall k :: 0 <= k < |a| ==> IsWordChar(a[k])
    requires forall k :: 0 <= k < |w| ==> IsSep(w[k])
    requires b != [] && forall k :: 0 <= k < |b| ==> IsWordChar(b[k])
    requires s == a + w + b
    ensures Keep(s, KeptInName) == s && PyStrip(s) == s
  {
    KeepAll(s, KeptInName);
    assert s[0] == a[0] && s[|s| - 1] == b[|b| - 1];
    WordNotSpace(a[0]);
    WordNotSpace(b[|b| - 1]);
    StripOfClean(s, IsPySpace);
  }

  /** Two words around a separator run collapse to the words joined by `_`. */
  lemma JoinedWordsCollapse(a: string, w: string, b: string, s: string)
    requires a != [] && forall k :: 0 <= k < |a| ==> IsWordChar(a[k])
    requires w != [] && forall k :: 0 <= k < |w| ==> IsSep(w[k])
    requires b != [] && forall k :: 0 <= k < |b| ==> IsWordChar(b[k])
    requires s == a + w + b
    ensures CollapseSeps(s) == a + "_" + b
  {
    WordNotSpace(a[|a| - 1]);
    WordNotSpace(b[0]);
    CollapseSepsSeparator(a, w, b);
    CollapseSepsOfWord(a);
    CollapseSepsOfWord(b);
  }

  /** Sanitising a sanitised title changes nothing. */
  lemma SafeTitleIdempotent(title: string)
    ensures SafeTitle(SafeTitle(title)) == SafeTitle(title)
  {
    var w := SafeTitle(title);
    KeepAll(w, KeptInName);
    StripOfClean(w, IsPySpace);
    CollapseSepsOfWord(w);
  }

  const ReviewPrefix: string := "REVIEW_SNIPPET_"
  const ReviewSuffix: string := ".md"

  /** The review file name: the prefix, the sanitised title, `.md`. */
  function ReviewFileName(title: string): (f: string)
    ensures StartsWith(f, ReviewPrefix) && EndsWith(f, ReviewSuffix)
    ensures |f| == |ReviewPrefix| + |SafeTitle(title)| + |ReviewSuffix|
    ensures f[|ReviewPrefix|..|f| - |ReviewSuffix|] == SafeTitle(title)
  {
    var safe := SafeTitle(title);
    var f := ReviewPrefix + safe + ReviewSuffix;
    assert f[|ReviewPrefix|..|f| - |ReviewSuffix|] == safe;
    f
  }
}
