/** `processContentDir` of gatsby-node.js: one record per content directory, plus
    the lower-cased-title-to-directory table. The directory listing is an input: each
    entry says whether it is a directory and which of `index.mdx` and `index.md` it
    holds, with the file's text. The snippet metadata is the parsed
    `_metadata.json`, given as a map. */
module Content {
  import opened Wrappers
  import opened Chars
  import opened Seqs
  import opened Extract

  /** One entry of the listing, with the text of its `index.mdx` and `index.md` when
      they exist. */
  datatype DirEntry = DirEntry(name: string, isDir: bool, mdx: Option<string>, md: Option<string>)

  /** A metadata value as JavaScript sees it: missing or falsy, or an object whose
      `passes` is or is not the boolean `false`. */
  datatype MetaValue = Falsy | Truthy(passesIsFalse: bool)

  /** The content record of one directory; `dir` is the directory name. */
  datatype Item = Item(
    dir: string,
    id: string,
    title: string,
    slug: string,
    isSnippet: bool,
    accessible: bool,
    linkCount: nat,
    tags: seq<string>,
    wikiLinks: seq<string>)

  const SnippetIdPrefix: string := "snippet-"

  /** Directories that are kept: real directories whose name does not start with `_`. */
  predicate Listed(e: DirEntry) {
    e.isDir && !StartsWith(e.name, "_")
  }

  /** `index.mdx` when it exists, else `index.md`, else nothing. */
  function SelectFile(e: DirEntry): (r: Option<string>)
    ensures r.Some? <==> e.mdx.Some? || e.md.Some?
    ensures e.mdx.Some? ==> r == e.mdx
  {
    if e.mdx.Some? then e.mdx else e.md
  }

  /** `snippetMeta[key]`, missing keys reading as `undefined`. */
  function MetaAt(meta: map<string, MetaValue>, key: string): MetaValue {
    if key in meta then meta[key] else Falsy
  }

  /** `snippetMeta[dir] || snippetMeta[title.toLowerCase()]`. */
  function MetaFor(meta: map<string, MetaValue>, dir: string, title: string): MetaValue {
    if MetaAt(meta, dir).Truthy? then MetaAt(meta, dir) else MetaAt(meta, Lower(title))
  }

  /** Posts are always accessible; a snippet is not when its metadata says `passes: false`. */
  function Accessible(isSnippet: bool, meta: map<string, MetaValue>, dir: string, title: string): (ok: bool)
    ensures !ok <==>
      && isSnippet
      && ((dir in meta && meta[dir] == Truthy(true)) ||
          ((dir !in meta || meta[dir] == Falsy) && Lower(title) in meta && meta[Lower(title)] == Truthy(true)))
  {
    !(isSnippet && MetaFor(meta, dir, title) == Truthy(true))
  }

  function ItemId(dir: string, isSnippet: bool): string {
    if isSnippet then SnippetIdPrefix + dir else dir
  }

  function ItemSlug(dir: string, isSnippet: bool): string {
    if isSnippet then "/snippets/" + dir + "/" else "/" + dir + "/"
  }

  /** The record built for directory `dir` whose file holds `text`. */
  function MakeItem(dir: string, text: string, isSnippet: bool, meta: map<string, MetaValue>): (it: Item)
    ensures it.dir == dir && it.isSnippet == isSnippet
    ensures it.title == ExtractTitle(text, dir)
    ensures it.tags == ExtractTags(text) && it.wikiLinks == ExtractWikiLinks(text)
    ensures it.linkCount == |it.wikiLinks| + |it.tags|
    ensures TitleCapture(text, 0).None? ==> it.title == dir
    ensures isSnippet ==> it.id == SnippetIdPrefix + dir && ReplaceFirst(it.id, SnippetIdPrefix, "") == dir
    ensures isSnippet ==> it.slug == "/snippets/" + dir + "/"
    ensures !isSnippet ==> it.id == dir && it.slug == "/" + dir + "/" && it.accessible
    ensures it.accessible == Accessible(isSnippet, meta, dir, it.title)
  {
    var title := ExtractTitle(text, dir);
    var links := ExtractWikiLinks(text);
    var tags := ExtractTags(text);
    ReplaceFirstOfPrefixed(SnippetIdPrefix, dir);
    Item(dir, ItemId(dir, isSnippet), title, ItemSlug(dir, isSnippet), isSnippet,
         Accessible(isSnippet, meta, dir, title), |links| + |tags|, tags, links)
  }

  /** A content file: the directory name and the text of the file chosen for it. */
  datatype Source = Source(dir: string, text: string)

  /** A listed directory that holds a content file. */
  predicate HasSource(e: DirEntry) {
    Listed(e) && SelectFile(e).Some?
  }

  /** The source a listed directory gives. */
  function SourceOf(e: DirEntry): Source
    requires HasSource(e)
  {
    Source(e.name, SelectFile(e).value)
  }

  /** The listed directories that hold a content file, in listing order. */
  function Sources(entries: seq<DirEntry>): (r: seq<Source>)
    ensures |r| <= |entries|
    ensures forall i :: 0 <= i < |r| ==> !StartsWith(r[i].dir, "_")
    ensures forall e :: e in entries && Listed(e) && SelectFile(e).Some? ==>
      Source(e.name, SelectFile(e).value) in r
    ensures forall src :: src in r ==>
      exists e :: e in entries && Listed(e) && SelectFile(e) == Some(src.text) && e.name == src.dir
  {
    var kept := Filter(entries, HasSource);
    var r := seq(|kept|, i requires 0 <= i < |kept| => SourceOf(kept[i]));
    forall e | e in entries && HasSource(e)
      ensures SourceOf(e) in r
    {
      var k :| 0 <= k < |kept| && kept[k] == e;
      assert r[k] == SourceOf(e);
    }
    forall src | src in r
      ensures exists e :: e in entries && Listed(e) && SelectFile(e) == Some(src.text) && e.name == src.dir
    {
      var k :| 0 <= k < |r| && r[k] == src;
      assert kept[k] in kept;
    }
    r
  }

  /** The sources follow the listing: the `k`-th source comes from the `k`-th listed
      directory holding a file, at strictly increasing positions, and every such
      directory gives one. */
  lemma SourcesInListingOrder(entries: seq<DirEntry>)
    ensures var idx := FilterIndices(entries, HasSource);
      && |idx| == |Sources(entries)|
      && (forall k :: 0 <= k < |idx| ==>
            idx[k] < |entries| && HasSource(entries[idx[k]]) && Sources(entries)[k] == SourceOf(entries[idx[k]]))
      && (forall k, l :: 0 <= k < l < |idx| ==> idx[k] < idx[l])
      && (forall j :: 0 <= j < |entries| && HasSource(entries[j]) ==> j in idx)
  {
    var kept := Filter(entries, HasSource);
    assert forall k :: 0 <= k < |kept| ==> HasSource(kept[k]);
  }

  /** One record per source, in order. */
  function Items(sources: seq<Source>, isSnippet: bool, meta: map<string, MetaValue>): (items: seq<Item>)
    ensures |items| == |sources|
    ensures forall i :: 0 <= i < |items| ==> items[i] == MakeItem(sources[i].dir, sources[i].text, isSnippet, meta)
  {
    seq(|sources|, i requires 0 <= i < |sources| => MakeItem(sources[i].dir, sources[i].text, isSnippet, meta))
  }

  /** A JavaScript `Map` filled by `set` in order: a later pair overrides an earlier one
      with the same key. */
  function SetAll(pairs: seq<(string, string)>): map<string, string>
    decreases |pairs|
  {
    if pairs == [] then map[]
    else
      var n := |pairs| - 1;
      SetAll(pairs[..n])[pairs[n].0 := pairs[n].1]
  }

  /** The keys of the table are exactly the keys of the pairs. */
  lemma {:induction false} SetAllKeys(pairs: seq<(string, string)>, k: string)
    ensures k in SetAll(pairs) <==> exists i :: 0 <= i < |pairs| && pairs[i].0 == k
    decreases |pairs|
  {
    if pairs != [] {
      var n := |pairs| - 1;
      SetAllKeys(pairs[..n], k);
      assert forall i :: 0 <= i < n ==> pairs[..n][i] == pairs[i];
      if k in SetAll(pairs) && k != pairs[n].0 {
        var i :| 0 <= i < n && pairs[..n][i].0 == k;
        assert pairs[i].0 == k;
      }
    }
  }

  /** The value of a key is the one of its last pair. */
  lemma {:induction false} SetAllLastWins(pairs: seq<(string, string)>, i: nat)
    requires i < |pairs|
    requires forall j :: i < j < |pairs| ==> pairs[j].0 != pairs[i].0
    ensures pairs[i].0 in SetAll(pairs) && SetAll(pairs)[pairs[i].0] == pairs[i].1
    decreases |pairs|
  {
    var n := |pairs| - 1;
    if i < n {
      assert forall j :: 0 <= j < n ==> pairs[..n][j] == pairs[j];
      SetAllLastWins(pairs[..n], i);
    }
  }

  /** Filling one table with two sequences of pairs is the union of the two tables,
      the second winning on shared keys (`new Map([...a, ...b])`). */
  lemma {:induction false} SetAllConcat(a: seq<(string, string)>, b: seq<(string, string)>)
    ensures SetAll(a + b) == SetAll(a) + SetAll(b)
    decreases |b|
  {
    if b == [] {
      assert a + b == a;
    } else {
      var n := |b| - 1;
      var ab := a + b;
      assert ab[..|a| + n] == a + b[..n];
      assert ab[|ab| - 1] == b[n];
      SetAllConcat(a, b[..n]);
      var k, v := b[n].0, b[n].1;
      assert SetAll(ab) == (SetAll(a) + SetAll(b[..n]))[k := v];
      assert SetAll(b) == SetAll(b[..n])[k := v];
      assert (SetAll(a) + SetAll(b[..n]))[k := v] == SetAll(a) + SetAll(b[..n])[k := v];
    }
  }

  /** `titleToSlug.set(title.toLowerCase(), dir)` for each record in order. */
  function TitlePairs(items: seq<Item>): (pairs: seq<(string, string)>)
    ensures |pairs| == |items|
    ensures forall i :: 0 <= i < |items| ==> pairs[i] == (Lower(items[i].title), items[i].dir)
  {
    seq(|items|, i requires 0 <= i < |items| => (Lower(items[i].title), items[i].dir))
  }

  function TitleTable(items: seq<Item>): map<string, string> {
    SetAll(TitlePairs(items))
  }

  /** The table has a key exactly for the lower-cased title of some record. */
  lemma TitleTableKeys(items: seq<Item>, k: string)
    ensures k in TitleTable(items) <==> exists i :: 0 <= i < |items| && Lower(items[i].title) == k
  {
    SetAllKeys(TitlePairs(items), k);
  }

  /** A title maps to the directory of the last record with that title. */
  lemma TitleTableLast(items: seq<Item>, i: nat)
    requires i < |items|
    requires forall j :: i < j < |items| ==> Lower(items[j].title) != Lower(items[i].title)
    ensures Lower(items[i].title) in TitleTable(items)
    ensures TitleTable(items)[Lower(items[i].title)] == items[i].dir
  {
    SetAllLastWins(TitlePairs(items), i);
  }

  /** `processContentDir`: a missing directory (`None`) gives no records and an empty table. */
  function ProcessContentDir(root: Option<seq<DirEntry>>, isSnippet: bool, meta: map<string, MetaValue>)
    : (r: (seq<Item>, map<string, string>))
    ensures root.None? ==> r.0 == [] && r.1 == map[]
    ensures root.Some? ==> |r.0| == |Sources(root.value)|
    ensures root.Some? ==> forall i :: 0 <= i < |r.0| ==>
      r.0[i] == MakeItem(Sources(root.value)[i].dir, Sources(root.value)[i].text, isSnippet, meta)
    ensures forall i :: 0 <= i < |r.0| ==> r.0[i].isSnippet == isSnippet && !StartsWith(r.0[i].dir, "_")
    ensures r.1 == TitleTable(r.0)
  {
    match root
    case None => ([], map[])
    case Some(entries) =>
      var items := Items(Sources(entries), isSnippet, meta);
      (items, TitleTable(items))
  }
}
