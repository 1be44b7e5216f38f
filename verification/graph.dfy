/** The link-graph assembly of `onPostBuild` in gatsby-node.js: content nodes for
    posts and visible snippets, wiki-link edges from posts, tag edges and tag nodes,
    placeholder nodes for missing targets, incoming-link counts, and the final edge
    filter. The hidden snippet slugs are the parsed `hidden_snippets.json`, given as a
    set; writing `graph-data.json` is left to the caller. */
module Graph {
  import opened Wrappers
  import opened Chars
  import opened Seqs
  import opened Slug
  import opened Tally
  import opened Extract
  import opened Content

  /** A node of the graph; `pageExists` is the `exists` flag of the JSON output. */
  datatype Node = Node(
    id: string,
    title: string,
    slug: Option<string>,
    pageExists: bool,
    isTag: bool,
    isSnippet: bool,
    accessible: bool,
    linkCount: nat,
    incomingLinks: nat,
    totalLinks: nat)

  datatype Link = Link(source: string, target: string, targetTitle: string)

  datatype Graph = Graph(nodes: seq<Node>, links: seq<Link>)

  /** The tables wiki links are resolved against, and the hidden snippet slugs. */
  datatype Ctx = Ctx(titles: map<string, string>, snippetTitles: map<string, string>, hidden: set<string>)

  const TagPrefix: string := "tag-"

  /** `id.replace('snippet-', '')`: only the first occurrence goes. */
  function SnippetSlugOf(id: string): string {
    ReplaceFirst(id, SnippetIdPrefix, "")
  }

  // ---------------------------------------------------------------------------
  // Content nodes
  // ---------------------------------------------------------------------------

  /** A snippet record stays unless its slug is hidden. */
  predicate Shown(hidden: set<string>, it: Item) {
    SnippetSlugOf(it.id) !in hidden
  }

  function VisibleSnippets(snippets: seq<Item>, hidden: set<string>): (r: seq<Item>)
    ensures forall it :: it in r <==> it in snippets && SnippetSlugOf(it.id) !in hidden
  {
    Filter(snippets, it => Shown(hidden, it))
  }

  /** The node of a content record, without its tags and links; `totalLinks` starts at
      the record's outgoing count. */
  function ContentNode(it: Item): (n: Node)
    ensures n.id == it.id && n.title == it.title && n.pageExists && !n.isTag
    ensures n.isSnippet == it.isSnippet && n.accessible == it.accessible
    ensures n.incomingLinks == 0 && n.totalLinks == n.linkCount == it.linkCount
  {
    Node(it.id, it.title, Some(it.slug), true, false, it.isSnippet, it.accessible,
         it.linkCount, 0, it.linkCount)
  }

  function ContentNodes(items: seq<Item>): (r: seq<Node>)
    ensures |r| == |items|
    ensures forall i :: 0 <= i < |items| ==> r[i] == ContentNode(items[i])
  {
    seq(|items|, i requires 0 <= i < |items| => ContentNode(items[i]))
  }

  // ---------------------------------------------------------------------------
  // Edges
  // ---------------------------------------------------------------------------

  /** The slug a wiki link resolves to: the rest of a `snippet:` key, else
      `titleToSlug.get(title.toLowerCase()) || slugify(title)`. */
  function TargetSlug(ctx: Ctx, linkTitle: string): (r: string)
    ensures StartsWith(linkTitle, SnippetPrefix) ==> r == linkTitle[|SnippetPrefix|..]
    ensures (!StartsWith(linkTitle, SnippetPrefix) && Lower(linkTitle) in ctx.titles
             && ctx.titles[Lower(linkTitle)] != "") ==> r == ctx.titles[Lower(linkTitle)]
    ensures (!StartsWith(linkTitle, SnippetPrefix)
             && (Lower(linkTitle) !in ctx.titles || ctx.titles[Lower(linkTitle)] == "")) ==> r == Slugify(linkTitle)
  {
    if StartsWith(linkTitle, SnippetPrefix) then ReplaceFirst(linkTitle, SnippetPrefix, "")
    else
      var key := Lower(linkTitle);
      if key in ctx.titles && ctx.titles[key] != "" then ctx.titles[key] else Slugify(linkTitle)
  }

  /** The edge one wiki link of a post gives, if any. */
  function WikiEdge(ctx: Ctx, source: string, linkTitle: string): (r: Option<Link>)
    ensures r.Some? <==> TargetSlug(ctx, linkTitle) != "" && TargetSlug(ctx, linkTitle) !in ctx.hidden
    ensures r.Some? ==> r.value.source == source && r.value.target != ""
    ensures r.Some? && StartsWith(linkTitle, SnippetPrefix) ==>
      r.value.target == SnippetIdPrefix + TargetSlug(ctx, linkTitle) && r.value.targetTitle == TargetSlug(ctx, linkTitle)
    ensures r.Some? && !StartsWith(linkTitle, SnippetPrefix) ==>
      && r.value.targetTitle == linkTitle
      && r.value.target == (if Lower(linkTitle) in ctx.snippetTitles then SnippetIdPrefix else "") + TargetSlug(ctx, linkTitle)
  {
    var slug := TargetSlug(ctx, linkTitle);
    if slug in ctx.hidden || slug == "" then None
    else if StartsWith(linkTitle, SnippetPrefix) then Some(Link(source, SnippetIdPrefix + slug, slug))
    else if Lower(linkTitle) in ctx.snippetTitles then Some(Link(source, SnippetIdPrefix + slug, linkTitle))
    else
      assert "" + slug == slug;
      Some(Link(source, slug, linkTitle))
  }

  /** The `snippet:` keys the text extraction produces lead to the snippet node of
      that slug. */
  lemma SnippetKeyEdge(ctx: Ctx, source: string, slug: string)
    requires slug != "" && slug !in ctx.hidden
    ensures WikiEdge(ctx, source, SnippetKey(slug)) == Some(Link(source, SnippetIdPrefix + slug, slug))
  {
    assert SnippetKey(slug)[..|SnippetPrefix|] == SnippetPrefix;
    assert SnippetKey(slug)[|SnippetPrefix|..] == slug;
  }

  /** `wikiLinks.forEach(...)`: the edges of a post's wiki links, in order. */
  function WikiEdges(ctx: Ctx, source: string, titles: seq<string>): (r: seq<Link>)
    ensures forall k :: 0 <= k < |r| ==> r[k].source == source && r[k].target != ""
    ensures forall k :: 0 <= k < |r| ==> exists t :: t in titles && WikiEdge(ctx, source, t) == Some(r[k])
    ensures forall t :: t in titles && WikiEdge(ctx, source, t).Some? ==> WikiEdge(ctx, source, t).value in r
    decreases |titles|
  {
    if titles == [] then []
    else
      var rest := WikiEdges(ctx, source, titles[1..]);
      EdgesCons(ctx, source, titles, rest);
      PrependEdge(WikiEdge(ctx, source, titles[0]), rest)
  }

  /** The edges a list of wiki links gives, as `WikiEdges` states them. */
  ghost predicate EdgesFrom(ctx: Ctx, source: string, titles: seq<string>, r: seq<Link>) {
    && (forall k :: 0 <= k < |r| ==> r[k].source == source && r[k].target != "")
    && (forall k :: 0 <= k < |r| ==> exists t :: t in titles && WikiEdge(ctx, source, t) == Some(r[k]))
    && (forall t :: t in titles && WikiEdge(ctx, source, t).Some? ==> WikiEdge(ctx, source, t).value in r)
  }

  /** The edge of the first link, if any, in front of the others. */
  function PrependEdge(e: Option<Link>, rest: seq<Link>): seq<Link> {
    match e
    case None => rest
    case Some(l) => [l] + rest
  }

  /** The step of `WikiEdges`. */
  lemma EdgesCons(ctx: Ctx, source: string, titles: seq<string>, rest: seq<Link>)
    requires titles != [] && EdgesFrom(ctx, source, titles[1..], rest)
    ensures EdgesFrom(ctx, source, titles, PrependEdge(WikiEdge(ctx, source, titles[0]), rest))
  {
    var f := t => WikiEdge(ctx, source, t);
    assert forall t :: f(t) == WikiEdge(ctx, source, t);
    assert forall k :: 0 <= k < |rest| ==> exists t :: t in titles[1..] && WikiEdge(ctx, source, t) == Some(rest[k]);
    forall k | 0 <= k < |rest|
      ensures exists t :: t in titles[1..] && f(t) == Some(rest[k])
    {
      var t :| t in titles[1..] && WikiEdge(ctx, source, t) == Some(rest[k]);
      assert f(t) == Some(rest[k]);
    }
    assert forall k :: 0 <= k < |rest| ==> exists t :: t in titles[1..] && f(t) == Some(rest[k]);
    PrependSound(f, titles, rest);
    PrependComplete(f, titles, rest);
  }

  /** Each edge in front of edges of the later links comes from one of the links. */
  lemma PrependSound(f: string -> Option<Link>, titles: seq<string>, rest: seq<Link>)
    requires titles != []
    requires forall k :: 0 <= k < |rest| ==> exists t :: t in titles[1..] && f(t) == Some(rest[k])
    ensures var r := PrependEdge(f(titles[0]), rest);
      forall k :: 0 <= k < |r| ==> exists t :: t in titles && f(t) == Some(r[k])
  {
    var e := f(titles[0]);
    var r := PrependEdge(e, rest);
    var d := if e.Some? then 1 else 0;
    assert |r| == |rest| + d;
    forall k | 0 <= k < |r|
      ensures exists t :: t in titles && f(t) == Some(r[k])
    {
      if k < d {
        assert r[k] == e.value && titles[0] in titles;
      } else {
        assert r[k] == rest[k - d];
        var t :| t in titles[1..] && f(t) == Some(rest[k - d]);
        assert t in titles;
      }
    }
  }

  /** Every link that gives an edge has it among the first link's edge and the
      later links' edges. */
  lemma PrependComplete(f: string -> Option<Link>, titles: seq<string>, rest: seq<Link>)
    requires titles != []
    requires forall t :: t in titles[1..] && f(t).Some? ==> f(t).value in rest
    ensures forall t :: t in titles && f(t).Some? ==> f(t).value in PrependEdge(f(titles[0]), rest)
  {
    forall t | t in titles && f(t).Some?
      ensures f(t).value in PrependEdge(f(titles[0]), rest)
    {
      if t != titles[0] {
        assert t in titles[1..] by {
          assert titles == [titles[0]] + titles[1..];
        }
      }
    }
  }

  /** A tag has an edge and a node when its slug is not empty. */
  predicate HasSlug(tag: string) {
    Slugify(tag) != ""
  }

  /** The edge from `source` to the node of `tag`. */
  function TagLink(source: string, tag: string): Link {
    Link(source, TagPrefix + Slugify(tag), tag)
  }

  /** `tags.forEach(...)`: one edge per tag whose slug is not empty, in order. */
  function TagEdges(source: string, tags: seq<string>): (r: seq<Link>)
    ensures |r| == |Filter(tags, HasSlug)|
    ensures forall k :: 0 <= k < |r| ==> r[k] == TagLink(source, Filter(tags, HasSlug)[k])
  {
    var kept := Filter(tags, HasSlug);
    seq(|kept|, k requires 0 <= k < |kept| => TagLink(source, kept[k]))
  }

  /** The target titles of some edges, in order. */
  function TargetTitles(links: seq<Link>): (ts: seq<string>)
    ensures |ts| == |links|
    ensures forall k :: 0 <= k < |links| ==> ts[k] == links[k].targetTitle
  {
    seq(|links|, k requires 0 <= k < |links| => links[k].targetTitle)
  }

  /** Each tag edge leaves the source for `tag-<slug>` of a tag of the list whose slug
      is not empty, and a tag with a slug has exactly as many edges as it has
      occurrences; a tag without one has none. */
  lemma TagEdgesCount(source: string, tags: seq<string>, t: string)
    ensures forall k :: 0 <= k < |TagEdges(source, tags)| ==>
      var l := TagEdges(source, tags)[k];
      l.source == source && l.targetTitle in tags && HasSlug(l.targetTitle)
        && l.target == TagPrefix + Slugify(l.targetTitle)
    ensures Count(TargetTitles(TagEdges(source, tags)), t) == if HasSlug(t) then Count(tags, t) else 0
  {
    var kept := Filter(tags, HasSlug);
    var r := TagEdges(source, tags);
    forall k | 0 <= k < |r|
      ensures r[k].targetTitle in tags && HasSlug(r[k].targetTitle)
    {
      assert kept[k] in kept;
    }
    assert TargetTitles(r) == kept;
    FilterCount(tags, HasSlug, t);
  }

  /** A tag edge of `it`. */
  predicate IsTagEdgeOf(it: Item, l: Link) {
    l.targetTitle in it.tags && HasSlug(l.targetTitle) && l == TagLink(it.id, l.targetTitle)
  }

  /** The edges of one content record: wiki links for posts only, then tag edges. */
  function NodeEdges(ctx: Ctx, it: Item): seq<Link> {
    (if it.isSnippet then [] else WikiEdges(ctx, it.id, it.wikiLinks)) + TagEdges(it.id, it.tags)
  }

  /** Every edge of a record leaves its id; a snippet's edges are all tag edges, and
      each tag with a non-empty slug has its edge. */
  lemma NodeEdgesShape(ctx: Ctx, it: Item)
    ensures forall l :: l in NodeEdges(ctx, it) ==> l.source == it.id && l.target != ""
    ensures it.isSnippet ==> forall l :: l in NodeEdges(ctx, it) ==> IsTagEdgeOf(it, l)
    ensures forall t :: t in it.tags && HasSlug(t) ==> TagLink(it.id, t) in NodeEdges(ctx, it)
  {
    var wiki := if it.isSnippet then [] else WikiEdges(ctx, it.id, it.wikiLinks);
    var tagEdges := TagEdges(it.id, it.tags);
    var kept := Filter(it.tags, HasSlug);
    var r := wiki + tagEdges;
    assert r == NodeEdges(ctx, it);
    forall l | l in tagEdges
      ensures IsTagEdgeOf(it, l)
    {
      var k :| 0 <= k < |tagEdges| && tagEdges[k] == l;
      assert kept[k] in kept;
    }
    forall t | t in it.tags && HasSlug(t)
      ensures TagLink(it.id, t) in r
    {
      assert t in kept;
      var k :| 0 <= k < |kept| && kept[k] == t;
      assert tagEdges[k] in tagEdges;
    }
  }

  /** The edges of all content records, record by record. */
  function AllEdges(ctx: Ctx, items: seq<Item>): seq<Link>
    decreases |items|
  {
    if items == [] then [] else NodeEdges(ctx, items[0]) + AllEdges(ctx, items[1..])
  }

  /** An edge is in the whole list exactly when some record has it. */
  lemma {:induction false} AllEdgesFrom(ctx: Ctx, items: seq<Item>, l: Link)
    ensures l in AllEdges(ctx, items) <==> exists i :: 0 <= i < |items| && l in NodeEdges(ctx, items[i])
    decreases |items|
  {
    if items != [] {
      AllEdgesFrom(ctx, items[1..], l);
      assert forall i :: 1 <= i < |items| ==> items[i] == items[1..][i - 1];
      if l in AllEdges(ctx, items[1..]) {
        var i :| 0 <= i < |items[1..]| && l in NodeEdges(ctx, items[1..][i]);
        assert l in NodeEdges(ctx, items[i + 1]);
      }
    }
  }

  // ---------------------------------------------------------------------------
  // Tag nodes
  // ---------------------------------------------------------------------------

  /** The tags of all records, in order, with repetitions. */
  function AllTags(items: seq<Item>): seq<string>
    decreases |items|
  {
    if items == [] then [] else items[0].tags + AllTags(items[1..])
  }

  function TagCounts(items: seq<Item>): Counts {
    TallyWhere([], AllTags(items), HasSlug)
  }

  function TagNode(tag: string, count: nat): (n: Node)
    ensures n.isTag && n.pageExists && n.accessible && !n.isSnippet
    ensures n.id == TagPrefix + Slugify(tag) && n.title == tag
    ensures n.linkCount == n.incomingLinks == n.totalLinks == count
  {
    var slug := Slugify(tag);
    Node(TagPrefix + slug, tag, Some("/tags/" + slug + "/"), true, true, false, true, count, count, count)
  }

  predicate EntryHasSlug(e: (string, nat)) {
    HasSlug(e.0)
  }

  /** The flags and counters every tag node has. */
  predicate IsTagNode(n: Node) {
    n.isTag && n.pageExists && !n.isSnippet && n.linkCount == n.incomingLinks == n.totalLinks
  }

  /** `allTags.forEach(...)`: a node for each counted tag with a non-empty slug, in
      insertion order. */
  function TagNodes(counts: Counts): (r: seq<Node>)
    ensures forall k :: 0 <= k < |r| ==> IsTagNode(r[k])
    ensures forall k :: 0 <= k < |r| ==> r[k].id == TagPrefix + Slugify(r[k].title)
    ensures |r| == |Filter(counts, EntryHasSlug)|
    ensures forall k :: 0 <= k < |r| ==> r[k] == TagNode(Filter(counts, EntryHasSlug)[k].0, Filter(counts, EntryHasSlug)[k].1)
  {
    var kept := Filter(counts, EntryHasSlug);
    seq(|kept|, k requires 0 <= k < |kept| => TagNode(kept[k].0, kept[k].1))
  }

  // ---------------------------------------------------------------------------
  // Placeholders
  // ---------------------------------------------------------------------------

  /** The slug the placeholder pass checks: `snippet-` removed from snippet ids only. */
  function PlaceholderSlug(target: string): string {
    if StartsWith(target, SnippetIdPrefix) then SnippetSlugOf(target) else target
  }

  /** A link target that is neither a node yet, nor a tag, nor a hidden slug. */
  predicate Missing(existing: set<string>, hidden: set<string>, target: string) {
    target !in existing && !StartsWith(target, TagPrefix) && PlaceholderSlug(target) !in hidden
  }

  /** The node standing for a page that does not exist. */
  function Placeholder(l: Link): (n: Node)
    ensures n.id == l.target && n.title == l.targetTitle
    ensures !n.pageExists && !n.isTag && !n.accessible
    ensures n.isSnippet == StartsWith(l.target, SnippetIdPrefix)
    ensures n.slug.Some? <==> n.isSnippet
    ensures n.linkCount == n.incomingLinks == n.totalLinks == 0
  {
    var isSnippet := StartsWith(l.target, SnippetIdPrefix);
    Node(l.target, l.targetTitle,
         if isSnippet then Some("/snippets/" + PlaceholderSlug(l.target) + "/") else None,
         false, false, isSnippet, false, 0, 0, 0)
  }

  /** The flags and counters every placeholder has. */
  predicate IsPlaceholder(n: Node) {
    && !n.pageExists && !n.isTag && !n.accessible
    && n.isSnippet == StartsWith(n.id, SnippetIdPrefix)
    && n.linkCount == n.incomingLinks == n.totalLinks == 0
  }

  /** A link the placeholder pass must give a node: its target is not a tag id and
      its slug is not hidden. */
  predicate WantsNode(hidden: set<string>, l: Link) {
    !StartsWith(l.target, TagPrefix) && PlaceholderSlug(l.target) !in hidden
  }

  /** `links.forEach(...)`: one placeholder per missing target, the first link to it
      giving its title. No two placeholders share an id, and afterwards every link
      that wants a node has one. */
  function Placeholders(existing: set<string>, hidden: set<string>, links: seq<Link>): (r: seq<Node>)
    ensures forall k :: 0 <= k < |r| ==> IsPlaceholder(r[k])
    ensures forall k :: 0 <= k < |r| ==> Missing(existing, hidden, r[k].id)
    ensures forall k1, k2 :: 0 <= k1 < k2 < |r| ==> r[k1].id != r[k2].id
    ensures forall j :: 0 <= j < |links| && WantsNode(hidden, links[j]) ==>
      links[j].target in existing || links[j].target in IdsOf(r)
    decreases |links|
  {
    if links == [] then []
    else
      var l := links[0];
      assert forall j :: 1 <= j < |links| ==> links[1..][j - 1] == links[j];
      if Missing(existing, hidden, l.target) then
        var rest := Placeholders(existing + {l.target}, hidden, links[1..]);
        var r := [Placeholder(l)] + rest;
        assert IdsOf(r) == [l.target] + IdsOf(rest);
        assert forall k :: 1 <= k < |r| ==> r[k] == rest[k - 1];
        r
      else Placeholders(existing, hidden, links[1..])
  }

  /** No link before the j-th has its target. */
  predicate FirstToTarget(links: seq<Link>, j: nat)
    requires j < |links|
  {
    forall i :: 0 <= i < j ==> links[i].target != links[j].target
  }

  /** Each placeholder is the node of the first link to its target, which gives the
      placeholder its title. */
  lemma {:induction false} PlaceholdersFromLinks(existing: set<string>, hidden: set<string>, links: seq<Link>, k: nat)
    requires k < |Placeholders(existing, hidden, links)|
    ensures exists j ::
      0 <= j < |links| && FirstToTarget(links, j) && Placeholders(existing, hidden, links)[k] == Placeholder(links[j])
    decreases |links|
  {
    var l := links[0];
    if Missing(existing, hidden, l.target) {
      var rest := Placeholders(existing + {l.target}, hidden, links[1..]);
      assert Placeholders(existing, hidden, links) == [Placeholder(l)] + rest;
      if k > 0 {
        PlaceholdersFromLinks(existing + {l.target}, hidden, links[1..], k - 1);
        var j :| 0 <= j < |links[1..]| && FirstToTarget(links[1..], j) && rest[k - 1] == Placeholder(links[1..][j]);
        assert Missing(existing + {l.target}, hidden, rest[k - 1].id);
        FirstAfterHead(links, j);
      } else {
        assert Placeholders(existing, hidden, links)[0] == Placeholder(links[0]);
      }
    } else {
      var rest := Placeholders(existing, hidden, links[1..]);
      assert Placeholders(existing, hidden, links) == rest;
      PlaceholdersFromLinks(existing, hidden, links[1..], k);
      var j :| 0 <= j < |links[1..]| && FirstToTarget(links[1..], j) && rest[k] == Placeholder(links[1..][j]);
      assert Missing(existing, hidden, rest[k].id);
      FirstAfterHead(links, j);
    }
  }

  /** The first link to a target after the head, when the head has another target, is
      the first link to it overall. */
  lemma FirstAfterHead(links: seq<Link>, j: nat)
    requires j + 1 < |links| && FirstToTarget(links[1..], j)
    requires links[0].target != links[1..][j].target
    ensures links[1..][j] == links[j + 1] && FirstToTarget(links, j + 1)
  {
    forall i | 0 <= i < j + 1
      ensures links[i].target != links[j + 1].target
    {
      if i > 0 {
        assert links[1..][i - 1] == links[i];
      }
    }
  }

  // ---------------------------------------------------------------------------
  // Incoming links
  // ---------------------------------------------------------------------------

  function IdsOf(nodes: seq<Node>): (r: seq<string>)
    ensures |r| == |nodes|
    ensures forall i :: 0 <= i < |nodes| ==> r[i] == nodes[i].id
  {
    seq(|nodes|, i requires 0 <= i < |nodes| => nodes[i].id)
  }

  /** The index of the first node with id `id` (`nodes.find`). */
  function FirstWithId(nodes: seq<Node>, id: string): (r: Option<nat>)
    ensures r.Some? ==> r.value < |nodes| && nodes[r.value].id == id
    ensures r.Some? ==> forall k :: 0 <= k < r.value ==> nodes[k].id != id
    ensures r.None? ==> forall k :: 0 <= k < |nodes| ==> nodes[k].id != id
    decreases |nodes|
  {
    if nodes == [] then None
    else if nodes[0].id == id then Some(0)
    else match FirstWithId(nodes[1..], id)
      case None => None
      case Some(k) => Some(k + 1)
  }

  /** `n` with `c` more incoming links. */
  function Credited(n: Node, c: nat): Node {
    n.(incomingLinks := n.incomingLinks + c, totalLinks := n.totalLinks + c)
  }

  /** Whether the increments for id `nodes[i].id` land on node `i`: it is the first node
      with that id, and not a tag node. */
  predicate Receives(nodes: seq<Node>, i: nat)
    requires i < |nodes|
  {
    !nodes[i].isTag && FirstWithId(nodes, nodes[i].id) == Some(i)
  }

  /** One link's increment. */
  function Credit(nodes: seq<Node>, target: string): (r: seq<Node>)
    ensures |r| == |nodes|
    ensures forall i :: 0 <= i < |nodes| ==>
      r[i] == Credited(nodes[i], if nodes[i].id == target && Receives(nodes, i) then 1 else 0)
  {
    match FirstWithId(nodes, target)
    case None => nodes
    case Some(k) => if nodes[k].isTag then nodes else nodes[k := Credited(nodes[k], 1)]
  }

  /** The number of links to `id`. */
  function CountTargets(links: seq<Link>, id: string): nat
    decreases |links|
  {
    if links == [] then 0 else (if links[0].target == id then 1 else 0) + CountTargets(links[1..], id)
  }

  /** Crediting keeps ids and tag flags, so it keeps which node receives. */
  lemma CreditKeepsReceivers(nodes: seq<Node>, target: string)
    ensures forall i :: 0 <= i < |nodes| ==> Receives(Credit(nodes, target), i) == Receives(nodes, i)
  {
    var r := Credit(nodes, target);
    assert IdsOf(r) == IdsOf(nodes);
    forall i | 0 <= i < |nodes|
      ensures FirstWithId(r, nodes[i].id) == FirstWithId(nodes, nodes[i].id)
    {
      FirstWithIdOfSameIds(r, nodes, nodes[i].id);
    }
  }

  lemma {:induction false} FirstWithIdOfSameIds(a: seq<Node>, b: seq<Node>, id: string)
    requires IdsOf(a) == IdsOf(b)
    ensures FirstWithId(a, id) == FirstWithId(b, id)
    decreases |a|
  {
    if a != [] {
      assert a[0].id == IdsOf(a)[0] == IdsOf(b)[0] == b[0].id;
      assert IdsOf(a[1..]) == IdsOf(a)[1..];
      assert IdsOf(b[1..]) == IdsOf(b)[1..];
      FirstWithIdOfSameIds(a[1..], b[1..], id);
    }
  }

  /** `links.forEach(link => { ... node.incomingLinks++ ... })`. */
  function Incoming(nodes: seq<Node>, links: seq<Link>): (r: seq<Node>)
    ensures |r| == |nodes|
    decreases |links|
  {
    if links == [] then nodes else Incoming(Credit(nodes, links[0].target), links[1..])
  }

  /** Each node ends with one more incoming link per link to its id when it receives
      them, and unchanged otherwise; tag nodes are never incremented. */
  lemma {:induction false} IncomingCounts(nodes: seq<Node>, links: seq<Link>)
    ensures |Incoming(nodes, links)| == |nodes|
    ensures forall i :: 0 <= i < |nodes| ==>
      Incoming(nodes, links)[i] == Credited(nodes[i], if Receives(nodes, i) then CountTargets(links, nodes[i].id) else 0)
    decreases |links|
  {
    if links != [] {
      var c := Credit(nodes, links[0].target);
      CreditKeepsReceivers(nodes, links[0].target);
      IncomingCounts(c, links[1..]);
    }
  }

  // ---------------------------------------------------------------------------
  // Assembly
  // ---------------------------------------------------------------------------

  /** The final edge filter: a non-empty target whose id, with `snippet-` and then
      `tag-` removed once, is not hidden. */
  predicate Valid(hidden: set<string>, l: Link) {
    l.target != "" && ReplaceFirst(SnippetSlugOf(l.target), TagPrefix, "") !in hidden
  }

  function ValidLinks(links: seq<Link>, hidden: set<string>): (r: seq<Link>)
    ensures forall l :: l in r <==> l in links && Valid(hidden, l)
  {
    Filter(links, l => Valid(hidden, l))
  }

  function IdSet(nodes: seq<Node>): set<string> {
    set n | n in nodes :: n.id
  }

  /** What `onPostBuild` reads: the post and snippet records with their title tables,
      and the hidden snippet slugs. */
  datatype Input = Input(
    posts: seq<Item>,
    postTitles: map<string, string>,
    snippets: seq<Item>,
    snippetTitles: map<string, string>,
    hidden: set<string>)

  /** The records as `processContentDir` makes them: posts are not snippets. */
  predicate PostsArePosts(inp: Input) {
    forall i :: 0 <= i < |inp.posts| ==> !inp.posts[i].isSnippet
  }

  /** `[...postNodes, ...visibleSnippetNodes]`. */
  function ContentItems(inp: Input): seq<Item> {
    inp.posts + VisibleSnippets(inp.snippets, inp.hidden)
  }

  /** `new Map([...postTitleToSlug, ...snippetTitleToSlug])`: snippet titles win. */
  function Context(inp: Input): Ctx {
    Ctx(inp.postTitles + inp.snippetTitles, inp.snippetTitles, inp.hidden)
  }

  /** All edges, before the final filter. */
  function Edges(inp: Input): seq<Link> {
    AllEdges(Context(inp), ContentItems(inp))
  }

  /** Content nodes, then tag nodes. */
  function BaseNodes(inp: Input): seq<Node> {
    ContentNodes(ContentItems(inp)) + TagNodes(TagCounts(ContentItems(inp)))
  }

  function PlaceholderNodes(inp: Input): seq<Node> {
    Placeholders(IdSet(BaseNodes(inp)), inp.hidden, Edges(inp))
  }

  /** Every node, before the incoming counts. */
  function AllNodes(inp: Input): seq<Node> {
    BaseNodes(inp) + PlaceholderNodes(inp)
  }

  /** The graph written to `graph-data.json`. */
  function Assemble(inp: Input): Graph {
    Graph(Incoming(AllNodes(inp), Edges(inp)), ValidLinks(Edges(inp), inp.hidden))
  }

  /** `onPostBuild` from the two directory listings, the snippet metadata and the
      hidden slugs. */
  function BuildGraph(posts: Option<seq<DirEntry>>, snippets: Option<seq<DirEntry>>,
                      meta: map<string, MetaValue>, hidden: set<string>): (g: Graph)
    ensures var (postItems, postTitles) := ProcessContentDir(posts, false, map[]);
      var (snippetItems, snippetTitles) := ProcessContentDir(snippets, true, meta);
      var inp := Input(postItems, postTitles, snippetItems, snippetTitles, hidden);
      PostsArePosts(inp) && g == Assemble(inp)
  {
    var (postItems, postTitles) := ProcessContentDir(posts, false, map[]);
    var (snippetItems, snippetTitles) := ProcessContentDir(snippets, true, meta);
    Assemble(Input(postItems, postTitles, snippetItems, snippetTitles, hidden))
  }

  /** What `onPostBuild` writes, stated on its output: no node for a hidden snippet
      or hidden slug; every edge leaves an existing content node; a tag node has id
      `tag-<slug>` and equal, positive counters; every edge that wants a node points at
      one; and every other node's total is its outgoing plus its incoming count. */
  lemma BuildGraphProperties(posts: Option<seq<DirEntry>>, snippets: Option<seq<DirEntry>>,
                             meta: map<string, MetaValue>, hidden: set<string>)
    ensures var g := BuildGraph(posts, snippets, meta, hidden);
      forall n :: n in g.nodes && n.pageExists && n.isSnippet ==> SnippetSlugOf(n.id) !in hidden
    ensures var g := BuildGraph(posts, snippets, meta, hidden);
      forall n :: n in g.nodes && !n.pageExists ==> PlaceholderSlug(n.id) !in hidden
    ensures var g := BuildGraph(posts, snippets, meta, hidden);
      forall l :: l in g.links ==>
        exists i :: 0 <= i < |g.nodes| && g.nodes[i].id == l.source && g.nodes[i].pageExists && !g.nodes[i].isTag
    ensures var g := BuildGraph(posts, snippets, meta, hidden);
      forall n :: n in g.nodes && n.isTag ==>
        n.id == TagPrefix + Slugify(n.title) && n.linkCount == n.incomingLinks == n.totalLinks > 0
    ensures var g := BuildGraph(posts, snippets, meta, hidden);
      forall l :: l in g.links && WantsNode(hidden, l) ==> l.target in IdsOf(g.nodes)
    ensures var g := BuildGraph(posts, snippets, meta, hidden);
      forall n :: n in g.nodes && !n.isTag ==> n.totalLinks == n.linkCount + n.incomingLinks
  {
    var (postItems, postTitles) := ProcessContentDir(posts, false, map[]);
    var (snippetItems, snippetTitles) := ProcessContentDir(snippets, true, meta);
    var inp := Input(postItems, postTitles, snippetItems, snippetTitles, hidden);
    assert BuildGraph(posts, snippets, meta, hidden) == Assemble(inp);
    AssembledProperties(inp);
  }

  /** The properties of `BuildGraphProperties`, for any input whose posts are posts. */
  lemma AssembledProperties(inp: Input)
    requires PostsArePosts(inp)
    ensures forall n :: n in Assemble(inp).nodes && n.pageExists && n.isSnippet ==> SnippetSlugOf(n.id) !in inp.hidden
    ensures forall n :: n in Assemble(inp).nodes && !n.pageExists ==> PlaceholderSlug(n.id) !in inp.hidden
    ensures forall l :: l in Assemble(inp).links ==>
      exists i :: 0 <= i < |Assemble(inp).nodes| && Assemble(inp).nodes[i].id == l.source
        && Assemble(inp).nodes[i].pageExists && !Assemble(inp).nodes[i].isTag
    ensures forall n :: n in Assemble(inp).nodes && n.isTag ==>
      n.id == TagPrefix + Slugify(n.title) && n.linkCount == n.incomingLinks == n.totalLinks > 0
    ensures forall l :: l in Assemble(inp).links && WantsNode(inp.hidden, l) ==> l.target in IdsOf(Assemble(inp).nodes)
    ensures forall n :: n in Assemble(inp).nodes && !n.isTag ==> n.totalLinks == n.linkCount + n.incomingLinks
  {
    NoHiddenNodes(inp);
    EdgeSources(inp);
    TagNodeCounts(inp);
    TargetsHaveNodes(inp);
    TotalsOfOthers(inp);
  }

  /** Every node other than a tag ends with `totalLinks == linkCount + incomingLinks`. */
  lemma TotalsOfOthers(inp: Input)
    ensures forall n :: n in Assemble(inp).nodes && !n.isTag ==> n.totalLinks == n.linkCount + n.incomingLinks
  {
    var g := Assemble(inp);
    assert |g.nodes| == |AllNodes(inp)|;
    forall n | n in g.nodes && !n.isTag
      ensures n.totalLinks == n.linkCount + n.incomingLinks
    {
      var i :| 0 <= i < |g.nodes| && g.nodes[i] == n;
      IncomingBeforeFilter(inp, i);
    }
  }

  // ---------------------------------------------------------------------------
  // Properties of the assembled graph
  // ---------------------------------------------------------------------------

  /** Node `i` before the incoming counts is a content node, a tag node or a
      placeholder, by position. */
  lemma NodeKinds(inp: Input, i: nat)
    requires i < |AllNodes(inp)|
    ensures |ContentItems(inp)| <= |BaseNodes(inp)|
    ensures i < |ContentItems(inp)| ==> AllNodes(inp)[i] == ContentNode(ContentItems(inp)[i])
    ensures |ContentItems(inp)| <= i < |BaseNodes(inp)| ==> IsTagNode(AllNodes(inp)[i])
    ensures |BaseNodes(inp)| <= i ==>
      IsPlaceholder(AllNodes(inp)[i]) && Missing(IdSet(BaseNodes(inp)), inp.hidden, AllNodes(inp)[i].id)
  {
    var c := ContentItems(inp);
    var tags := TagNodes(TagCounts(c));
    var ph := PlaceholderNodes(inp);
    NodeKindsOf(ContentNodes(c), tags, ph, i);
  }

  /** The position facts of `NodeKinds`, over the pieces. */
  lemma NodeKindsOf(content: seq<Node>, tags: seq<Node>, ph: seq<Node>, i: nat)
    requires i < |content| + |tags| + |ph|
    ensures i < |content| ==> (content + tags + ph)[i] == content[i]
    ensures |content| <= i < |content| + |tags| ==> (content + tags + ph)[i] == tags[i - |content|]
    ensures |content| + |tags| <= i ==> (content + tags + ph)[i] == ph[i - |content| - |tags|]
  {
  }

  /** Incoming counting changes only the two counters, and those of tag nodes not at
      all. */
  lemma IncomingKeeps(nodes: seq<Node>, links: seq<Link>, i: nat)
    requires i < |nodes|
    ensures |Incoming(nodes, links)| == |nodes|
    ensures Incoming(nodes, links)[i].(incomingLinks := nodes[i].incomingLinks, totalLinks := nodes[i].totalLinks) == nodes[i]
    ensures nodes[i].isTag ==> Incoming(nodes, links)[i] == nodes[i]
    ensures Incoming(nodes, links)[i].totalLinks - Incoming(nodes, links)[i].incomingLinks
            == nodes[i].totalLinks - nodes[i].incomingLinks
  {
    IncomingCounts(nodes, links);
  }

  /** No content node survives for a hidden snippet, and no placeholder is made for a
      hidden slug. */
  lemma NoHiddenNodes(inp: Input)
    requires PostsArePosts(inp)
    ensures forall n :: n in Assemble(inp).nodes && n.pageExists && n.isSnippet ==> SnippetSlugOf(n.id) !in inp.hidden
    ensures forall n :: n in Assemble(inp).nodes && !n.pageExists ==> PlaceholderSlug(n.id) !in inp.hidden
  {
    var g := Assemble(inp);
    var all := AllNodes(inp);
    var c := ContentItems(inp);
    forall n | n in g.nodes
      ensures n.pageExists && n.isSnippet ==> SnippetSlugOf(n.id) !in inp.hidden
      ensures !n.pageExists ==> PlaceholderSlug(n.id) !in inp.hidden
    {
      IncomingKeeps(all, Edges(inp), 0);
      var i :| 0 <= i < |g.nodes| && g.nodes[i] == n;
      IncomingKeeps(all, Edges(inp), i);
      NodeKinds(inp, i);
      if i < |c| && c[i].isSnippet {
        assert i >= |inp.posts|;
        assert c[i] in VisibleSnippets(inp.snippets, inp.hidden);
      }
    }
  }

  /** Every edge leaves the id of a content node; the edges of a snippet are all tag
      edges, so only posts give wiki-link edges. */
  lemma EdgeSources(inp: Input)
    ensures |ContentItems(inp)| <= |Assemble(inp).nodes|
    ensures forall l :: l in Assemble(inp).links ==>
      exists i :: 0 <= i < |ContentItems(inp)|
        && Assemble(inp).nodes[i].id == l.source
        && Assemble(inp).nodes[i].pageExists && !Assemble(inp).nodes[i].isTag
        && (ContentItems(inp)[i].isSnippet ==> IsTagEdgeOf(ContentItems(inp)[i], l))
  {
    var g := Assemble(inp);
    var all := AllNodes(inp);
    var c := ContentItems(inp);
    var ctx := Context(inp);
    IncomingCounts(all, Edges(inp));
    assert |all| == |BaseNodes(inp)| + |PlaceholderNodes(inp)|;
    forall l | l in g.links
      ensures exists i :: 0 <= i < |c| && g.nodes[i].id == l.source && g.nodes[i].pageExists && !g.nodes[i].isTag
                          && (c[i].isSnippet ==> IsTagEdgeOf(c[i], l))
    {
      AllEdgesFrom(ctx, c, l);
      var i :| 0 <= i < |c| && l in NodeEdges(ctx, c[i]);
      NodeEdgesShape(ctx, c[i]);
      NodeKinds(inp, i);
      IncomingKeeps(all, Edges(inp), i);
    }
  }

  /** Each tag node counts the occurrences of its tag in the surviving records, and its
      three counters agree. */
  lemma TagNodeCounts(inp: Input)
    ensures forall n :: n in Assemble(inp).nodes && n.isTag ==>
      && n.id == TagPrefix + Slugify(n.title)
      && n.linkCount == n.incomingLinks == n.totalLinks == Count(AllTags(ContentItems(inp)), n.title)
      && n.linkCount > 0
  {
    var g := Assemble(inp);
    forall n | n in g.nodes && n.isTag
      ensures n.id == TagPrefix + Slugify(n.title)
      ensures n.linkCount == n.incomingLinks == n.totalLinks == Count(AllTags(ContentItems(inp)), n.title) > 0
    {
      var i :| 0 <= i < |g.nodes| && g.nodes[i] == n;
      TagNodeAt(inp, i);
    }
  }

  /** The step of `TagNodeCounts` for the node at index `i`. */
  lemma TagNodeAt(inp: Input, i: nat)
    requires i < |Assemble(inp).nodes| && Assemble(inp).nodes[i].isTag
    ensures var n := Assemble(inp).nodes[i];
      && n.id == TagPrefix + Slugify(n.title)
      && n.linkCount == n.incomingLinks == n.totalLinks == Count(AllTags(ContentItems(inp)), n.title) > 0
  {
    var all := AllNodes(inp);
    var c := ContentItems(inp);
    var tags := TagNodes(TagCounts(c));
    var ph := PlaceholderNodes(inp);
    assert all == ContentNodes(c) + tags + ph;
    IncomingKeeps(all, Edges(inp), i);
    NodeKinds(inp, i);
    assert |c| <= i < |c| + |tags|;
    IncomingTagAt(ContentNodes(c), tags, ph, Edges(inp), i);
    TagNodesCount(AllTags(c));
  }

  /** A tag node keeps its place and its counters through the incoming counts. */
  lemma IncomingTagAt(content: seq<Node>, tags: seq<Node>, ph: seq<Node>, links: seq<Link>, i: nat)
    requires forall k :: 0 <= k < |tags| ==> IsTagNode(tags[k])
    requires |content| <= i < |content| + |tags|
    ensures Incoming(content + tags + ph, links)[i] == tags[i - |content|]
  {
    NodeKindsOf(content, tags, ph, i);
    IncomingKeeps(content + tags + ph, links, i);
  }

  /** The tag nodes of a tally: one per distinct tag with a non-empty slug, counting
      its occurrences. */
  lemma TagNodesCount(xs: seq<string>)
    ensures forall k :: 0 <= k < |TagNodes(TallyWhere([], xs, HasSlug))| ==>
      var n := TagNodes(TallyWhere([], xs, HasSlug))[k];
      n.linkCount == Count(xs, n.title) > 0 && HasSlug(n.title)
    ensures forall t :: t in xs && HasSlug(t) ==>
      exists k :: 0 <= k < |TagNodes(TallyWhere([], xs, HasSlug))| && TagNodes(TallyWhere([], xs, HasSlug))[k].title == t
  {
    var counts := TallyWhere([], xs, HasSlug);
    TallyNoDup([], xs, HasSlug);
    TallyKeys([], xs, HasSlug);
    forall k | 0 <= k < |TagNodes(counts)|
      ensures TagNodes(counts)[k].linkCount == Count(xs, TagNodes(counts)[k].title) > 0
      ensures HasSlug(TagNodes(counts)[k].title)
    {
      TagNodeOfEntry(counts, xs, k);
    }
    forall t | t in xs && HasSlug(t)
      ensures exists k :: 0 <= k < |TagNodes(counts)| && TagNodes(counts)[k].title == t
    {
      TagNodeOfTag(counts, t);
    }
  }

  /** Tag node `k` of a tally of `xs` counts its tag's occurrences. */
  lemma TagNodeOfEntry(counts: Counts, xs: seq<string>, k: nat)
    requires NoDup(Keys(counts))
    requires forall u :: Get(counts, u) == Get([], u) + (if HasSlug(u) then Count(xs, u) else 0)
    requires forall u :: u in Keys(counts) <==> u in Keys([]) || (HasSlug(u) && u in xs)
    requires k < |TagNodes(counts)|
    ensures TagNodes(counts)[k].linkCount == Count(xs, TagNodes(counts)[k].title) > 0
    ensures HasSlug(TagNodes(counts)[k].title)
  {
    var kept := Filter(counts, EntryHasSlug);
    assert kept[k] in counts;
    var i :| 0 <= i < |counts| && counts[i] == kept[k];
    GetOfEntry(counts, i);
    KeysAt(counts, i);
    assert counts[i].0 in Keys(counts);
  }

  /** A counted tag with a non-empty slug has a tag node. */
  lemma TagNodeOfTag(counts: Counts, t: string)
    requires t in Keys(counts) && HasSlug(t)
    ensures exists k :: 0 <= k < |TagNodes(counts)| && TagNodes(counts)[k].title == t
  {
    var k := KeptIndex(counts, t);
    TagNodeTitle(counts, k);
  }

  /** Where a counted tag with a non-empty slug sits among the kept entries. */
  lemma KeptIndex(counts: Counts, t: string) returns (k: nat)
    requires t in Keys(counts) && HasSlug(t)
    ensures k < |Filter(counts, EntryHasSlug)| && Filter(counts, EntryHasSlug)[k].0 == t
  {
    var kept := Filter(counts, EntryHasSlug);
    var i :| 0 <= i < |counts| && Keys(counts)[i] == t;
    KeysAt(counts, i);
    assert EntryHasSlug(counts[i]);
    assert counts[i] in kept;
    k :| 0 <= k < |kept| && kept[k] == counts[i];
  }

  /** The title of the `k`-th tag node is the `k`-th kept tag. */
  lemma TagNodeTitle(counts: Counts, k: nat)
    requires k < |TagNodes(counts)|
    ensures TagNodes(counts)[k].title == Filter(counts, EntryHasSlug)[k].0
  {
  }

  /** Every surviving edge whose target is not a tag id and whose slug is not hidden
      points at a node. */
  lemma TargetsHaveNodes(inp: Input)
    ensures forall l :: l in Assemble(inp).links && WantsNode(inp.hidden, l) ==> l.target in IdsOf(Assemble(inp).nodes)
  {
    var g := Assemble(inp);
    var all := AllNodes(inp);
    var links := Edges(inp);
    IncomingCounts(all, links);
    assert IdsOf(g.nodes) == IdsOf(all);
    forall l | l in g.links && WantsNode(inp.hidden, l)
      ensures l.target in IdsOf(all)
    {
      TargetHasNode(BaseNodes(inp), PlaceholderNodes(inp), links, inp.hidden, l);
    }
  }

  /** The step of `TargetsHaveNodes` for one link, over the pieces. */
  lemma TargetHasNode(base: seq<Node>, ph: seq<Node>, links: seq<Link>, hidden: set<string>, l: Link)
    requires l in links && WantsNode(hidden, l)
    requires forall j :: 0 <= j < |links| && WantsNode(hidden, links[j]) ==>
      links[j].target in IdSet(base) || links[j].target in IdsOf(ph)
    ensures l.target in IdsOf(base + ph)
  {
    var all := base + ph;
    var j :| 0 <= j < |links| && links[j] == l;
    if l.target in IdSet(base) {
      var n :| n in base && n.id == l.target;
      var i :| 0 <= i < |base| && base[i] == n;
      assert all[i] == n;
      assert IdsOf(all)[i] == l.target;
    } else {
      var k :| 0 <= k < |ph| && IdsOf(ph)[k] == l.target;
      assert all[|base| + k] == ph[k];
      assert IdsOf(all)[|base| + k] == l.target;
    }
  }

  /** Incoming links are counted over all edges, before the final filter; a node other
      than a tag keeps `totalLinks == linkCount + incomingLinks`. */
  lemma IncomingBeforeFilter(inp: Input, i: nat)
    requires i < |AllNodes(inp)|
    ensures |Assemble(inp).nodes| == |AllNodes(inp)|
    ensures Assemble(inp).nodes[i].incomingLinks ==
      AllNodes(inp)[i].incomingLinks + (if Receives(AllNodes(inp), i) then CountTargets(Edges(inp), AllNodes(inp)[i].id) else 0)
    ensures !Assemble(inp).nodes[i].isTag ==>
      Assemble(inp).nodes[i].totalLinks == Assemble(inp).nodes[i].linkCount + Assemble(inp).nodes[i].incomingLinks
  {
    IncomingCounts(AllNodes(inp), Edges(inp));
    NodeKinds(inp, i);
  }

  /** `id.replace('snippet-', '')` also removes a `snippet-` in the middle of a post
      id, so an edge to the post `my-snippet-notes` is dropped when `my-notes` is a
      hidden snippet slug. */
  lemma InnerSnippetReplaced()
    ensures SnippetSlugOf("my-snippet-notes") == "my-notes"
    ensures !Valid({"my-notes"}, Link("home", "my-snippet-notes", "Notes"))
  {
    InnerSnippetSlug();
    NoTagPrefixIn("my-notes");
  }

  /** The first `snippet-` of `my-snippet-notes` stands after `my-`. */
  lemma InnerSnippetSlug()
    ensures SnippetSlugOf("my-snippet-notes") == "my-notes"
  {
    var a, b := "my-", "notes";
    assert a + SnippetIdPrefix + b == "my-snippet-notes";
    forall k | 0 <= k < |a|
      ensures !OccursAt(a + SnippetIdPrefix + b, SnippetIdPrefix, k)
    {
      assert (a + SnippetIdPrefix + b)[k..k + 8][0] == a[k] != 's';
    }
    ReplaceFirstAt(a, SnippetIdPrefix, b, "");
    assert a + "" + b == "my-notes";
  }

  /** A string with no `t` except in its last three characters holds no `tag-`, so
      removing `tag-` leaves it as it is. */
  lemma NoTagPrefixIn(s: string)
    requires forall k :: 0 <= k < |s| - 3 ==> s[k] != 't'
    ensures ReplaceFirst(s, TagPrefix, "") == s
  {
    forall k | 0 <= k
      ensures !OccursAt(s, TagPrefix, k)
    {
      if k + 4 <= |s| {
        assert s[k..k + 4][0] == s[k];
      }
    }
  }

  /** Two different tags with the same slug give two tag nodes with the same id: the
      counts are keyed by the raw tag, the ids by the slug. */
  lemma DuplicateTagIds(xs: seq<string>, t1: string, t2: string)
    requires t1 in xs && t2 in xs && t1 != t2 && HasSlug(t1) && Slugify(t1) == Slugify(t2)
    ensures exists k1, k2 ::
      && 0 <= k1 < k2 < |TagNodes(TallyWhere([], xs, HasSlug))|
      && TagNodes(TallyWhere([], xs, HasSlug))[k1].id == TagNodes(TallyWhere([], xs, HasSlug))[k2].id
  {
    TallyKeys([], xs, HasSlug);
    DuplicateTagIdsOf(TallyWhere([], xs, HasSlug), t1, t2);
  }

  lemma DuplicateTagIdsOf(counts: Counts, t1: string, t2: string)
    requires t1 in Keys(counts) && t2 in Keys(counts) && t1 != t2
    requires HasSlug(t1) && Slugify(t1) == Slugify(t2)
    ensures exists k1, k2 :: 0 <= k1 < k2 < |TagNodes(counts)| && TagNodes(counts)[k1].id == TagNodes(counts)[k2].id
  {
    var r := TagNodes(counts);
    TagNodeOfTag(counts, t1);
    TagNodeOfTag(counts, t2);
    var k1 :| 0 <= k1 < |r| && r[k1].title == t1;
    var k2 :| 0 <= k2 < |r| && r[k2].title == t2;
    var kept := Filter(counts, EntryHasSlug);
    assert r[k1] == TagNode(kept[k1].0, kept[k1].1);
    assert r[k2] == TagNode(kept[k2].0, kept[k2].1);
    assert r[k1].id == TagPrefix + Slugify(t1) == r[k2].id;
    assert k1 != k2;
    if k1 < k2 {
      assert 0 <= k1 < k2 < |r| && r[k1].id == r[k2].id;
    } else {
      assert 0 <= k2 < k1 < |r| && r[k2].id == r[k1].id;
    }
  }

  /** The tags `a b` and `a-b` share the slug `a-b`. */
  lemma SameSlugTags()
    ensures "a b" != "a-b" && HasSlug("a b") && Slugify("a b") == Slugify("a-b")
  {
    assert IsSlug("a-b");
    SlugifyFixesSlugs("a-b");
    assert Lower("a b") == "a b";
    var s := "a b";
    assert s[1..] == " b";
    assert RunEnd(" b", 0, NotLowerAlnum) == 1;
    assert CollapseRuns("b") == "b";
    assert CollapseRuns(" b") == "-b";
    assert CollapseRuns("a b") == "a-b";
    StripOfClean("a-b", IsDash);
  }
}
