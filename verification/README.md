# A verified model of the personal blog's link graph and publishing scripts

This project models, in Dafny, the pure logic of a Gatsby blog that publishes
posts and short "snippets" written in Obsidian:

- the **link-graph builder** of `gatsby-node.js`. It reads each post and snippet
  file and extracts the wiki-links (`[[Target]]`, `[[Target|Display]]`), the
  converted snippet links (`[text](/snippets/slug/)`), the frontmatter tags and the
  title. It then assembles `graph-data.json`: content nodes, wiki-link and tag
  edges, tag nodes with their counts, placeholder nodes for pages that do not
  exist, the hidden-snippet policy, incoming-link counts and the final edge filter;
- the **Obsidian-to-MDX packager**, `scripts/package_obsidian.py`. It covers the
  wiki-link parser, `slugify`, the frontmatter split, the quality pass rule, the
  packaged-tag filter, the emitted frontmatter, and the rewrite of every wiki-link
  span of the body in reverse order;
- the **review selector**, `scripts/review_snippets.py`. It takes the latest logged
  check per snippet title (log files newest first), picks the snippets that failed
  or scored at most 7, sorts them stably by score, and sanitises the review file
  name;
- the **tag colour** of the theme's `item-tags.tsx`: a 32-bit string hash that
  indexes a table of five colour sets.

Every regular expression is a hand-written scanner over `seq<char>`. The two
link patterns are proved to agree with a declarative description of the match in
both directions: the matcher finds every span of that shape and nothing else. The
frontmatter, tag-list and title scanners are proved sound: what they return has
the declared shape. Their converses are proved for the common layouts. A `title:`
key followed by a usable value gives that title. A first `tags:` key followed, on
the next line, by `- tag` items that are all indented alike gives every item's tag
as a candidate, in list order, and every item whose tag passes the filter is
returned. The indent may be empty, or the two spaces the packager writes. A
one-item list in the packager's layout is also worked through as an example. The
file system, JSON and YAML parsing, the chat-model calls and the
clock are inputs to the model (see "Left out").

Modules, one file each:

- `Wrappers` holds `Option`.
- `Chars` holds character classes, trim and strip, find, replace-first,
  lower-casing and UTF-16 length.
- `Seqs` holds de-duplication, filtering and counting.
- `Slug` holds the `slugify` that both scripts share.
- `WikiScan` holds the two link patterns and the global search.
- `Extract` holds `extractWikiLinks`, `extractTags` and the title pattern.
- `Content` holds `processContentDir`.
- `Tally` holds the tag-count `Map`.
- `Graph` holds `onPostBuild`.
- `Obsidian` holds `package_obsidian.py`.
- `Sorting` holds Python's stable sort, as insertion sort.
- `Review` holds `review_snippets.py`.
- `TagColor` holds `getTagColor`.

Functions are deterministic by construction. So "equal slugs give equal colours",
and the same for every other operation, needs no lemma.

Where the code and its documentation differ, the model follows the code:

- the title pattern is searched over the whole file, not only the frontmatter;
- a tag listed twice by one item counts twice;
- a content node's `totalLinks` starts at its outgoing count;
- incoming links are counted before the final edge filter;
- `.replace('snippet-', '')` removes the first occurrence anywhere in the string.

The lemmas `Graph.IncomingBeforeFilter`, `Graph.DuplicateTagIds`,
`Graph.SameSlugTags` and `Graph.InnerSnippetReplaced` exhibit these behaviours as
written.

## Model

| member | source | states |
|---|---|---|
| `WikiScan.MatchWikiAt` | gatsby-node.js:11 | a wiki-link match found at a position has exactly the declared shape: `[[`, a non-empty target without `]` or `|`, an optional `|` and non-empty display without `]`, then `]]` |
| `WikiScan.MatchWikiComplete` | gatsby-node.js:11 | conversely, every span of that shape is the match the pattern finds at its start, so the matcher misses nothing and invents nothing |
| `WikiScan.NoWikiAt` | gatsby-node.js:11 | where the matcher fails, no wiki-link starts |
| `WikiScan.ScanWiki` | gatsby-node.js:11-15 | the global search returns matches in increasing, non-overlapping order, each a wiki-link span, and every position where a wiki-link starts lies inside one of them |
| `WikiScan.MatchSnippetAt` | gatsby-node.js:18 | a snippet-link match is `[`, non-empty text without `]`, `](/snippets/`, a non-empty slug without `/` or `)`, an optional `/`, and `)` |
| `WikiScan.MatchSnippetComplete` | gatsby-node.js:18 | every span of the snippet-link shape is the match found at its start |
| `WikiScan.NoSnippetAt` | gatsby-node.js:18 | where the snippet matcher fails, no snippet link starts |
| `WikiScan.ScanSnippets` | gatsby-node.js:18-22 | the snippet-link search returns ordered, non-overlapping matches and covers every snippet link in the text |
| `WikiScan.WikiSpanText` | gatsby-node.js:11 | a wiki-link span's text is `[[target]]` or `[[target|display]]` |
| `Extract.LinkKeys` | gatsby-node.js:24 | the keys are duplicate-free and are exactly the wiki keys and snippet keys found |
| `Extract.KeysOfHits` | gatsby-node.js:7-25 | a string is a link key iff it is the trimmed target of a wiki-link found or `snippet:` plus the slug of a snippet link found; no key repeats |
| `Extract.ExtractWikiLinksFromSpans` | gatsby-node.js:7-25 | no key repeats, and every key is the trimmed target of a wiki-link span in the text or `snippet:` plus the slug of a snippet-link span |
| `Extract.LeadingWikiLinkKept` | gatsby-node.js:7-25 | a wiki-link at the start of the text gives its trimmed target as a key |
| `Extract.WikiKeyShape` | gatsby-node.js:14 | a wiki key is trimmed and holds no `]` or `|` |
| `Extract.FrontmatterBlock` | gatsby-node.js:29-30 | a block exists iff the text starts with `---\n` and a later `\n---` occurs; the block is the text up to the first such fence |
| `Extract.DashLineEnd` | gatsby-node.js:36 | a `-\s*.+` match from a dash ends at a line terminator or the end of the text, its last character is not a line terminator, and there is none only when only line terminators follow |
| `Extract.ItemsEnd` | gatsby-node.js:33 | the repeated list item `\s*-\s*.+\n?` stops at a position where no further item matches |
| `Extract.TagsAt` | gatsby-node.js:33 | a `tags:` list match needs the key `tags:` in any case at that position and captures a non-empty list |
| `Extract.FirstTagsAt` | gatsby-node.js:33 | the leftmost position where the `tags:` pattern matches, and none when no position matches |
| `Extract.DashLines` | gatsby-node.js:36 | every line the global `-\s*(.+)` search returns starts with `-` and has at least two characters |
| `Extract.DashLinesFirst` | gatsby-node.js:36 | the global `-\s*(.+)` search returns the leftmost match first, then resumes at that match's end |
| `Extract.DashLinesNone` | gatsby-node.js:36 | where the pattern matches at no remaining position, the search returns nothing more; with `DashLinesFirst` this fixes the whole result |
| `Extract.LinesOfList` | gatsby-node.js:36 | on a list of `- t` lines, all indented alike, the search returns each line without its indent in list order, and exactly those lines when the list runs to the end |
| `Extract.IndentAtAll` | gatsby-node.js:33 | an indent of `n` characters at `x` is exactly `n` characters in the text, each whitespace that ends no line |
| `Extract.TagsBlockOfList` | gatsby-node.js:33 | when the first `tags:` key is followed by a newline and a list, the captured block starts with that list, indent included, and is that list when the list ends the frontmatter |
| `Extract.TagOfLine` | gatsby-node.js:38 | a cleaned tag line is trimmed and lower-case |
| `Extract.TagCandidates` | gatsby-node.js:29-38 | every candidate tag is trimmed and lower-case |
| `Extract.ExtractTags` | gatsby-node.js:27-40 | no list gives no tags; a string is a returned tag iff it is a candidate that passes the filter; every tag is trimmed, lower-case and passes the filter |
| `Extract.ExtractTagsKeepsCopies` | gatsby-node.js:36-39 | a kept tag occurs as often as among the candidates and a dropped one not at all; the tags are the candidates at strictly increasing positions, with exactly the positions of the kept candidates |
| `Extract.ListedTagsExtracted` | gatsby-node.js:27-40 | when the first `tags:` key of the frontmatter is followed on the next line by a list of `- t` items indented alike, each item's trimmed lower-case tag is a candidate in list order and each one that passes the filter is returned; when the list ends the frontmatter, the tags are exactly the filtered list |
| `Extract.FirstListedTagExtracted` | gatsby-node.js:27-40 | when the first `tags:` key is followed by one `- t` item line, indented by whitespace that ends no line, `t` trimmed and lower-cased is the first candidate, and it is returned when it passes the filter |
| `Extract.OneTagExtracted` | gatsby-node.js:27-40 | the file `---\ntags:\n  - xy\n---\n`, laid out as the packager writes tags, has exactly the tag `xy` |
| `Extract.NoTagsWithoutList` | gatsby-node.js:29-34 | without a frontmatter block, or without a `tags:` list in it, the result is empty |
| `Extract.KeptTagsSpelledOut` | gatsby-node.js:39 | every tag is longer than one UTF-16 unit, not only dashes, and not `loading`, `personal` or `insights` |
| `Extract.TitleValueAt` | gatsby-node.js:78 | the title capture starts right after the whitespace, or one later past an optional quote, at a character that is not a quote or newline |
| `Extract.TitleAt` | gatsby-node.js:78 | a title match needs `title:` in any case at that position and captures a non-empty run without quotes or newlines |
| `Extract.TitleCapture` | gatsby-node.js:78 | the leftmost title match; none only when no position matches |
| `Extract.TitleFound` | gatsby-node.js:78 | a found title comes from a position where the title pattern matches |
| `Extract.ExtractTitle` | gatsby-node.js:78-79 | without a match the title is the directory name; with one it is trimmed and free of quotes and newlines |
| `Extract.TitleFallsBackToDir` | gatsby-node.js:78-79 | a file with no `title:` key anywhere gets its directory name as title |
| `Extract.TitleAtValue` | gatsby-node.js:78 | where the whitespace after `title:` ends at a character that is not a quote or newline, the match captures the run of such characters from there |
| `Extract.TitleCaptureAt` | gatsby-node.js:78 | the search returns the match at the first position where the title pattern matches |
| `Extract.TitleOfFirstKey` | gatsby-node.js:78-79 | when the first `title:` key is followed by a usable value, the title is that value, trimmed |
| `Content.SelectFile` | gatsby-node.js:72-75 | `index.mdx` is preferred; a file is found iff either exists |
| `Content.Accessible` | gatsby-node.js:86-93 | a record is inaccessible iff it is a snippet and its metadata (by directory, or by lower-cased title when that entry is missing or falsy) says `passes === false` |
| `Content.MakeItem` | gatsby-node.js:77-108 | the record keeps its directory and kind; its title, tags and wiki-links are those extracted from the text; `linkCount` is links plus tags; the title falls back to the directory; a snippet has id `snippet-<dir>` and slug `/snippets/<dir>/`, a post id `<dir>` and slug `/<dir>/`; accessibility is the metadata rule, so a post is accessible |
| `Content.Sources` | gatsby-node.js:66-75 | exactly the listed, non-underscore directories that hold an index file give a source, with that file's text |
| `Content.SourcesInListingOrder` | gatsby-node.js:66-75 | the sources come from the listed directories holding a file, at strictly increasing positions of the listing, and every such directory gives one |
| `Content.TitleTableKeys` | gatsby-node.js:81 | the table has a key exactly for the lower-cased title of some record |
| `Content.TitleTableLast` | gatsby-node.js:81 | a title maps to the directory of the last record with that title |
| `Content.SetAllKeys` | gatsby-node.js:81 | the title table has a key iff some record sets it |
| `Content.SetAllLastWins` | gatsby-node.js:81 | a title set by a later record overrides an earlier one |
| `Content.SetAllConcat` | gatsby-node.js:259 | merging the post and snippet tables lets the snippet entries win on collision |
| `Content.ProcessContentDir` | gatsby-node.js:60-112 | a missing directory gives no records and an empty table; otherwise there is one record per source, in order, each the record built from that source; all records have the requested kind and no underscore directory; the table is built from the records |
| `Slug.CollapseRuns` | gatsby-node.js:43 | the result holds only `[a-z0-9-]`, has no `--`, is empty iff the input is, starts with `-` iff the input starts outside `[a-z0-9]`, and keeps the letters and digits in order |
| `Slug.CollapseRunsSplit` | gatsby-node.js:43 | a string that ends in a letter or digit collapses independently of what follows it |
| `Slug.CollapseRunsRun` | gatsby-node.js:43 | a whole run of characters outside `[a-z0-9]`, before a letter, a digit or the end, becomes exactly one `-` |
| `Slug.CollapseRunsSeparator` | scripts/package_obsidian.py:266 | `u`, a run of other characters, and `v` collapse to `u` collapsed, one `-`, and `v` collapsed: a run is replaced, never deleted |
| `Slug.SlugifyJoinsWords` | gatsby-node.js:42-44 | two lower-case words around a run of non-alphanumeric characters slugify to the words joined by `-` |
| `Slug.SlugifyIsSlug` | gatsby-node.js:42-44 | every slug holds only `[a-z0-9-]`, has no `-` at either end and no `--` |
| `Slug.SlugifyFixesSlugs` | scripts/package_obsidian.py:263-268 | a well-formed slug is its own slug |
| `Slug.SlugifyIdempotent` | gatsby-node.js:42-44 | slugifying twice is slugifying once |
| `Slug.SlugifyKeepsAlnum` | gatsby-node.js:43 | the slug keeps the lower-cased text's letters and digits, in order |
| `Slug.SlugifyEmptyIff` | gatsby-node.js:43 | the slug is empty iff the lower-cased text has no ASCII letter or digit |
| `Chars.ReplaceFirst` | gatsby-node.js:256 | a string-pattern `replace` removes a leading occurrence and leaves a string without the pattern unchanged |
| `Chars.ReplaceFirstAt` | gatsby-node.js:256 | the first occurrence of the pattern is replaced wherever it stands, not only at the start |
| `Chars.Utf16Length` | gatsby-node.js:39 | JavaScript `length` counts UTF-16 units: between the number of code points and twice that |
| `Tally.Bump` | gatsby-node.js:276 | the bumped tag's count grows by one and every other count is unchanged |
| `Tally.BumpKeys` | gatsby-node.js:276 | a new tag is appended to the insertion order, an old one keeps its place, and counts stay positive |
| `Tally.GetPositive` | gatsby-node.js:276 | a tag has a positive count iff it has an entry |
| `Tally.TallyWhere` | gatsby-node.js:274-277 | each tag's count is its old count plus its number of occurrences when its slug is non-empty |
| `Tally.TallyKeys` | gatsby-node.js:274-277 | after the tally, the keys are the old ones plus the counted tags |
| `Tally.TallyNoDup` | gatsby-node.js:274-277 | no tag gets two entries |
| `Tally.GetOfEntry` | gatsby-node.js:326 | iterating the entries yields each tag with its own count |
| `Graph.VisibleSnippets` | gatsby-node.js:256 | a snippet record survives iff its id with `snippet-` removed is not hidden |
| `Graph.ContentNode` | gatsby-node.js:95-108 | a content node copies id, title, kind and accessibility, exists, is no tag, has no incoming links, and both totals equal the outgoing count |
| `Graph.TargetSlug` | gatsby-node.js:286-291 | a `snippet:` key targets its slug; otherwise the table's non-empty entry for the lower-cased title, else the title's slug |
| `Graph.WikiEdge` | gatsby-node.js:282-309 | an edge exists iff the target slug is non-empty and not hidden; it leaves the source and targets `snippet-`+slug for snippet keys or snippet titles, the slug otherwise |
| `Graph.SnippetKeyEdge` | gatsby-node.js:286-289 | the key `snippet:<slug>` of a visible slug gives the edge to `snippet-<slug>` titled by the slug |
| `Graph.WikiEdges` | gatsby-node.js:281-310 | every wiki edge leaves the source with a non-empty target; the edges are exactly the links that produce one |
| `Graph.TagEdgesCount` | gatsby-node.js:313-322 | each tag edge leaves the record for `tag-<slug>` of one of its tags with a non-empty slug; a tag with a slug has exactly as many edges as occurrences, one without none |
| `Graph.NodeEdgesShape` | gatsby-node.js:279-322 | all edges of a record leave its id; a snippet has only tag edges; every tag with a slug has its edge |
| `Graph.AllEdgesFrom` | gatsby-node.js:268-323 | an edge is in the list iff some surviving record produces it |
| `Graph.TagNode` | gatsby-node.js:329-340 | a tag node has id `tag-<slug>`, the tag as title, exists, is accessible and not a snippet, and all three counters equal the count |
| `Graph.TagNodes` | gatsby-node.js:326-342 | one tag node per counted tag with a non-empty slug, in insertion order |
| `Graph.Placeholder` | gatsby-node.js:354-365 | a placeholder takes the edge's target and title, does not exist, is neither tag nor accessible, is a snippet iff the id starts `snippet-`, has a slug only then, and zero counters |
| `Graph.Placeholders` | gatsby-node.js:344-368 | placeholders have distinct ids, each for a missing, non-tag, non-hidden target; afterwards every edge that wants a node has one |
| `Graph.PlaceholdersFromLinks` | gatsby-node.js:346-366 | every placeholder is the node of the first edge to its target, so that edge's display text is its title |
| `Graph.FirstWithId` | gatsby-node.js:372 | `nodes.find` returns the first node with the id, or none |
| `Graph.Credit` | gatsby-node.js:373-376 | one edge raises `incomingLinks` and `totalLinks` by one on the first node with its target id, unless that node is a tag |
| `Graph.CreditKeepsReceivers` | gatsby-node.js:371-377 | crediting does not change which node receives later credits |
| `Graph.FirstWithIdOfSameIds` | gatsby-node.js:372 | the node found depends only on the ids |
| `Graph.IncomingCounts` | gatsby-node.js:370-377 | each receiving node gains the number of edges aimed at its id; the others are unchanged |
| `Graph.ValidLinks` | gatsby-node.js:379-385 | an edge is kept iff its target is non-empty and its target with the first `snippet-` and then the first `tag-` removed is not hidden |
| `Graph.BuildGraphProperties` | gatsby-node.js:243-390 | in the built graph no node stands for a hidden snippet or slug, every edge leaves an existing content node, tag nodes have id `tag-<slug>` and equal positive counters, every edge that wants a node has one, and other nodes total outgoing plus incoming |
| `Graph.AssembledProperties` | gatsby-node.js:256-385 | the same properties for the assembly of any records whose posts are not snippets |
| `Graph.NodeKinds` | gatsby-node.js:262-368 | the node list is the content nodes, then tag nodes, then placeholders for missing targets |
| `Graph.IncomingKeeps` | gatsby-node.js:370-377 | counting incoming links changes only the two counters, by the same amount, and never a tag node |
| `Graph.NoHiddenNodes` | gatsby-node.js:256-352 | no existing snippet node has a hidden slug, and no placeholder stands for a hidden slug |
| `Graph.EdgeSources` | gatsby-node.js:279-323 | every final edge leaves an existing content node, and a snippet's edges are tag edges |
| `Graph.TagNodeCounts` | gatsby-node.js:274-341 | every tag node has id `tag-<slug of its title>` and all three counters equal to the positive number of occurrences of its tag among the surviving records |
| `Graph.TagNodesCount` | gatsby-node.js:326-341 | each tag node's count is its tag's number of occurrences, and every tag with a slug has a node |
| `Graph.TagNodeOfEntry` | gatsby-node.js:326-340 | a tag node built from a tally has the positive count of its tag |
| `Graph.TagNodeOfTag` | gatsby-node.js:326-341 | every counted tag with a slug has a node |
| `Graph.TargetsHaveNodes` | gatsby-node.js:344-368 | every final edge whose target is not a tag id and not hidden points at a node |
| `Graph.TargetHasNode` | gatsby-node.js:345-367 | an edge target that was present or added as a placeholder is among the node ids |
| `Graph.IncomingBeforeFilter` | gatsby-node.js:370-385 | incoming counts include edges the final filter later drops; a non-tag node's total is its outgoing count plus its incoming count |
| `Graph.TotalsOfOthers` | gatsby-node.js:370-377 | every node other than a tag ends with `totalLinks` equal to `linkCount` plus `incomingLinks` |
| `Graph.InnerSnippetReplaced` | gatsby-node.js:382 | `my-snippet-notes` loses its inner `snippet-`, so an edge to that post is dropped when `my-notes` is a hidden snippet slug |
| `Graph.DuplicateTagIds` | gatsby-node.js:274-330 | two different tags with the same slug produce two tag nodes with the same id |
| `Graph.DuplicateTagIdsOf` | gatsby-node.js:326-330 | in the tag nodes of a tally, two keys with one slug give a repeated id |
| `Graph.SameSlugTags` | gatsby-node.js:276-330 | `a b` and `a-b` are different tag keys with the same slug |
| `Obsidian.EndsWithAny` | scripts/package_obsidian.py:78 | true iff the name ends with one of the extensions |
| `Obsidian.WikiSpanChars` | scripts/package_obsidian.py:54 | the raw target holds no `]` or `|` and the raw display no `]` |
| `Obsidian.WikiSpanPipe` | scripts/package_obsidian.py:54 | the display group is absent iff the matched text has no `|` |
| `Obsidian.ParseLinkWellParsed` | scripts/package_obsidian.py:73-87 | each entry's span text is its `full_match`, spelled `[[`, the raw target, then either `]]` or a pipe, the raw display text and `]]`, with target and display the raw parts stripped; target and display are stripped and free of their excluded characters; display is None iff there is no pipe; `is_image` iff the lower-cased target has an image extension |
| `Obsidian.ParseWikiLinks` | scripts/package_obsidian.py:60-89 | every entry is well parsed and spelled from the raw groups of its match, and the entries are in increasing, non-overlapping order |
| `Obsidian.SpelledFromUnique` | scripts/package_obsidian.py:73-75 | the text of an entry decides its raw target and raw display text |
| `Obsidian.WellParsedByText` | scripts/package_obsidian.py:73-84 | two well-parsed entries with the same text have the same target, display text and image flag |
| `Obsidian.WellParsedReadsText` | scripts/package_obsidian.py:73-75 | a well-parsed entry whose text is `[[`, `t` and `]]`, or `[[`, `t`, a pipe, `d` and `]]`, has target `t` stripped and display text `d` stripped, or none |
| `Obsidian.ParseWikiLinksComplete` | scripts/package_obsidian.py:73 | every wiki-link start in the text lies inside a returned entry |
| `Obsidian.ExtractFrontmatter` | scripts/package_obsidian.py:92-110 | frontmatter is split off iff the text starts with `---` and has another `---` from index 3; otherwise the body is the whole text |
| `Obsidian.FrontmatterRoundTrip` | scripts/package_obsidian.py:100-108 | `---` + yaml + `---` + body splits back into the yaml and the stripped body when the yaml holds no `---` |
| `Obsidian.CheckQuality` | scripts/package_obsidian.py:182-256 | the snippet passes iff there is no key, or the call failed, or the reply is appropriate, technically sound and scores at least 6 |
| `Obsidian.PassMonotone` | scripts/package_obsidian.py:233-237 | a passing reply still passes with a higher score |
| `Obsidian.VerdictConsistent` | scripts/package_obsidian.py:233-254 | the returned `passes` agrees with the returned fields on every path |
| `Obsidian.PackagedTags` | scripts/package_obsidian.py:579 | a tag is kept iff it is in the list and is not `personal` or `insights` in any case |
| `Obsidian.PackagedTagsDrop` | scripts/package_obsidian.py:579 | no kept tag is `personal` or `insights` in any case, and filtering again changes nothing |
| `Obsidian.EscapeQuotes` | scripts/package_obsidian.py:316 | every `"` in the escaped description is preceded by a backslash |
| `Obsidian.UnescapeEscape` | scripts/package_obsidian.py:316 | unescaping the escaped description gives it back |
| `Obsidian.EscapeSingleLine` | scripts/package_obsidian.py:316-317 | escaping adds no newline |
| `Obsidian.FrontmatterLayout` | scripts/package_obsidian.py:308-324 | the lines are the fence, the quoted title, the date, the escaped description when non-empty, `tags:` and one `  - tag` line per tag in order when there are tags, and the fence |
| `Obsidian.SplitJoin` | scripts/package_obsidian.py:325 | splitting the `\n`-joined lines gives the lines back when none holds a newline |
| `Obsidian.FrontmatterReadsBack` | scripts/package_obsidian.py:308-325 | with single-line fields, the emitted header reads back line by line as the frontmatter lines |
| `Obsidian.FrontmatterEnds` | scripts/package_obsidian.py:308-325 | the header starts with the fence, title and date lines and ends with the fence |
| `Obsidian.MdxLayout` | scripts/package_obsidian.py:365 | the output starts with the fence, title and date lines and ends with the fence, a blank line and the body |
| `Obsidian.SnippetLinkReadBack` | scripts/package_obsidian.py:351 | the link written for a passing snippet is matched in full by the site's snippet-link pattern, with the same text and slug |
| `Obsidian.PassingSnippetReadBack` | scripts/package_obsidian.py:347-351 | the replacement of a link to a passing snippet is read back by the site build as that snippet's link |
| `Obsidian.OtherReplacementNoSnippet` | scripts/package_obsidian.py:337-357 | the replacement of a link that is not to a passing snippet holds no snippet link at any position, given image file names without `]` |
| `Obsidian.SplicedFrom` | scripts/package_obsidian.py:359-363 | text before the first span is copied unchanged |
| `Obsidian.SplicedIdentity` | scripts/package_obsidian.py:332-363 | replacing every span by its own text leaves the text unchanged |
| `Obsidian.RewriteSpans` | scripts/package_obsidian.py:330-363 | substituting the spans from last to first gives the front-to-back splice: every span replaced and all text between spans kept in order |
| `Obsidian.ConvertToMdx` | scripts/package_obsidian.py:271-365 | the output is the frontmatter, a blank line, and the body with every parsed wiki-link replaced by its replacement |
| `Obsidian.RewriteKeepsPlainText` | scripts/package_obsidian.py:331-363 | with each link replaced by its own text, the body comes back unchanged |
| `Sorting.InsertionSort` | scripts/review_snippets.py:252 | the sort returns a permutation of its input, ordered by the key |
| `Sorting.SortStable` | scripts/review_snippets.py:252 | elements with equal keys keep their input order |
| `Review.NewerFirstIsPreorder` | scripts/review_snippets.py:64 | the reversed name order is a total preorder |
| `Review.NewestFirst` | scripts/review_snippets.py:64 | the log files are a permutation of the input, names in descending order |
| `Review.FirstPerTitle` | scripts/review_snippets.py:66-78 | each non-empty title appears once, with the entry of its first occurrence; empty titles are ignored |
| `Review.FirstPerTitleStep` | scripts/review_snippets.py:71-78 | one more entry is taken exactly when its title is non-empty and new |
| `Review.RecentQualityChecks` | scripts/review_snippets.py:53-82 | the result holds each non-empty title of the newest-first log entries once, with its first, hence newest, entry |
| `Review.WantedRule` | scripts/review_snippets.py:234-239 | a review is wanted iff the check failed or its score is at most 7, with missing fields read as score 10 and pass |
| `Review.NeedsReview` | scripts/review_snippets.py:232-245 | a candidate is selected iff it comes from a check and is wanted |
| `Review.ByScoreIsPreorder` | scripts/review_snippets.py:252 | ordering by score is a total preorder |
| `Review.ReviewQueue` | scripts/review_snippets.py:252 | the queue is a permutation of the selected candidates in ascending score |
| `Review.ReviewQueueStable` | scripts/review_snippets.py:252 | candidates with equal scores keep their selection order |
| `Review.CollapseSeps` | scripts/review_snippets.py:196 | no dash or whitespace is left; every other character is `_` or comes from the input |
| `Review.CollapseSepsSplit` | scripts/review_snippets.py:196 | a string that ends in a character other than a dash or whitespace collapses independently of what follows it |
| `Review.CollapseSepsRun` | scripts/review_snippets.py:196 | a whole run of dashes and whitespace, before another character or the end, becomes exactly one `_` |
| `Review.CollapseSepsSeparator` | scripts/review_snippets.py:196 | `u`, a separator run, and `v` collapse to `u` collapsed, one `_`, and `v` collapsed: a run is replaced, never deleted |
| `Review.CollapseSepsKeeps` | scripts/review_snippets.py:196 | the ASCII letters and digits survive, in order |
| `Review.CollapseSepsOfWord` | scripts/review_snippets.py:196 | a string of word characters is unchanged |
| `Review.SafeTitle` | scripts/review_snippets.py:195-196 | the sanitised title holds only word characters and keeps the title's ASCII letters and digits in order |
| `Review.SafeTitleJoinsWords` | scripts/review_snippets.py:195-196 | two words around a run of dashes and whitespace give the file title `a_b` |
| `Review.SafeTitleIdempotent` | scripts/review_snippets.py:195-196 | sanitising twice is sanitising once |
| `Review.ReviewFileName` | scripts/review_snippets.py:195-198 | the name is `REVIEW_SNIPPET_`, then the sanitised title, then `.md` |
| `TagColor.ToInt32` | src/@lekoarts/gatsby-theme-minimal-blog/src/components/item-tags.tsx:27 | ToInt32 lands in the signed 32-bit range and agrees with its input modulo 2^32 |
| `TagColor.ToInt32OfInt32` | src/@lekoarts/gatsby-theme-minimal-blog/src/components/item-tags.tsx:27 | a signed 32-bit value converts to itself |
| `TagColor.Shl5` | src/@lekoarts/gatsby-theme-minimal-blog/src/components/item-tags.tsx:27 | `h << 5` is a signed 32-bit value congruent to 32·h modulo 2^32 |
| `TagColor.HashFromConcat` | src/@lekoarts/gatsby-theme-minimal-blog/src/components/item-tags.tsx:25-28 | the hash loop is a left fold: hashing a concatenation continues from the first part's hash |
| `TagColor.HashFromIsPoly31` | src/@lekoarts/gatsby-theme-minimal-blog/src/components/item-tags.tsx:25-28 | modulo 2^32 the loop computes the polynomial hash `h·31 + code` |
| `TagColor.Hash` | src/@lekoarts/gatsby-theme-minimal-blog/src/components/item-tags.tsx:25-28 | the hash of a slug is its textbook polynomial hash modulo 2^32 |
| `TagColor.HashBound` | src/@lekoarts/gatsby-theme-minimal-blog/src/components/item-tags.tsx:26-28 | the hash grows by less than 2^31 + 2^16 per code unit, so doubles hold it exactly |
| `TagColor.ColorIndex` | src/@lekoarts/gatsby-theme-minimal-blog/src/components/item-tags.tsx:29 | the index `abs(hash) % 5` is in [0, 5) |
| `TagColor.GetTagColor` | src/@lekoarts/gatsby-theme-minimal-blog/src/components/item-tags.tsx:24-30 | the colour is always one of the five entries |
| `TagColor.SameHashSameColor` | src/@lekoarts/gatsby-theme-minimal-blog/src/components/item-tags.tsx:29 | slugs whose hashes agree up to sign share a colour |
| `TagColor.OneUnitHash` | src/@lekoarts/gatsby-theme-minimal-blog/src/components/item-tags.tsx:25-29 | a one-unit slug hashes to its code, so its colour index is the code modulo 5 |
| `TagColor.EmptySlugColor` | src/@lekoarts/gatsby-theme-minimal-blog/src/components/item-tags.tsx:25-29 | the empty slug hashes to 0 and gets the first colour, yellow |
| `TagColor.SlugAColor` | src/@lekoarts/gatsby-theme-minimal-blog/src/components/item-tags.tsx:16-29 | the slug `a` gets the third colour, green |

## Left out

- File system access is not modelled: directory listings, `existsSync`, `rglob`, reading files, copying images and writing the outputs and logs. Listings and file texts are inputs, and results are returned.
- JSON and YAML parsing is not modelled (`_metadata.json`, `hidden_snippets.json`, `yaml.safe_load`, the log files and the model's reply). Their parsed results are parameters, and a failed parse is an empty or `None` input.
- `Obsidian.ExtractFrontmatter` returns the raw text between the fences. Turning it into a dictionary is the YAML parser's job.
- `Obsidian.CheckQuality`: the chat-model call and its prompt are not modelled, nor is the truncation of the content to 8000 characters that only feeds the prompt. The reply is a parameter, and `None` stands for any exception.
- Non-boolean JSON values in the reply (`"appropriate": "yes"`) are not modelled. Python's `and` would return them as they are; the fields are modelled as booleans.
- The `dotenv` configuration and the vault search (`find_document`, `find_linked_documents`) are not modelled. Neither is the per-post driver `package_post` beyond its tag filter.
- `Obsidian.OtherReplacementNoSnippet` assumes no image file name holds `]`. `package_obsidian.py` maps each copied image's link target to itself (scripts/package_obsidian.py:520-531), and a parsed target has no `]`. The map is a parameter, so the assumption is stated rather than derived.
- `convert_to_mdx`'s default date from the clock is not modelled. The date is a parameter.
- `convert_to_mdx` with `tags=None` or an empty description is modelled as an empty sequence or string. The source treats both alike.
- `Extract.ListedTagsExtracted`: a list whose items are indented differently from one another, or separated by blank lines, is not covered by the converse. The tag pattern accepts both (gatsby-node.js:33), but a YAML block sequence indents its items alike and the packager writes them without blank lines.
- `Review.WantedRule`: scores are modelled as integers and a JSON `null` score as a missing one. A fractional score such as `7.5` is not modelled (Python leaves it unselected). A `null` score on a check that passes makes `score <= REVIEW_THRESHOLD` raise a `TypeError` in Python (scripts/review_snippets.py:234-238); the model reads the score as 10.
- `Obsidian.CheckQuality`: the same holds for the reply's score. A fractional score is not modelled. A `null` score on an appropriate, sound reply makes `>= MIN_QUALITY_SCORE` raise, and the exception handler auto-passes the snippet (scripts/package_obsidian.py:233-256); the model reads the score as 0 and fails it.
- `Review.FirstPerTitle`: a log file that raises partway through its entries keeps the entries read before the error in the source. The model treats a file as wholly readable (`Some`) or not (`None`).
- A missing `logs` directory is not modelled separately. It is the empty list of log files.
- `generate_review`, writing the review files and the console output of `main` are not modelled: they are the chat-model call and I/O.
- `Sorting.InsertionSort` stands for Python's stable sort. Both are determined by being a sorted permutation that keeps equal keys in input order.
- The Gatsby `createPages`, `createSchemaCustomization` and `createResolvers` hooks are not modelled. `timeToRead` is float arithmetic with `Math.round`.
- The React and theme components are not modelled, apart from the tag-colour hash: the graph view's D3 simulation, buttons, layouts and the network and timer components.
- Case mapping is modelled on ASCII letters only (`toLowerCase`, `lower()`). Python's `\w` is modelled as ASCII letters, digits and `_`. The whitespace classes of both languages are modelled in full.
- `TagColor.HashFrom` keeps the running hash as an unbounded integer, where JavaScript holds a double. `TagColor.HashBound` shows the two agree for slugs shorter than a million UTF-16 units.
- The incoming-link loop's in-place mutation of node objects is modelled functionally: the first node with an id receives the increments, as `nodes.find` does.
