# Uttr wiki links and link graph, modelled in Dafny

Uttr is a note-taking app. A note can link to another note by writing its title in double
brackets, `[[Note Title]]`. This project models the logic behind those links:

- splitting note content into plain-text and wiki-link segments;
- extracting a note's normalised link tokens;
- building the normalised-title index, where the first note with a title wins;
- resolving one raw link;
- building the mentions/backlinks graph over all notes.

It also models the note helpers around that logic:

- the relative-time buckets of the date formatter;
- full-text search;
- the sorted tag list;
- parsing a comma-separated tag string.

Finally, it models the data the graph panel derives before layout:

- the title filter;
- the node and edge lists, with each node's degree;
- the set of notes related to the active note.

The modules follow the source files:

| module | file | what it holds |
|---|---|---|
| `Notes` | `notes.dfy` | the `Note` record and `Option` |
| `JsString` | `js_string.dfy` | the JavaScript string behaviour the model relies on |
| `JsCollections` | `js_collections.dfy` | the JavaScript collection behaviour the model relies on |
| `WikiPattern` | `wiki_pattern.dfy` | the `[[...]]` regular expression and the tag-stripping replace |
| `Linking` | `linking.dfy` | `src/utils/linking.js` |
| `NoteUtils` | `note_utils.dfy` | `src/utils/noteUtils.js` |
| `LinkGraphView` | `link_graph_view.dfy` | the memos of `src/components/LinkGraph.js` |

**`JsString`** covers these string operations:

- `trim`;
- `replace(/\s+/g, ' ')` over the exact JavaScript white-space set;
- `toLowerCase`, as a per-character map;
- `includes`, `slice` and `split`, with `join` as the inverse of `split` for the round-trip lemmas;
- `sort` by code units.

**`JsCollections`** covers these collection operations:

- a `Set` in insertion order, modelled as first-occurrence deduplication;
- `filter` and `map`;
- the nested `forEach` pushes, as `FilterMap` and `FlatMap`;
- the order in which `Object.entries` lists keys: canonical array-index keys first, in ascending order, then the rest in insertion order.

**Imperative parts.** Where the source builds a result step by step, the model is a method with a loop. Its `ensures` ties the result to a specification function, and lemmas prove what that function means. These loops are:

- the tokenizer and the extractor's `exec` loops;
- the title-index `forEach`;
- the two passes of `buildLinkGraph`;
- the tag set;
- the degree counter over an array;
- the related set.

`buildLinkGraph` returns a `Graph` value with two parts: the keys in creation order, and the entry map.

**Three behaviours of the code worth knowing:**

- `buildTitleIndex` tests the raw title for truthiness before trimming. A title made only of white space is therefore indexed, under the empty key, and a blank link text resolves to it (`Linking.BlankTextResolvesBlankTitle`).
- `extractWikiLinks` returns the lower-cased normalised tokens, not the first spelling seen.
- The graph panel's title filter is lower-cased but, unlike search, not trimmed: `filter.trim()` only decides whether to filter at all.

## Model

| member | source | states |
|---|---|---|
| Linking.TokenizeContentWithLinks | src/utils/linking.js:69-85 | the `exec` loop yields exactly the segment list `Tokens(content)`, and concatenating the segments (links re-bracketed) gives back the content |
| Linking.PushMatch | src/utils/linking.js:76-81 | one loop pass: the text before the match (only when non-empty) and the link are appended so that the rest of the scan completes the same list |
| Linking.RenderTokens | src/utils/linking.js:69-85 | rendering the segments of any content, each link as `[[inner]]`, reproduces the content exactly |
| Linking.RenderTokensFrom | src/utils/linking.js:75-83 | the segments produced from position `last` render to the suffix of the content from `last` |
| Linking.TokensFromTexts | src/utils/linking.js:79-83 | every text segment is non-empty and contains no `[[...]]` match |
| Linking.TokensFromLinks | src/utils/linking.js:72-80 | every link segment's value is non-empty and has no `]` or newline |
| Linking.TokensFromAlternate | src/utils/linking.js:75-83 | a text segment is always followed by a link segment, never by another text segment |
| Linking.TextSegmentStable | src/utils/linking.js:83 | content without any link tokenizes to the single text segment holding all of it |
| Linking.CapturesAreLinkValues | src/utils/linking.js:72-80 | the extractor's captures are exactly the tokenizer's link values, in order |
| Linking.ExtractWikiLinks | src/utils/linking.js:5-22 | the `exec` loop with the `Set` yields exactly `WikiLinkTokens(content)` |
| Linking.WikiLinkTokensShape | src/utils/linking.js:14-21 | the tokens are pairwise distinct, and each is non-empty, at most 120 characters, lower-case, free of leading white space and of white-space runs (the 120-character cut may leave one trailing space) |
| Linking.WikiLinkTokensFromLinks | src/utils/linking.js:5-22 | the tokens are exactly the normalised non-blank link values of the tag-stripped content, ordered by first occurrence |
| Linking.NormalizeTokenShape | src/utils/linking.js:14-18 | a non-blank capture normalises to a token of the required shape |
| Linking.ShortTitleToken | src/utils/linking.js:14-18 | a capture of at most 120 normalised characters normalises exactly as a title does |
| Linking.LongTitleUnreachable | src/utils/linking.js:17-29 | a title longer than 120 characters once normalised never equals a token, so no link reaches it |
| Linking.BuildTitleIndex | src/utils/linking.js:25-34 | the `forEach` loop yields exactly `TitleIndex(notes)` |
| Linking.TitleIndexFirstWins | src/utils/linking.js:25-34 | a key is present iff some non-null note with a non-empty title normalises to it; its value is the id of the first such note; no earlier note normalises to it |
| Linking.FirstWinsSpec | src/utils/linking.js:30 | a first-insert-wins map holds a key iff the key occurs, and maps it to the value at its first occurrence |
| Linking.ResolveLink | src/utils/linking.js:61-66 | a result exists iff the text is non-empty and its normalised form is indexed to a non-empty id, and the result is that first note's id |
| Linking.BlankTextResolvesBlankTitle | src/utils/linking.js:61-66 | in any note list, a blank, non-empty link text resolves to a present note whose non-empty title is only white space, when no earlier note has the empty key |
| Linking.ResolveTokensSpec | src/utils/linking.js:43-48 | a mention is kept iff it is non-empty, differs from the note's own id, and is the index entry of one of the tokens |
| Linking.ResolveAll | src/utils/linking.js:42-48 | the loop over the tokens yields exactly the resolved mentions, in token order |
| Linking.ResolveMentions | src/utils/linking.js:41-48 | a note's tokens, extracted from its content and looked up one by one, yield exactly `MentionsOf(n, titleIndex)` |
| Linking.TitleIndexInjective | src/utils/linking.js:25-34 | when no two notes share an id, no two title keys map to the same id |
| Linking.ResolveTokensDistinct | src/utils/linking.js:43-48 | distinct tokens looked up in such an index give mentions without repeats |
| Linking.MentionMapLast | src/utils/linking.js:40-50 | the entry for an id holds the mentions of the last note with that id |
| Linking.FileNote | src/utils/linking.js:41-49 | filing one note keeps the first-pass invariant: the keys are the distinct ids so far in first-occurrence order, and the entries are those ids' mentions with no backlinks |
| Linking.FileMentions | src/utils/linking.js:40-50 | the first pass creates the keys in first-occurrence order and the entries with the last note's mentions and no backlinks |
| Linking.PushBacklinks | src/utils/linking.js:53-55 | for one entry, every existing target gets the source id appended once per mention of it; other fields and keys are unchanged |
| Linking.AddBacklinks | src/utils/linking.js:52-56 | walking the entries in order, every entry's backlinks grow by the ids that mention it, in walk order; mentions are untouched |
| Linking.BacklinksCount | src/utils/linking.js:52-56 | across a walk that visits each id once, a target's backlinks contain a source as often as the source mentions the target |
| Linking.Invert | src/utils/linking.js:52-56 | the second pass turns the mention entries into `GraphFrom(keys, order, mentions)` |
| Linking.BuildGraph | src/utils/linking.js:39-57 | both passes over a given title index yield exactly `GraphOf(notes, titleIndex)` |
| Linking.BuildLinkGraph | src/utils/linking.js:37-58 | the whole build yields exactly `LinkGraph(notes)` |
| Linking.LinkGraphNodes | src/utils/linking.js:40-50 | the graph has an entry iff some note has that id; its keys are distinct and in first-occurrence order |
| Linking.LinkGraphMentions | src/utils/linking.js:41-49 | the entry of the last note with an id holds that note's mentions: non-empty ids other than its own that some token of its content resolves to |
| Linking.LinkGraphMentionsAreNodes | src/utils/linking.js:44-49 | every mention is a graph node other than the mentioning note itself |
| Linking.LinkGraphMentionsDistinct | src/utils/linking.js:40-50 | every id has an entry, and when no two notes share an id, no entry mentions the same note twice: five links to one note make one mention |
| Linking.LinkGraphBacklinks | src/utils/linking.js:52-56 | `t`'s backlinks hold `k` exactly as often as `k`'s mentions hold `t`, so backlinks are the mention relation reversed |
| NoteUtils.RelativeSpec | src/utils/noteUtils.js:24-33 | each bucket holds exactly its range of elapsed milliseconds, with floored counts (1-59 minutes, 1-23 hours, 1-6 days); the calendar bucket shows the year past 365 days |
| NoteUtils.RelativeMonotone | src/utils/noteUtils.js:24-33 | a longer elapsed time never gets an earlier bucket or a smaller count in the same bucket |
| NoteUtils.LabelReadsBack | src/utils/noteUtils.js:30-33 | each relative label is "Just now" or the decimal count, the unit letter and " ago", and the count reads back from it |
| NoteUtils.DecimalRoundTrip | src/utils/noteUtils.js:31-33 | the decimal spelling of a count denotes that count |
| NoteUtils.SearchNotesSpec | src/utils/noteUtils.js:55-71 | a non-array gives `[]`; a missing or blank term gives the notes unchanged; otherwise the result is the order-preserving selection of non-null notes matching the trimmed lower-case term, each with its multiplicity |
| NoteUtils.SearchCaseInsensitive | src/utils/noteUtils.js:59 | lower-casing the search term does not change the result |
| NoteUtils.GetAllTags | src/utils/noteUtils.js:78-92 | the nested loops and the sort yield exactly `AllTags(notes)` |
| NoteUtils.AddTags | src/utils/noteUtils.js:84-88 | adding one note's tags to the set is first-occurrence deduplication of the trimmed non-blank string tags |
| NoteUtils.AddTag | src/utils/noteUtils.js:85-87 | adding one tag to the set keeps it the first-occurrence deduplication of the tags seen, now with this tag trimmed when it is a non-blank string |
| NoteUtils.AllTagsSpec | src/utils/noteUtils.js:78-92 | the tags are strictly sorted and distinct, and are exactly the trimmed non-blank string tags of the non-null notes; a non-array gives `[]` |
| NoteUtils.CleanTagTrimmed | src/utils/noteUtils.js:85-86 | every collected tag is non-empty and trimmed |
| NoteUtils.ParseTagsSpec | src/utils/noteUtils.js:99-107 | a missing or empty input gives `[]`; otherwise the result is the first ten of the trimmed pieces of 1 to 50 characters, each comma-free and trimmed |
| NoteUtils.ParseTagsRoundTrip | src/utils/noteUtils.js:99-107 | one to ten trimmed, comma-free tags of 1 to 50 characters, joined with commas, parse back to themselves |
| LinkGraphView.FilteredNotesSpec | src/components/LinkGraph.js:225-229 | a blank filter keeps all notes; otherwise the result is the order-preserving selection of notes whose lower-cased title (empty when missing) includes the lower-cased filter |
| LinkGraphView.FilterCaseInsensitive | src/components/LinkGraph.js:227-228 | lower-casing the filter does not change the shown notes |
| LinkGraphView.NodeTitle | src/components/LinkGraph.js:232 | a node's title is the note's own title when that is non-empty, and "Untitled" otherwise |
| LinkGraphView.NodeMapSpec | src/components/LinkGraph.js:233 | the id map holds exactly the shown ids, each at the position of the last node with that id |
| LinkGraphView.BuildView | src/components/LinkGraph.js:231-247 | the edges are `Edges(...)`, there is one node per shown note with its id and title, each node's degree counts the edge ends at it, and the degrees sum to twice the number of edges |
| LinkGraphView.CollectEdges | src/components/LinkGraph.js:235-243 | the loop over the shown notes yields exactly `Edges(ns, graph, dir)` |
| LinkGraphView.PushEdges | src/components/LinkGraph.js:239-241 | one note's mentions (outward) or backlinks (inward) push, in order, exactly the edges whose other end is shown |
| LinkGraphView.EdgesSpec | src/components/LinkGraph.js:235-243 | an edge is drawn iff both ends are shown and, outward, the source has an entry mentioning the target, or, inward, the target has an entry with the source among its backlinks |
| LinkGraphView.CountDegrees | src/components/LinkGraph.js:244 | the `degree++` loop gives each position the number of edge ends there, and the total is twice the edge count |
| LinkGraphView.BumpEnds | src/components/LinkGraph.js:244 | one pass adds one to the degree at each end of the edge and changes nothing else |
| LinkGraphView.TallyEnds | src/components/LinkGraph.js:232-244 | the array loop starting from zero degrees yields `Tally(links)` |
| LinkGraphView.TallyHits | src/components/LinkGraph.js:244 | the tally at each position is the number of edge ends there |
| LinkGraphView.TallySum | src/components/LinkGraph.js:244 | each edge adds two to the total degree |
| LinkGraphView.HitsDegree | src/components/LinkGraph.js:232-244 | the node standing for an id gets that id's degree; an earlier node with the same id keeps degree zero |
| LinkGraphView.DirectionsAgree | src/components/LinkGraph.js:238-242 | over a graph built by `buildLinkGraph`, `from → to` is drawn outward iff it is drawn inward |
| LinkGraphView.ActiveSet | src/components/LinkGraph.js:249-258 | the memo yields exactly `Related(focusActive, activeNoteId, graph)` |
| LinkGraphView.AddAll | src/components/LinkGraph.js:254-255 | adding a list of ids to the set keeps it the first-occurrence deduplication of all ids added |
| LinkGraphView.RelatedSpec | src/components/LinkGraph.js:249-258 | there is a set iff focus is on and an active id is given; it starts with the active id, is duplicate-free, and holds exactly the active id, its mentions and its backlinks |
| LinkGraphView.RelatedOfLinkGraph | src/components/LinkGraph.js:249-258 | over a graph built by `buildLinkGraph`, the related set is the active id, the notes it mentions and the notes that mention it |
| JsString.TrimSpec | src/utils/linking.js:63 | `trim` leaves no white space at either end, is empty exactly for blank strings, and adds nothing |
| JsString.TrimIdempotent | src/utils/noteUtils.js:85-86 | trimming twice is trimming once |
| JsString.CollapseSpaceSpec | src/utils/linking.js:63 | `replace(/\s+/g, ' ')` leaves no run of white space, makes every remaining white space a single space, keeps empty iff empty, keeps whether it starts or ends with white space, and never lengthens |
| JsString.CollapseSpaceRuns | src/utils/linking.js:63 | text without white space is kept as it is, and a maximal white-space run after such text becomes exactly one space, the rest collapsed in turn; these equations fix the result for every string |
| JsString.LowerIdempotent | src/utils/linking.js:29 | lower-casing twice is lower-casing once |
| JsString.IncludesAt | src/utils/noteUtils.js:67-69 | `includes` holds iff the term occurs at some position |
| JsString.JoinSplit | src/utils/noteUtils.js:102-103 | joining the pieces of a `split` with the separator gives back the string |
| JsString.SplitJoin | src/utils/noteUtils.js:102-103 | splitting a join of separator-free pieces gives back the pieces |
| JsString.SortStrings | src/utils/noteUtils.js:91 | `sort` on distinct strings yields a strictly ascending arrangement of exactly those strings |
| JsCollections.DedupSpec | src/utils/linking.js:19-21 | set insertion yields distinct elements, exactly those inserted |
| JsCollections.DedupFirstOccurrenceOrder | src/utils/noteUtils.js:81-91 | set iteration lists the elements in first-insertion order |
| JsCollections.FilterKeeps | src/utils/noteUtils.js:60 | `filter` keeps the order and keeps each element as often as it occurs, iff it passes |
| JsCollections.FilterMapSpec | src/components/LinkGraph.js:239-241 | a value is produced iff some element produces it |
| JsCollections.FlatMapSpec | src/components/LinkGraph.js:235-243 | a value is produced iff some element's list holds it |
| JsCollections.EnumerationOrder | src/utils/linking.js:52 | `Object.entries` lists every key once: the array-index keys first and ascending, then the other keys exactly in creation order |
| JsCollections.NamedKeysInOrder | src/utils/linking.js:52 | the keys that are not array indices are those `filter` keeps, in creation order |
| WikiPattern.ExecLeftmost | src/utils/linking.js:72-75 | `exec` from a position finds a match at the leftmost position where one starts, or finds none when no position has one |
| WikiPattern.ExecSplits | src/utils/linking.js:76-81 | a match splits the rest of the content into the text before it, `[[inner]]` and the text after it |
| WikiPattern.StripTagsLeavesNoTag | src/utils/linking.js:8 | after the tag-stripping replace, no `<` is followed later by a `>` |
| WikiPattern.StripTagsKeepsPlain | src/utils/linking.js:8 | text without a tag is returned unchanged |
| WikiPattern.StripTagsFirstTag | src/utils/linking.js:8 | the first tag, from its `<` to the first `>` after it, becomes one space; the text before it is kept and the text after it is stripped in turn |

## Left out

- Non-string values. The model does not cover numeric ids, the string coercion of ids used as object keys, or non-string titles or contents. Ids, titles and contents are strings, and a missing title or content is the empty string. A non-array `notes` is `None` in `searchNotes` and `getAllTags`, a non-string tag is `None`, and a non-array `tags` behaves as an empty list.
- Null notes. `buildLinkGraph` and the panel dereference every note, so those take notes that are present. The `notes || []` fallback is not modelled.
- The special key `__proto__` in objects is not modelled.
- `toLowerCase` is modelled for ASCII and Latin-1 letters only. Characters stand for UTF-16 code units; surrogate pairs and locale rules are not modelled.
- `formatDate` takes the elapsed milliseconds as an integer. Date parsing, `new Date()`, the `Intl.DateTimeFormat` output for older dates, and the 'Invalid date' and 'Unknown date' results are not modelled. `NoteUtils.RelativeSpec` states only whether the year is shown.
- `generateId` is left out: it depends on the clock and on randomness.
- The force-layout `simulate` and the node coordinates and velocities are left out: they are floating-point numerics. So are drag, pan, rendering, storage and every other UI file.
- LinkGraphView.BuildView: a node is a value record, and `baseMap` is a map from id to the position of the last node with that id. The `degree++` updates go to an array indexed by that position. Aliasing between `base` and `baseMap` is modelled through that position, not as shared objects.
- The panel's `graph[n.id]` lookup needs an entry to be present. Entries are modelled as a Dafny map, so prototype-chain lookups are not modelled.
