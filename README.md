# Knowledge genealogy — a Dafny model

The game passes fictional "knowledge" records from player to player, much like the
children's game Telephone. Each session starts from a parent record and a chat log and
derives a child record one generation lower. The records form a forest rooted at five
generation-0 seeds. This project models the core of that system and proves what its
code promises:

- **the genealogy resolver** (`Genealogy`). It returns a record's ancestor chain, the
  record itself, and its descendants in breadth-first order. The ancestor walk and the
  breadth-first search are imperative methods, each proved against a specification.
- **the knowledge store** (`KnowledgeStore`). The table is a class with a
  `map<string, Knowledge>` field. Its operations are:
  - idempotent seeding with `ON CONFLICT DO NOTHING`;
  - insert-if-absent with the parent's `children_count` increment;
  - delete by title;
  - the 400 answer when neither delete parameter is given;
  - the orphan cleanup. It repeats a scan until nothing changes, and the model proves
    that this reaches the least fixed point of "the parent is connected".
- **the generate route** (`Generate`). It has the fallback child for an empty chat log
  and the child built from the parsed model reply. The reply cleaning has three
  steps: removing code fences, JavaScript `trim`, and the outermost `{…}` span.
- **the tree page** (`TreeView`). It covers the category filter, the React Flow nodes
  and edges, the shape of the layout step, the selection refresh, and the no-op when
  the filtered set is empty.
- **the history page** (`HistoryView`). It covers the list URL, what a list or
  genealogy fetch leaves on screen, and the grouping by generation (an imperative
  reduce) with its generation keys sorted ascending.
- **the seed picker** (`SeedPicker`). It picks candidates by category, falls back to
  every seed, draws index `floor(r·len)`, and throws when the reply is not ok.

Calls to the database, the Liveblocks room, the language model and `fetch` are not
modelled. Their results are parameters of the model: a snapshot of rows, a reply
string, a `Fetched` value or a `SeedsReply`. `Date.now()`, `new Date().toISOString()`,
`Math.random()` and its base-36 suffixes, `JSON.parse` and dagre's computed node
centres are parameters as well.

## Model

| member | source | states |
|---|---|---|
| KnowledgeTypes.CategoryName | src/types/knowledge.ts:2-8 | every category tag is non-empty and is neither "all" nor "random", so it can never be mistaken for the pages' "all" selector or the picker's "random" |
| KnowledgeTypes.CategoryNameInjective | src/types/knowledge.ts:2-8 | two categories have the same tag exactly when they are the same category |
| Genealogy.Find | src/app/api/knowledge/genealogy/route.ts:40-42 | `find` returns a record of the snapshot with the requested id, and returns none exactly when no record carries that id |
| Genealogy.FindIsFirst | src/app/api/knowledge/genealogy/route.ts:40 | of several records with the same id, `find` returns the first |
| Genealogy.ChildrenOf | src/app/api/knowledge/genealogy/route.ts:71 | the children are exactly the snapshot records whose parent link equals the id |
| Genealogy.Ancestors | src/app/api/knowledge/genealogy/route.ts:48-58 | the walk from the target's parent link, oldest first, stopping at a falsy or dangling link. Its properties are stated by `AncestorsChain`, `AncestorsPrefix`, `AncestorsDistinct` and `TargetNotAncestor` |
| Genealogy.AncestorsChain | src/app/api/knowledge/genealogy/route.ts:48-58 | each ancestor is in the snapshot and is the first record with its id. The list is a parent chain whose newest member is the record the start link names. The oldest member's own link is null, empty or dangling. The list is empty exactly when the start link is falsy or dangling |
| Genealogy.AncestorsFuel | src/app/api/knowledge/genealogy/route.ts:48-58 | the ancestor list does not depend on the lookup bound used to show that the walk stops |
| Genealogy.AncestorsPrefix | src/app/api/knowledge/genealogy/route.ts:48-58 | the ancestors older than any ancestor are exactly that ancestor's own walk, so the list is a sequence of nested walks |
| Genealogy.AncestorsDistinct | src/app/api/knowledge/genealogy/route.ts:48-58 | a walk that stops never meets the same record twice |
| Genealogy.TargetNotAncestor | src/app/api/knowledge/genealogy/route.ts:48-62 | a walk that stops never lists the target among its own ancestors, so the target appears exactly once |
| Genealogy.WalkAncestors | src/app/api/knowledge/genealogy/route.ts:49-58 | the `while (currentId)` loop, which prepends each parent found and breaks at a dangling link, returns the specified ancestor list |
| Genealogy.ClosedHoldsDescendants | src/app/api/knowledge/genealogy/route.ts:64-81 | a list closed under child links holds every record reachable from the target by a chain of child links |
| Genealogy.EnqueueChildren | src/app/api/knowledge/genealogy/route.ts:70-79 | one breadth-first step marks, appends and enqueues each unvisited child of the dequeued id. Afterwards every child of that id is visited and the search state is kept |
| Genealogy.CollectDescendants | src/app/api/knowledge/genealogy/route.ts:64-81 | the search ends. Its result holds snapshot records other than the target, without repeated ids, each hanging below the target or an earlier entry. The list is closed under child links |
| Genealogy.EffectiveDirection | src/app/api/knowledge/genealogy/route.ts:27 | the direction is never empty: a non-empty parameter is taken as given, and a missing or empty one means "both" |
| Genealogy.MaxGeneration | src/app/api/knowledge/genealogy/route.ts:86-89 | `Math.max` over the generations is attained by some record and bounds every record |
| Genealogy.LineageOf | src/app/api/knowledge/genealogy/route.ts:45-81 | the ancestors, then the target, then the descendant list form a lineage. The target appears once. The descendant part contains every descendant when the direction asks for one, and nothing when it does not |
| Genealogy.Get | src/app/api/knowledge/genealogy/route.ts:23-90 | the handler answers 400 exactly when the id is falsy. It answers `{genealogy: [], target: null}` exactly when no record has the id. Otherwise it returns the target found, the lineage for the effective direction (default "both"), and `totalGenerations` equal to the maximum generation plus one |
| KnowledgeStore.RootedInClosed | src/app/api/knowledge/route.ts:278-295 | every id connected to a seed lies in any set that holds the seeds and is closed under "the parent is connected" |
| KnowledgeStore.SeedIsRooted | src/app/api/knowledge/route.ts:279-283 | a generation-0 row is connected |
| KnowledgeStore.RootedStep | src/app/api/knowledge/route.ts:290-292 | a row with a truthy parent link to a connected id is connected |
| KnowledgeStore.Unconnected | src/app/api/knowledge/route.ts:298-300 | the orphan ids are exactly the ids of rows outside the connected set |
| KnowledgeStore.SeedIds | src/app/api/knowledge/route.ts:276-283 | the seeding loop yields a set that holds every generation-0 id and only connected ids |
| KnowledgeStore.ConnectPass | src/app/api/knowledge/route.ts:288-294 | one scan only adds connected ids. It reports `changed` exactly when the set grew. A scan without change leaves the set closed under parent links |
| KnowledgeStore.FindOrphans | src/app/api/knowledge/route.ts:273-300 | the `while (changed)` loop ends after at most one pass per row plus one. It ends at the least fixed point: an id is in the set exactly when it is connected to a seed. The orphans are the rest |
| KnowledgeStore.UnparentedNonSeedIsOrphan | src/app/api/knowledge/route.ts:279-295 | when ids are unique, a row with a null or empty parent link and a generation other than 0 is never connected, so the cleanup always deletes it |
| KnowledgeStore.RootedInSurvivors | src/app/api/knowledge/route.ts:298-304 | a chain to a seed survives the cleanup intact |
| KnowledgeStore.CleanupIsIdempotent | src/app/api/knowledge/route.ts:270-312 | every survivor of a cleanup is connected among the survivors, so a second cleanup deletes nothing |
| KnowledgeStore.UnconnectedDistinct | src/app/api/knowledge/route.ts:298-300 | when row ids are unique, the reported orphan ids contain no repeats |
| KnowledgeStore.SeedKnowledge | src/app/api/knowledge/route.ts:8-99 | there are five seeds, each of generation 0 and without a parent link |
| KnowledgeStore.AddIfAbsent | src/app/api/knowledge/route.ts:121-136 | the id is present afterwards, every existing row is kept as it was, and the record is stored only when its id was absent |
| KnowledgeStore.WithSeeds | src/app/api/knowledge/route.ts:119-137 | the seeding loop inserts each seed only when its id is absent. What this does to the table is stated by `WithSeedsEffect` and `WithSeedsIdempotent` |
| KnowledgeStore.WithSeedsEffect | src/app/api/knowledge/route.ts:119-137 | seeding keeps every existing row unchanged, adds only seeds, makes every seed id present, and keeps the table keyed by id |
| KnowledgeStore.WithSeedsIdempotent | src/app/api/knowledge/route.ts:119-137 | seeding twice gives the same table as seeding once |
| KnowledgeStore.SeedingPresentIsNoop | src/app/api/knowledge/route.ts:119-137 | when every seed id is already present, seeding changes nothing |
| KnowledgeStore.BumpParent | src/app/api/knowledge/route.ts:198-203 | no row appears or disappears; the parent named by a truthy, present link gains one child and nothing else in it changes; every other row is untouched |
| KnowledgeStore.Inserted | src/app/api/knowledge/route.ts:180-205 | the table after a successful insert: the stored record, then the parent's `children_count + 1`. Its effect is stated by `InsertEffect` |
| KnowledgeStore.InsertEffect | src/app/api/knowledge/route.ts:180-205 | inserting a new record adds exactly its id. A missing chat log is stored as `[]`. Only the parent named by a truthy link gains one child, and every other row is untouched |
| KnowledgeStore.WithoutTitle | src/app/api/knowledge/route.ts:315-326 | `DELETE … WHERE title = …` keeps the rows with another title. Its effect is stated by `WithoutTitleEffect` |
| KnowledgeStore.WithoutTitleEffect | src/app/api/knowledge/route.ts:315-326 | the delete removes exactly the rows with the title and leaves the rest unchanged. The reported count plus the rows left equals the old size. Deleting again removes nothing |
| KnowledgeStore.ListingRows | src/app/api/knowledge/route.ts:273 | the cleanup's row snapshot holds exactly the table's rows and ids |
| KnowledgeStore.Store.EnsureSeeds | src/app/api/knowledge/route.ts:102-137 | `ensureTable` leaves the table seeded as `WithSeeds` specifies |
| KnowledgeStore.Store.AddAbsent | src/app/api/knowledge/route.ts:120-137 | the seeding loop inserts each record only when its id is absent |
| KnowledgeStore.Store.Insert | src/app/api/knowledge/route.ts:167-205 | an existing id leaves the table unchanged and reports "Already exists". A new id stores the record and increments its parent's counter |
| KnowledgeStore.Store.Post | src/app/api/knowledge/route.ts:158-212 | `POST` seeds the table, then inserts exactly when the id is absent from the seeded table |
| KnowledgeStore.Store.DeleteByTitle | src/app/api/knowledge/route.ts:315-326 | the table loses exactly the rows with the title, and the count is their number |
| KnowledgeStore.Store.SelectRows | src/app/api/knowledge/route.ts:273 | the query returns every row once |
| KnowledgeStore.Store.CleanOrphans | src/app/api/knowledge/route.ts:270-312 | the surviving ids are exactly the connected ids, and the survivors are unchanged. `deletedIds` names exactly the removed ids, each once |
| KnowledgeStore.Store.Delete | src/app/api/knowledge/route.ts:263-332 | after seeding, the handler picks the orphan cleanup when `cleanOrphans` is "true", else the title delete when the title is truthy, else the 400 answer with the table untouched. After a cleanup the surviving rows are unchanged, and `deletedIds` has no repeats, so `deletedCount` is the number of rows removed |
| Generate.StripJsonFences | src/app/api/generate/route.ts:101 | removing every case-insensitive ```` ```json ```` fence, with an optional newline, never lengthens the reply. `JsonFenceLength` and `StripPlainPrefix` state what each match covers and what passes through |
| Generate.JsonFenceLength | src/app/api/generate/route.ts:101 | a match of ```` /```json\n?/i ```` covers 7 or 8 characters, or none |
| Generate.StripFences | src/app/api/generate/route.ts:102 | removing every ```` ``` ```` fence, with an optional newline, never lengthens the reply. `StripFencesNoFence` states that no fence survives |
| Generate.FenceLength | src/app/api/generate/route.ts:102 | a match of ```` /```\n?/ ```` covers 3 or 4 characters, or none |
| Generate.StripFencesNoFence | src/app/api/generate/route.ts:102 | removing fences left to right leaves no three backticks in a row |
| Generate.StripPlainPrefix | src/app/api/generate/route.ts:100-102 | text without backticks passes through both fence passes unchanged |
| Generate.Trim | src/app/api/generate/route.ts:103 | `trim` drops the leading and then the trailing whitespace. `TrimSplits` states that the result is the input with only whitespace removed around it, and `TrimKeepsTrimmed` that trimming is idempotent |
| Generate.TrimStart | src/app/api/generate/route.ts:103 | the result is a suffix of the input, what was dropped is all whitespace, and the result does not start with whitespace |
| Generate.TrimEnd | src/app/api/generate/route.ts:103 | the result is a prefix of the input, what was dropped is all whitespace, and the result does not end with whitespace |
| Generate.TrimSplits | src/app/api/generate/route.ts:103 | `trim` returns a slice of the input with only whitespace around it, and the slice neither starts nor ends with whitespace |
| Generate.TrimKeepsTrimmed | src/app/api/generate/route.ts:103 | text without surrounding whitespace is its own trim |
| Generate.IndexOf | src/app/api/generate/route.ts:106 | the first occurrence of the character, and none exactly when it does not occur |
| Generate.LastIndexOf | src/app/api/generate/route.ts:106 | the last occurrence of the character, and none exactly when it does not occur |
| Generate.JsonSpan | src/app/api/generate/route.ts:106-109 | the greedy `{…}` match replaces the reply when it exists. `JsonSpanBounds` states that it is the span from the first `{` to the last `}` after it, and otherwise the reply is unchanged |
| Generate.JsonSpanBounds | src/app/api/generate/route.ts:106-109 | when some `}` follows a `{`, the reply becomes the span from the first `{` to the last `}`. Otherwise it is unchanged |
| Generate.ReplyText | src/app/api/generate/route.ts:94 | the reply handed to cleaning is never empty |
| Generate.CleanReply | src/app/api/generate/route.ts:100-109 | the reply is cleaned by removing the json fences, then the plain fences, then trimming, then keeping the span of the outermost object. Its properties are stated by `CleanReplyHasNoFence` and `FencedReplyRoundTrip` |
| Generate.CleanReplyHasNoFence | src/app/api/generate/route.ts:100-109 | the text that reaches `JSON.parse` never contains a code fence |
| Generate.FencedReplyRoundTrip | src/app/api/generate/route.ts:100-109 | a ```` ```json ```` code block around an object literal without backticks cleans back to exactly that literal |
| Generate.Decimal | src/app/api/generate/route.ts:25 | the rendering of `Date.now()` in the id is a non-empty string of decimal digits. `DecimalRoundTrip` states that it reads back as the same number |
| Generate.DecimalRoundTrip | src/app/api/generate/route.ts:25 | the decimal rendering of `Date.now()` in the id reads back as the same number |
| Generate.Derive | src/app/api/generate/route.ts:9-147 | the handler answers with the fallback child for a missing or empty log, otherwise with the child built from the parsed reply or the parse error. Its properties are stated by `DerivedIsChild`, `EmptyLogFallback` and `ParsedChild` |
| Generate.DerivedIsChild | src/app/api/generate/route.ts:22-128 | every derived record links to the original's id, sits one generation lower, and keeps the category. Its counters are zero, its id starts with "gen-", and its time is the given one |
| Generate.EmptyLogFallback | src/app/api/generate/route.ts:22-37 | a missing or empty chat log always gives the fixed fallback child with an empty log, whatever the model says |
| Generate.ParsedChild | src/app/api/generate/route.ts:94-140 | with a chat log, the answer is the parse error exactly when `JSON.parse` throws or yields `null`. Otherwise the child keeps the log, takes the parsed title and description (each replaced by its default when falsy), and carries the two random suffixes |
| TreeView.Filtered | src/app/tree/page.tsx:151-154 | "all" shows every record, and a category shows exactly the records of that category |
| TreeView.OfCategory | src/app/tree/page.tsx:151-154 | the filter keeps exactly the records of the selected category |
| TreeView.OfCategoryAppend | src/app/tree/page.tsx:153 | filtering works record by record and keeps the order |
| TreeView.OfCategoryIdempotent | src/app/tree/page.tsx:151-154 | filtering the filtered records changes nothing |
| TreeView.Nodes | src/app/tree/page.tsx:169-178 | there is one node per record, in the records' order |
| TreeView.NodesShape | src/app/tree/page.tsx:169-178 | each node carries its record's id and the record. Exactly the selected record's node is marked, and no node is marked without a selection |
| TreeView.EdgesFromMeaning | src/app/tree/page.tsx:181-190 | there is an edge exactly for each record whose parent link is truthy and names a record in view. It runs from that parent to the record |
| TreeView.EdgesStayInView | src/app/tree/page.tsx:165-190 | every edge joins two nodes of the view, its source is non-empty, and its id is source, "-", target |
| TreeView.Linking | src/app/tree/page.tsx:181-182 | the filter keeps exactly the records whose parent link is truthy and names a record in view |
| TreeView.Edges | src/app/tree/page.tsx:165-190 | there are never more edges than records, and every edge joins two records in view |
| TreeView.EdgesMapLinking | src/app/tree/page.tsx:181-190 | the edges are the linking records mapped one to one in order: the i-th edge is the edge of the i-th record whose parent is in view, so each such record yields exactly one edge |
| TreeView.EdgeTargetsDistinct | src/app/tree/page.tsx:165-190 | when record ids are unique, no two edges share a target, so every record has at most one incoming edge |
| TreeView.Layout | src/app/tree/page.tsx:107-116 | each node moves to the top-left corner of its 180 × 70 box around the centre dagre computed |
| TreeView.LayoutKeepsShape | src/app/tree/page.tsx:88-119 | layout returns the edges unchanged and the same nodes in the same order, differing only in position |
| TreeView.Rebuild | src/app/tree/page.tsx:162-199 | the node-and-edge effect runs over the filtered records and skips when there are none. Its outcome is stated by `RebuildOutcome` |
| TreeView.RebuildOutcome | src/app/tree/page.tsx:162-199 | when the filter leaves nothing in view, the current nodes and edges stay as they were. Otherwise the i-th node is the i-th filtered record's node placed by the layout, and the edges are exactly the edges of the filtered records |
| TreeView.Refresh | src/app/tree/page.tsx:203-213 | every node's selection mark is recomputed and nothing else in it changes |
| TreeView.RefreshAgreesWithRebuild | src/app/tree/page.tsx:162-213 | refreshing a freshly rebuilt view with the same selection changes nothing, and refreshing is idempotent |
| TreeView.RefreshChangesOnlyMarks | src/app/tree/page.tsx:203-213 | a change of selection changes exactly the nodes of the old and the new selected record |
| HistoryView.ListUrl | src/app/history/page.tsx:23-26 | "all" fetches the unfiltered list, and a category fetches `?category=` with its tag |
| HistoryView.ListUrlInjective | src/app/history/page.tsx:23-26 | distinct selections fetch distinct URLs |
| HistoryView.ListAfterFetch | src/app/history/page.tsx:22-32 | `fetchKnowledge` sets the list from the response, with `[]` for an absent field, and keeps it when the fetch throws. Its cases are stated by `ListAfterFetchCases` |
| HistoryView.ListAfterFetchCases | src/app/history/page.tsx:22-32 | a fetch that throws keeps the list shown. A completed fetch replaces it, with `[]` when the field is absent |
| HistoryView.ShownGenealogy | src/app/history/page.tsx:40-50 | `fetchGenealogy` shows the returned genealogy, with `[]` for an absent field, and shows the clicked record alone when the fetch throws. Its cases are stated by `ShownGenealogyCases` |
| HistoryView.ShownGenealogyCases | src/app/history/page.tsx:40-50 | the clicked record is shown alone exactly when the fetch threw or the route returned just it. Nothing is shown exactly when the field was absent or empty |
| HistoryView.OfGeneration | src/app/history/page.tsx:53-58 | a generation's group holds exactly the records of that generation |
| HistoryView.GroupByGeneration | src/app/history/page.tsx:53-58 | the reduce keys each generation of the list, and only those, to its records in list order. It also yields `Object.keys` of the result without repeats |
| HistoryView.GroupStep | src/app/history/page.tsx:54-57 | one reduce step turns the grouping of a list into the grouping of the list extended by one record |
| HistoryView.GroupMembership | src/app/history/page.tsx:53-58 | each record lands in exactly the group of its own generation, and no group is empty |
| HistoryView.SizeSumCounts | src/app/history/page.tsx:53-62 | over distinct generations, the group sizes add up to the number of records in those generations |
| HistoryView.GroupSizesSum | src/app/history/page.tsx:53-62 | over the sorted keys, the group sizes add up to the length of the list, so every record is rendered once |
| HistoryView.SortAscending | src/app/history/page.tsx:62 | the sort returns an ascending permutation of the keys |
| HistoryView.GenerationKeys | src/app/history/page.tsx:60-62 | the rendered generations are strictly ascending and are exactly the generations in the list, each with a non-empty group |
| SeedPicker.Matching | src/data/seedKnowledge.ts:23 | the filter keeps exactly the seeds whose category tag equals the request |
| SeedPicker.UnnarrowedTakesAll | src/data/seedKnowledge.ts:20-24 | an absent, empty or "random" category makes every seed a candidate |
| SeedPicker.NarrowedCandidates | src/data/seedKnowledge.ts:22-28 | another category that some seed has keeps exactly that category's seeds. One that no seed has falls back to every seed |
| SeedPicker.Candidates | src/data/seedKnowledge.ts:20-28 | the candidates are seeds, and there are candidates exactly when there are seeds |
| SeedPicker.IndexInRange | src/data/seedKnowledge.ts:30 | for r in [0, 1) and a non-empty list, `floor(r·len)` is a valid index |
| SeedPicker.IndexReachesAll | src/data/seedKnowledge.ts:30 | every index is drawn by some r in [0, 1) |
| SeedPicker.Pick | src/data/seedKnowledge.ts:30 | the draw returns a candidate, and returns `undefined` exactly when there are no candidates |
| SeedPicker.RandomKnowledge | src/data/seedKnowledge.ts:4-31 | `getRandomKnowledge` throws on a reply that is not ok and otherwise draws from the candidates. Its outcomes are stated by `RandomKnowledgeOutcome` and `EveryCandidateDrawable` |
| SeedPicker.RandomKnowledgeOutcome | src/data/seedKnowledge.ts:4-31 | a reply that is not ok throws "Failed to fetch seed knowledge". An ok reply returns a candidate seed, and `undefined` only when there are no seeds |
| SeedPicker.EveryCandidateDrawable | src/data/seedKnowledge.ts:26-30 | every candidate is returned for some draw |
| SeedPicker.AllSeeds | src/data/seedKnowledge.ts:34-47 | `getAllSeeds` throws on a reply that is not ok and otherwise returns the seeds. Its outcomes are stated by `AllSeedsOutcome` |
| SeedPicker.AllSeedsOutcome | src/data/seedKnowledge.ts:34-47 | `getAllSeeds` throws exactly on a reply that is not ok, and otherwise returns the seed list unchanged |

## Left out

- Database, Liveblocks and `fetch` I/O, HTTP status codes other than the modelled 400s, and console logging are left out. Each handler works on a snapshot or a reply passed in. The 500 answers for thrown errors are not modelled, except the generate route's parse failure.
- `getAllKnowledge`'s own fallbacks are left out: a missing room yields `[]`, as does unparsable room data. The resolver takes the snapshot as given.
- Genealogy.Get: the ancestor walk has no visited set and never stops on a parent cycle. The handler requires a lookup bound within which the walk stops, and it says nothing about inputs whose parent chain loops.
- Genealogy.CollectDescendants does not restate the order of the breadth-first queue. It proves membership, the absence of duplicates, parents listed before children, and closure under child links.
- `childrenCount` accuracy is not claimed. The counter is only incremented, and nothing ever decrements it when rows are deleted.
- The `GET /api/knowledge` listing (by id or category, ordered by `created_at`) and `rowToKnowledge` are left out. They are SQL field renaming and ordering.
- KnowledgeStore.Store.Insert: `knowledge.timesShown || 0` and `knowledge.childrenCount || 0` are the identity on the integers the record type declares. A body that omits them cannot be represented.
- The store's SQL `DEFAULT NOW()` and other column defaults are not modelled. Rows are whole records.
- The split between the Liveblocks store, which the genealogy route reads, and the Neon table, which the knowledge route writes, is not modelled. Each is its own snapshot.
- Generate: the prompt text, the model call and the message-to-text formatting of the chat context are left out. `JSON.parse` is an abstract partial function, and a parsed title or description counts only when it is a string. A truthy non-string value would be copied as is by the source, and the model does not capture that case.
- Generate: `[\s\S]` in `/\{[\s\S]*\}/` matches any character, and the model takes that reading. `IsJsSpace` lists the Unicode `Zs` characters one by one. No other Unicode property is modelled.
- TreeView.Layout: dagre's ranking and positioning are left out, and the centres are a parameter. Positions are exact reals rather than floating point.
- The `onClick` handlers in node data and all rendering (class names, emoji, labels) are left out.
- SeedPicker.IndexInRange: `Math.random() * length` is taken as an exact real product. Floating-point rounding of that product is not modelled.
- The seeds route (a SQL wrapper), the chat route and the chat page are left out, as are the presentation components.
- `NEXT_PUBLIC_BASE_URL` and the base-URL default are left out. The seeds reply is a parameter.
