# VAST 2021 graph explorer: a Dafny model of its graph and text logic

The repository draws interactive graphs with d3. One graph links
organisations and people, read from a Cypher export. Another links news
sources that cite each other, built from a Kùzu database of news articles.
Around the d3 layout sits a set of small, sequential pieces of graph and
text logic. This project models those pieces and proves what they
guarantee:

- `ClientFilter` (client_filter.dfy). The browser-side filters of the
  organisation/person view: an organisation-neighbourhood step, a
  minimum-weight step, a person step, then pruning of nodes that are no
  longer endpoints. Also the e-mail view's person and weight filters.
- `Js` (js.dfy). The JavaScript values the renderers see: truthiness,
  duck-typed link endpoints (an id, or the node object d3 put in its
  place), and the two ways the renderers key an endpoint.
- `Render` (render.dfy). The data side of the task3 renderer:
  - which nodes are drawn, and the degree map;
  - the fresh simulation copies;
  - node colour and label;
  - the link tooltip and the node tooltip;
  - clamping of drawn coordinates to the canvas.
- `GraphView` (graph_view.dfy). The data side of the React graph view:
  - index-based relation resolution;
  - tooltip keys;
  - which nodes are isolated, and the ring slots they are pinned to;
  - its drag release.
- `Drag` (drag.dfy). The drag handlers of both renderers as one state
  machine. The only difference between them is the release policy.
- `CypherImport` (cypher_import.dfy). The line-oriented Cypher reader of
  the task3 server, including its three regular expressions. Also the
  server's organisation filter.
- `SourceGraph` (source_graph.dfy). The backend's `get_compatible_rels`,
  and `get_data`:
  - degree accumulation;
  - node list construction in first-insertion order;
  - id→index remapping of the relations;
  - how the React view resolves the response.
- `NewsArticle` (news_article.dfy). The news-article header parser, in
  both copies the repository keeps. In app/utils it is the working parser.
  In src it fails on its first line because it reads a pattern constant
  that its globals module does not define.
- `References` (references.dfy). The rule that creates article→article
  reference edges: strictly above the similarity threshold, strictly later
  publish date, in row-major visiting order. A missing date raises.
- `Common`, `Text` and `OrderedDict` are shared helpers:
  - options and results, and order-preserving subsequences (`Subseq`);
  - calendar dates and their order;
  - Python's `strip`, `int()` on a file stem, and line splitting;
  - a Python dict with insertion order.

Each filter is stated two ways. The first is as an order-preserving
subsequence of its input. The second is through its multiset: an element
is kept with its full multiplicity exactly when it passes the test. The
imperative loops are methods: degree maps, ring slots, the backend's
passes, and the reference selection. Each method is proved equal to a
recursive reference definition, and the properties are proved of that
definition.

Some of the code behaves in ways worth stating; the model follows the
code:

- With no filter active, `applyFilters` still drops every isolated node,
  because the final pruning step always runs (`ClientFilter.NoFilterKeepsLinksDropsIsolated`).
- An organisation with no incident link yields an empty graph, not an
  unfiltered one (`ClientFilter.UnlinkedOrgGivesEmptyGraph`).
- Re-applying the same filters to an already filtered link list can remove
  more links, because the neighbourhood is recomputed from the reduced
  list (`ClientFilter.RefilteringNotIdempotent`).
- A `PUBLISHED:` value that dateutil cannot read is copied to `author`
  only when `author` is empty. The initial `"NULL"` is not empty, but a
  blank `AUTHOR:` line earlier in the header makes it so
  (`NewsArticle.PublishedFallback`).
- The src copy of the parser raises on the first line it reads, so it
  returns only for an empty file (`NewsArticle.SrcOnlyReadsEmptyFiles`).

## Model

| member | source | states |
|---|---|---|
| ClientFilter.Selection | task3/frontend/js/app.js:89 | an empty dropdown value becomes null (no filter); any other value is kept as the selection |
| ClientFilter.MinWeightOf | task3/frontend/js/app.js:110 | `parseInt(...) \|\| 1`: NaN and 0 fall back to 1; any other parsed value is kept; the result is never 0 |
| ClientFilter.KeepLinks | task3/frontend/js/app.js:127 | `links.filter`: an order-preserving subsequence holding each passing link with its full multiplicity and no failing link |
| ClientFilter.KeepNodes | task3/frontend/js/app.js:139 | `nodes.filter(n => ids.has(n.id))`: order-preserving, keeps exactly the nodes whose id is in the set |
| ClientFilter.Endpoints | task3/frontend/js/app.js:138 | the id set of the pruning step is exactly the ids that are the source or target of some link |
| ClientFilter.Neighbourhood | task3/frontend/js/app.js:120-125 | `connected` holds exactly the endpoints of links incident to the organisation |
| ClientFilter.OrgStep | task3/frontend/js/app.js:119-128 | with an organisation selected, keeps exactly the links with both ends in its neighbourhood (neighbour–neighbour links included) and the nodes in it; without one, keeps everything |
| ClientFilter.WeightStep | task3/frontend/js/app.js:130-132 | the weight floor applies only when minWeight > 1, and then keeps exactly the links with weight >= minWeight |
| ClientFilter.PersonStep | task3/frontend/js/app.js:134-136 | with a person selected, keeps exactly the links that have the person as source or target |
| ClientFilter.ApplyFiltersOrderPreserving | task3/frontend/js/app.js:115-141 | the filtered nodes and links are order-preserving subsequences of the stored graph |
| ClientFilter.ApplyFiltersLinks | task3/frontend/js/app.js:119-136 | a link survives `applyFilters`, with full multiplicity, exactly when it passes all three steps |
| ClientFilter.EndpointsWithinNeighbourhood | task3/frontend/js/app.js:119-128 | every endpoint of a link kept by the organisation step lies in the organisation's neighbourhood |
| ClientFilter.ApplyFiltersNodes | task3/frontend/js/app.js:138-139 | a node survives exactly when its id is an endpoint of a surviving link, so no isolated node is output |
| ClientFilter.ApplyEmailFilters | task3/frontend/js/app.js:164-180 | keeps exactly the input-order links that touch the person (if set) and meet the floor (if > 1), and exactly the nodes that are their endpoints |
| ClientFilter.ApplyOrgClicked | task3/frontend/js/app.js:88-91 | the stored full graph is unchanged; the organisation selection becomes the chosen value and nothing else in the filters changes; the shown graph is `applyFilters` of the stored one: each link with its full multiplicity exactly when it passes the new filters, each node exactly when it is an endpoint of a shown link |
| ClientFilter.ApplyPersonClicked | task3/frontend/js/app.js:108-112 | the stored graph and the organisation selection are unchanged; the person becomes the chosen value and the floor the parsed weight (1 when it is 0 or absent); the shown graph is `applyFilters` of the stored one, link and node multiplicities as for the organisation click |
| ClientFilter.KeepLinksCommute | task3/frontend/js/app.js:168-174 | any two link filters give the same result in either order |
| ClientFilter.EmailFiltersCommute | task3/frontend/js/app.js:168-174 | the person filter and the weight filter of `applyEmailFilters` commute |
| ClientFilter.UnlinkedOrgGivesEmptyGraph | task3/frontend/js/app.js:119-128 | an organisation with no incident link yields the empty graph |
| ClientFilter.NoFilterKeepsLinksDropsIsolated | task3/frontend/js/app.js:138-139 | with no filter active, all links are kept, and exactly the nodes that are endpoints of some link remain |
| ClientFilter.WeightFloorExample | task3/frontend/js/app.js:130-139 | a concrete graph: a floor of 2 removes the weight-1 link and then its now unlinked endpoint |
| ClientFilter.RefilteringNotIdempotent | task3/frontend/js/app.js:119-132 | a concrete link list on which filtering the filtered list again removes another link |
| Js.Get | task3/frontend/js/visualization.js:43 | reading a missing property yields `undefined`; reading a present one yields the value stored under it |
| Js.Set | task3/frontend/js/visualization.js:66 | assigning a property changes only that property; a new (non-integer-like) key is appended to the key order, an existing key keeps its place |
| Js.EndpointId | task3/frontend/js/visualization.js:42-43 | an endpoint d3 has resolved gives its node's `id` property, an unresolved one its raw id |
| Js.ResolvingKeepsEndpointId | task3/frontend/js/visualization.js:56-57 | replacing a raw id by the node carrying that id leaves the endpoint key unchanged |
| Js.ObjectKey | app/frontend/src/components/Graph.js:127-128 | `e.id \|\| e` is the id exactly when the id is truthy, and otherwise the node object itself |
| Js.KeyingsAgreeIffTruthy | app/frontend/src/components/Graph.js:127 | the React key and the task3 key of a node endpoint agree exactly when its id is truthy |
| Render.LinkedIds | task3/frontend/js/visualization.js:41-45 | `linkedNodeIds` is exactly the set of endpoint keys of the links |
| Render.DrawnNodes | task3/frontend/js/visualization.js:47 | the drawn nodes are the order-preserving subsequence of nodes whose id is some link's endpoint key |
| Render.AllLinkedAllDrawn | task3/frontend/js/visualization.js:47 | when every node is linked, all nodes are drawn, in order |
| Render.HandshakeBag | task3/frontend/js/visualization.js:55-61 | the endpoint multiset has twice as many elements as there are links, and its support is the linked ids |
| Render.DegreeMap | task3/frontend/js/visualization.js:55-61 | `nodeDegree` has an entry exactly for the linked ids, each equal to how many link ends carry that id (a self-loop counts twice) |
| Render.PrepareNode | task3/frontend/js/visualization.js:64-67 | the prepared copy has x, y, vx and vy null |
| Render.PrepareNodeKeeps | task3/frontend/js/visualization.js:64-67 | every other property of the prepared copy is the original's |
| Render.PrepareNodeKeys | task3/frontend/js/visualization.js:64-67 | preparing a node removes no property |
| Render.Copy | task3/frontend/js/visualization.js:52-67 | a node copy has x, y, vx and vy null, every other property equal to the original's (id and label included), and no property removed |
| Render.CopyAll | task3/frontend/js/visualization.js:53 | the copies are one per drawn node, position by position, each such a reset copy of its node |
| Render.PrepareNodeIsCopy | task3/frontend/js/visualization.js:64-67 | preparing a node yields a reset copy of it: positions and velocities null, every other property kept, no property removed |
| Render.RenderGraph | task3/frontend/js/visualization.js:41-67 | the simulation gets, position by position, the prepared copy of each drawn node (x, y, vx, vy null, every other property kept), all links, and the degree map |
| Render.NodeStyle | task3/frontend/js/visualization.js:100 | the fill is the ORG colour exactly for ORG nodes; label text is non-empty only for ORG nodes, and then it is the id |
| Render.Bullets | task3/frontend/js/visualization.js:84 | one bulleted line per subject, in order |
| Render.LinkTooltip | task3/frontend/js/visualization.js:77-85 | the link tooltip shows its endpoint keys and weight; it has a subject section exactly when subjects exist and are non-empty, holding the first min(n, 5) in order |
| Render.IncidentLinks | task3/frontend/js/visualization.js:102-106 | `connectedLinks` is the order-preserving subsequence of links with the node at either end |
| Render.CandidateIsOther | task3/frontend/js/visualization.js:113-130 | a link yields an organisation line exactly when its other endpoint is an ORG not yet seen |
| Render.OrgLinesSound | task3/frontend/js/visualization.js:111-131 | organisation lines are distinct, each names an ORG neighbour reached by some incident link, and none was already seen |
| Render.OrgLinesWeights | task3/frontend/js/visualization.js:118-127 | each organisation line carries the weight of the first incident link to that organisation |
| Render.OrgLinesComplete | task3/frontend/js/visualization.js:111-131 | every ORG neighbour not already seen gets a line |
| Render.NodeTooltip | task3/frontend/js/visualization.js:108-141 | the organisation section appears exactly for a PERSON node in a graph with some ORG; otherwise there is one connection line per incident link, naming the other endpoint and the weight |
| Render.PersonTooltipOrgLines | task3/frontend/js/visualization.js:111-133 | a PERSON's organisation lines list each ORG neighbour exactly once, with the weight of its first incident link, and nothing else |
| Render.Clamp | task3/frontend/js/visualization.js:181 | `max(0, min(bound, v))` lies in [0, bound], is v inside the range and the nearer bound outside it |
| Render.CanvasExtent | task3/frontend/js/visualization.js:9-10 | the canvas size is the container size when non-zero and exactly the fallback when zero, so it is always positive |
| Render.ClampedOnCanvas | task3/frontend/js/visualization.js:173-187 | every drawn coordinate lies on the canvas, and clamping twice changes nothing |
| Render.FilteredGraphFullyDrawn | task3/frontend/js/app.js:138-140 | the renderer's own unlinked-node filter keeps every node `applyFilters` hands it |
| Drag.Step | task3/frontend/js/visualization.js:189-204 | start pins at the current position and reheats to 0.3 if no other drag is active; move pins to the pointer; release re-pins or unpins by policy and cools to 0 if no other drag is active; a tick holds a pinned axis at its pin |
| Drag.MidwayKeepsPin | task3/frontend/js/visualization.js:195-198 | while a gesture is in progress, the node stays pinned, the reheat target is unchanged, and after a tick it sits at its pin |
| Drag.RunSplit | task3/frontend/js/visualization.js:189-204 | running two event sequences in turn is running their concatenation |
| Drag.GestureOutcome | task3/frontend/js/visualization.js:200-204 | after a full gesture, the task3 policy leaves the node pinned where it is and the React policy leaves it free; the last release with no other drag cools to 0 |
| Drag.ReheatedWhileDragging | app/frontend/src/components/Graph.js:167-175 | after a first start and any moves and ticks, the target is 0.3 and the node is pinned |
| GraphView.ResolveRelations | app/frontend/src/components/Graph.js:20-24 | each relation becomes a link with source nodes[from_idx], target nodes[to_idx] and its other fields copied; the first out-of-range relation is reported |
| GraphView.WithoutPositional | app/frontend/src/components/Graph.js:102 | keeps, in order, exactly the keys other than x, y, vx, vy, fx, fy and index |
| GraphView.DisplayKeys | app/frontend/src/components/Graph.js:101-103 | no keys without nodes; otherwise the first node's keys minus the positional ones, in order |
| GraphView.NodeTooltip | app/frontend/src/components/Graph.js:107-109 | one line per display key, in order, with undefined for a key the node lacks and the node's stored value for a key it has |
| GraphView.TooltipShowsNodeValue | app/frontend/src/components/Graph.js:105-109 | for a node with distinct keys, each tooltip line shows exactly the node's value under that key |
| GraphView.FirstNodeTooltip | app/frontend/src/components/Graph.js:101-109 | the first node's tooltip lists exactly its non-positional properties with their values |
| GraphView.LinkKeysAsWritten | app/frontend/src/components/Graph.js:125-129 | the key set holds exactly the `id \|\| obj` keys of the link endpoints |
| GraphView.IsolatedAsWritten | app/frontend/src/components/Graph.js:131 | the isolated list as written: the order-preserving subsequence of nodes whose id is not among those keys |
| GraphView.FalsyIdAlwaysIsolated | app/frontend/src/components/Graph.js:127-131 | a node whose id is falsy (0 or "") is always in the isolated list as written, linked or not |
| GraphView.IdZeroMisclassified | app/frontend/src/components/Graph.js:125-131 | two linked nodes with ids 0 and 1: as written, node 0 is isolated; corrected, none is |
| GraphView.LinkedIds | app/frontend/src/components/Graph.js:125-129 | the corrected key set holds exactly the endpoint ids |
| GraphView.Isolated | app/frontend/src/components/Graph.js:131 | corrected isolation: the order-preserving subsequence of nodes that no link has as an endpoint |
| GraphView.IsolatedIff | app/frontend/src/components/Graph.js:131 | a node is isolated exactly when no link has its id at either end |
| GraphView.IsolatedAgreeOnTruthyIds | app/frontend/src/components/Graph.js:127-131 | when every id is truthy, the as-written and the corrected isolation agree |
| GraphView.RingSlots | app/frontend/src/components/Graph.js:136-140 | flagged positions get slots numbered 0, 1, … in list order, each of n = the number flagged; others get none |
| GraphView.IsolatedFlags | app/frontend/src/components/Graph.js:131 | the flag at each position is set exactly when `linkedNodeIds.has(n.id)` is false for that node, keyed as written |
| GraphView.IsolatedFlagsCount | app/frontend/src/components/Graph.js:131-137 | the number of flags set is `isolated.length`, the length of the as-written isolated list |
| GraphView.AssignPins | app/frontend/src/components/Graph.js:125-140 | as written: exactly the nodes of the as-written isolated list get a pin; the i-th of them gets slot i of n = `isolated.length`, so slots are distinct |
| GraphView.CorrectedFlagsCount | app/frontend/src/components/Graph.js:131-137 | with corrected isolation, the number of flags set is the length of the corrected isolated list |
| GraphView.AssignPinsCorrected | app/frontend/src/components/Graph.js:125-140 | corrected: exactly the nodes no link ends at get a pin; the i-th of them gets slot i of n, so slots are distinct |
| GraphView.PinFlagsAgreeOnTruthyIds | app/frontend/src/components/Graph.js:125-140 | when every id is truthy, the as-written and the corrected pin set-ups flag the same nodes |
| GraphView.IdZeroPinned | app/frontend/src/components/Graph.js:125-140 | sources 0 and 1 with 0 citing 1: as written, source 0 is flagged and the ring has one slot; corrected, nothing is flagged |
| GraphView.DragFreesPinnedNode | app/frontend/src/components/Graph.js:165-181 | after any drag, a node pinned at setup is free |
| CypherImport.ClassRun | task3/app.py:21 | a greedy class run stops at the first character outside the class, or at the end |
| CypherImport.ClassRunInside | task3/app.py:21 | every character a greedy class run covers is inside the class |
| CypherImport.NodeAtDefinition | task3/app.py:21 | the node pattern reads label and name from a `(:LABEL {name: "X"})` definition, whatever follows |
| CypherImport.NameAtLiteral | task3/app.py:28 | the name pattern reads the name from a `{name: "X"}` literal and resumes after it |
| CypherImport.SearchNodeAfter | task3/app.py:21 | `re.search` finds a node definition after any text without `(:`, with its label and name |
| CypherImport.NodeLineDefines | task3/app.py:20-24 | a line `CREATE (:LABEL {name: "X"})...` records X with LABEL in the node table |
| CypherImport.FindAllNames | task3/app.py:28 | every name found is non-empty and quote-free |
| CypherImport.FindAllNamesLiteral | task3/app.py:28 | `findall` returns a leading `{name: "X"}` literal's X, followed by the names after it |
| CypherImport.FindAllNamesNone | task3/app.py:28 | text without `{name:` yields no name |
| CypherImport.FindAllNamesSkip | task3/app.py:28 | text without `{name:` before a name literal contributes no name |
| CypherImport.MatchLineNames | task3/app.py:28 | a line with exactly two `{name: "X"}` literals, and no other `{name:`, yields their two names in order |
| CypherImport.MatchLineArms | task3/app.py:27-30 | such a `MATCH` line arms the pending pair with the first name as source and the second as target |
| CypherImport.WeightAtLiteral | task3/app.py:36 | the weight pattern reads `weight:`, any spacing and a digit run back as the run's value |
| CypherImport.SearchWeightAfter | task3/app.py:36 | `re.search` takes the first `weight:` of a line and reads its digit run |
| CypherImport.SearchWeightNone | task3/app.py:36 | a line without `weight:` has no weight match |
| CypherImport.EdgeWeightOf | task3/app.py:36-37 | a relationship line carrying `weight: N` (its first `weight:`) gives an edge of weight N |
| CypherImport.EdgeWeightDefault | task3/app.py:36-37 | a relationship line without `weight:` gives an edge of weight 1 |
| CypherImport.Step | task3/app.py:19-39 | a line appends at most one edge and never removes one |
| CypherImport.ReadLineKeepsUnique | task3/app.py:24 | node names stay unique keys after any line |
| CypherImport.NodeLineEffect | task3/app.py:20-24 | a node line records or overwrites exactly that name's label and leaves edges and the pending pair alone |
| CypherImport.MatchLineEffect | task3/app.py:27-32 | a `MATCH` line arms the pending pair exactly when it names two nodes, with those names, and clears it otherwise |
| CypherImport.RelLineEffect | task3/app.py:35-39 | a relationship line with a pair armed appends one edge from it, weighted, and clears the pair |
| CypherImport.OtherLineEffect | task3/app.py:19-39 | every other line changes nothing |
| CypherImport.ReadLineKeepsPendingNamed | task3/app.py:29-32 | the pending pair, when set, always holds two non-empty names |
| CypherImport.StripFirst | task3/app.py:17 | reading a line is reading its stripped form |
| CypherImport.EdgesIgnoreNodeTable | task3/app.py:35-38 | edges do not depend on the node table: they are not checked against it |
| CypherImport.ReadLinesSplit | task3/app.py:16-39 | reading two chunks in turn is reading their concatenation |
| CypherImport.EdgesAppendOnly | task3/app.py:38 | edges are only ever appended, so they keep file order |
| CypherImport.AtMostOneEdgePerMatch | task3/app.py:27-39 | edges added never exceed the number of `MATCH` lines that armed a pair |
| CypherImport.ReadLinesKeepsUnique | task3/app.py:24 | node names stay unique over a whole file |
| CypherImport.ParseCypherShape | task3/app.py:41-43 | the output node ids are distinct, every link joins two non-empty names, and links are at most the arming lines |
| CypherImport.ReadLinesKeepsEdgesNamed | task3/app.py:27-39 | an edge is only emitted from a pair captured by a `MATCH` line, so every edge joins non-empty names |
| CypherImport.OrgFilter | task3/app.py:73-88 | keeps exactly the links with the organisation at an end, and the nodes that are the organisation or an end of such a link, in order |
| CypherImport.ServerLinksWithinClientOrgStep | task3/app.py:73-88 | every link the server filter keeps is also kept by the browser's organisation step |
| CypherImport.ClientOrgStepAfterServer | task3/app.py:73-88 | the browser's organisation step keeps every link of a server-filtered graph |
| SourceGraph.CompatibleRels | app/backend/app.py:65-73 | in schema order, exactly the relations whose `from` and `to` are both selected |
| SourceGraph.CompatibleRelsMonotone | app/backend/app.py:70-72 | selecting more node labels never removes a compatible relation |
| SourceGraph.ShippedSchema | app/backend/app.py:51-57 | the declared `ReferencesSource` relation is offered exactly when "Source" is selected |
| SourceGraph.AccumulateRows | app/backend/app.py:108-124 | after the first pass, the names are the rows' ids in first-mention order, and out/in degrees are the summed counts of each id's outgoing/incoming rows |
| SourceGraph.AddAllSources | app/backend/app.py:131-134 | the second pass adds every source, overwriting names of ids already present |
| SourceGraph.BuildNodes | app/backend/app.py:137-149 | one node per entry, in order, with in/out totals (0 when absent), diff = out − in and scores defaulting to 0; the index of each id is its first position |
| SourceGraph.RemapEdges | app/backend/app.py:151-154 | each relation keeps its count and maps its from/to ids through the index |
| SourceGraph.GetData | app/backend/app.py:87-159 | every row's ids have nodes, and the result equals the reference node list and relation list |
| SourceGraph.IndexOf | app/backend/app.py:138 | the index is the first position of the id |
| SourceGraph.IndexOfDistinct | app/backend/app.py:137-138 | with distinct keys, the index of the m-th key is m |
| SourceGraph.SourceNamesShape | app/backend/app.py:108-134 | the names are unique, cover exactly the row ids and all sources, and the row ids come first |
| SourceGraph.RowIdsHaveNodes | app/backend/app.py:111-112 | both ids of every row are keys, so the remapping never misses |
| SourceGraph.RelationsPointAtTheirSources | app/backend/app.py:151-154 | there is one relation per row, its indices are in range, `nodes[from_idx].id` and `nodes[to_idx].id` are the row's ids, and the count is kept |
| SourceGraph.NodeIdsDistinct | app/backend/app.py:137-149 | node ids are distinct |
| SourceGraph.NodesCoverSources | app/backend/app.py:130-137 | a node exists for an id exactly when it is in some row or is a source |
| SourceGraph.UncitedSourceHasZeroCounts | app/backend/app.py:143-145 | a source in no row gets both counts 0 and diff 0 |
| SourceGraph.DegreeUnmentioned | app/backend/app.py:114-115 | an id in no row has degree 0 |
| SourceGraph.CounterHoldsDegrees | app/backend/app.py:114-115 | the running counters equal the per-id degree sums |
| SourceGraph.SumDegreesTotal | app/backend/app.py:114-115 | over distinct ids covering every row end, the degrees sum to the total count |
| SourceGraph.NodeSumsAreDegreeSums | app/backend/app.py:143-144 | the node columns sum to the degree sums over the node ids |
| SourceGraph.DegreeSumsAgree | app/backend/app.py:114-144 | summed `referenced_by_count` and summed `references_to_others_count` both equal the total reference count |
| SourceGraph.ResponseKeysSorted | app/backend/app.py:139-159 | node and relation objects reach the view with their keys in the sorted order `jsonify` writes (Flask's default), so `Object.keys` lists them alphabetically |
| SourceGraph.ResolvedLinksJoin | app/frontend/src/components/Graph.js:20-24 | relations whose indices are in range resolve, each link joining the node objects at those indices |
| SourceGraph.ViewResolvesResponse | app/backend/app.py:137-159 | the React view resolves every relation of a response, and each link's ends carry the row's source ids |
| NewsArticle.AsDictColumns | app/utils/parse_news.py:7 | the entry's keys are exactly the variant's columns in order, and the id is under "id" (app) or "articleID" (src) |
| NewsArticle.FirstLabel | app/utils/parse_news.py:8 | the first alternative that is a case-insensitive prefix, or none when no label is |
| NewsArticle.TakeLine | app/utils/parse_news.py:8 | `.` stops at the first newline |
| NewsArticle.ValueStart | app/utils/parse_news.py:8 | the value starts at a non-newline character after only whitespace (`\s*` backtracking) |
| NewsArticle.MatchLabel | app/utils/parse_news.py:8 | a match names a label that prefixes the line ignoring case, with a newline-free value |
| NewsArticle.MatchHeaderLine | app/utils/parse_news.py:8 | `LABEL <sp> : <sp> value` in any letter case is matched, with that label and value |
| NewsArticle.FirstLabelUnique | app/utils/parse_news.py:8 | a line a label prefixes matches that label, since no label prefixes another |
| NewsArticle.IsoDate | app/utils/parse_news.py:28 | `%Y-%m-%d` is ten characters with dashes at 4 and 7 |
| NewsArticle.IsoDateRoundTrip | app/utils/parse_news.py:28 | the formatted date reads back as the same date |
| NewsArticle.ApplyLabel | app/utils/parse_news.py:21-37 | a labelled line never changes the id or the content |
| NewsArticle.ParseLine | app/utils/parse_news.py:10-52 | the src copy always fails; the app copy returns True exactly on a content line, and then changes nothing |
| NewsArticle.LabelledLineSetsItsField | app/utils/parse_news.py:16-38 | a labelled line returns False and sets only its own field to the stripped value; CONTENT changes nothing; a readable PUBLISHED sets the ISO date |
| NewsArticle.PublishedFallback | app/utils/parse_news.py:30-33 | an unreadable PUBLISHED value becomes the author only when the author is empty |
| NewsArticle.UnlabelledLine | app/utils/parse_news.py:39-52 | blank lines and short lines return False (a readable short line sets the date); lines of 30 or more characters return True unchanged |
| NewsArticle.Initial | app/utils/parse_news.py:57-60 | every text column starts as "NULL" |
| NewsArticle.FirstContentLine | app/utils/parse_news.py:62-66 | the first content line of the file, and no content line before it |
| NewsArticle.ScanStopsAtFirstContentLine | app/utils/parse_news.py:62-75 | header parsing stops at the first content line; nothing after it affects the header |
| NewsArticle.ScanFindsFirstContentLine | app/utils/parse_news.py:62-66 | the header loop never fails and stops exactly at the first content line |
| NewsArticle.ScanIgnoresLaterLines | app/utils/parse_news.py:66-75 | lines after the first content line do not reach the header loop |
| NewsArticle.ScanKeepsIdAndContent | app/utils/parse_news.py:60-66 | header lines never change the id or the content |
| NewsArticle.SrcOnlyReadsEmptyFiles | src/parse_news.py:35 | the src copy returns an entry exactly for a valid stem and an empty file, and raises otherwise |
| NewsArticle.AppReadsArticle | app/utils/parse_news.py:54-77 | the app copy returns exactly for a valid stem, with that id; content is "NULL" without a content line and otherwise the stripped content lines joined |
| NewsArticle.BodyContent | app/utils/parse_news.py:68-73 | the content is the stripped first line followed by every later non-blank stripped line, without separators |
| NewsArticle.JoinStrippedEnds | app/utils/parse_news.py:69-72 | the joined content neither starts nor ends with whitespace |
| NewsArticle.HeaderIgnoresBody | app/utils/parse_news.py:66-75 | the entry's header fields are those read up to and including the first content line |
| References.RowTrace | app/utils/dbop.py:125-135 | a row's chosen pairs are in that row, within range, and before the column reached |
| References.RowsTrace | app/utils/dbop.py:124-135 | the chosen pairs lie in the rows visited, and a raise is in range |
| References.EdgesOf | app/utils/dbop.py:132 | one edge per chosen pair, from article_ids[i] to article_ids[j] |
| References.SelectReferences | app/utils/dbop.py:124-135 | the loop creates exactly the reference selection's edges, in visiting order, and stops where it raises |
| References.VisitPair | app/utils/dbop.py:126-135 | one pair of the loop raises exactly when it compares a missing date; otherwise it appends the pair's edge exactly when it qualifies |
| References.RowTraceStops | app/utils/dbop.py:124-135 | once a row has raised, later columns change nothing |
| References.SelectionSound | app/utils/dbop.py:126-130 | every chosen pair qualifies (distinct, above threshold, strictly newer), and pairs are in strictly increasing row-major order, so each ordered pair appears at most once |
| References.StopIsFirstRaise | app/utils/dbop.py:124-130 | the loop raises at the first pair in row-major order that compares a missing date; with no raise, no pair does |
| References.SelectionComplete | app/utils/dbop.py:124-135 | every qualifying pair visited before the raise is chosen |
| References.SelectionExact | app/utils/dbop.py:124-135 | without a raise, a pair is chosen exactly when it qualifies |
| References.PathsGoBackInTime | app/utils/dbop.py:130 | along any path of references the dates strictly decrease, so no path returns to its start |
| References.NeverBothWays | app/utils/dbop.py:130 | i→j and j→i never both qualify |
| References.NoSelfReference | app/utils/dbop.py:126-127 | with distinct ids, no created edge goes from an article to itself |
| Common.BeforeIsStrictOrder | app/utils/dbop.py:130 | the date comparison is irreflexive, asymmetric and transitive |
| Text.Strip | task3/app.py:17 | the result is empty exactly for an all-space input, and otherwise starts and ends with a non-space |
| Text.StripKeepsMiddle | task3/app.py:17 | the result is a contiguous piece of the input with only whitespace cut on both sides |
| Text.StripStripped | task3/app.py:17 | stripping an already stripped string changes nothing |
| Text.ParseIntShowNat | app/utils/parse_news.py:60 | `int()` reads a decimal numeral back as its number |
| Text.SplitLines | app/utils/parse_news.py:62-65 | the lines are non-empty, each but the last ends in a newline, no line holds a newline before its end, and they concatenate to the text |
| OrderedDict.Get | task3/app.py:24 | lookup fails exactly for an absent key and otherwise returns a stored value |
| OrderedDict.Put | app/backend/app.py:111-112 | assignment sets the key, keeps its position or appends it, and changes no other key |
| OrderedDict.PutKeepsUnique | task3/app.py:24 | assignment keeps keys unique |

## Left out

- The d3 force simulation (its forces, alpha decay, zoom, scales) is not modelled. A `Drag.Tick` event stands for one integration step, and the reheat is only a recorded target value.
- Geometry is not modelled: node radius `2 + sqrt(deg) * 2`, the isolated-node ring coordinates (cos/sin), arc paths, and stroke widths. `GraphView.AssignPins` yields the ring slot (i of n), not the coordinates.
- The DOM, tooltip HTML and styling, Flask routes, HTTP and `fetch`, and the React/antd UI are I/O and presentation. The tooltips are modelled as line lists, not HTML.
- JavaScript's `parseInt` on the input text is a parameter of `ClientFilter.MinWeightOf` (`None` stands for NaN). Only the `|| 1` fallback is modelled.
- Js.EndpointId: a raw `null` endpoint is read as `Null`, whereas in JavaScript `typeof null === "object"` makes `link.source.id` throw a TypeError (task3/frontend/js/visualization.js:42-43, 56-57); the server only sends endpoints that are names captured from the import file, so the throwing case is not modelled.
- Js.Set: JavaScript lists integer-like keys ("0", "42") first, in ascending numeric order, before the other keys in insertion order; the model appends every new key. The renderer only assigns x, y, vx and vy, which are not integer-like.
- Render.RenderGraph: every link is handed to d3's link force, including one whose endpoint names no drawn node; d3 then throws "node not found" (task3/frontend/js/visualization.js:32, 41-67, 170). That error path is not modelled: the result always lists all links. `CypherImport.EdgesIgnoreNodeTable` shows such links can reach the renderer.
- Render.DegreeMap: keys are JavaScript values rather than property-name strings, so the string coercion of object keys (`1` and `"1"` sharing an entry) is not modelled.
- The Kùzu database is an input. The aggregated reference rows, the Source nodes and the article list arrive as sequences in query order. The SQL filtering (`similarity_threshold`, `min_edge_count`) and the database setup are not modelled.
- networkx PageRank and HITS are inputs (`SourceGraph.Scores`), as is the TF-IDF cosine similarity matrix (`References.Articles`).
- SourceGraph.GetData: the `label` field of each relation and the removal of `from_id`/`to_id` are stated on the JSON objects (`SourceGraph.RelationOf`), not on the `Reference` record.
- `dateutil.parser.parse` is an oracle (`NewsArticle.Parsers`) that either yields a calendar date or fails.
- NewsArticle.IsoDate: `strftime("%Y")` output for years below 1000 is platform-dependent; the model always zero-pads to four digits.
- NewsArticle.MatchLabel: `re.IGNORECASE` is modelled for ASCII letters only. Python also folds a few non-ASCII characters (such as the long s and the Kelvin sign) onto the label letters.
- CypherImport.EdgeWeight: `\d` in the weight pattern is matched for the ASCII digits 0-9 only. Python's `\d` also matches every other Unicode decimal digit (such as `٥`), and `int()` reads those, so a line like `weight: ٥` weighs 5 in the source and 1 in the model.
- Text.ParseInt: Python's `int()` also accepts surrounding whitespace, underscores between digits and non-ASCII digits. The model takes only an optional sign followed by ASCII digits.
- File reading is modelled as a string already decoded. Universal-newline translation and `errors='ignore'` decoding are not modelled.
- Writing the CSV file (`create_news_csv`) is I/O.
- References.SelectReferences: the similarity is stored unrounded, where the source writes it rounded to four decimals in the query text.
- References.Consistent: the loop runs over the matrix size, not the article list. A matrix shorter than the list makes the loop silently skip the later articles. A longer one raises an IndexError on `publish_dates[i]` or `publish_dates[j]`, but only at the first pair beyond the list whose similarity is above 0.5, because `and` evaluates the date comparison only then. The model requires a square matrix as long as the article list, so neither mismatch is modelled.
- The dates in the article table are taken as given. The source compares whatever Kùzu returns. The model compares calendar dates and treats a missing date as the comparison that raises.

## Findings

| source | as written | input that shows it | evidently intended | confidence | as-written member | corrected member |
|---|---|---|---|---|---|---|
| app/frontend/src/components/Graph.js:127-131 | endpoints are keyed by `d.source.id \|\| d.source`, so a node whose id is falsy is keyed by its object and never matches `n.id` | nodes with ids 0 and 1 and one relation 0→1: node 0 is classified isolated and pinned to the ring although it is linked; the backend numbers sources from 0 (app/utils/dbop.py:88-89) | a node is isolated exactly when no link has its id at either end | not executed | GraphView.IdZeroMisclassified | GraphView.IsolatedIff |
