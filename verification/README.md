# networks — a Dafny model of the page logic in `js/main.js`

The page draws a network of nodes and edges, read from a JSON document, in an
SVG canvas. It lets the user drag nodes, hover over them and click to select
them. This project models what the page's script computes, as pure Dafny
definitions, and proves properties of them:

- **Query string and network choice** (`Query`, `query.dfy`). `parse_query_string`
  drops the leading `?`, splits on `&`, and reads each segment with JavaScript's
  `split('=', 2)`. The value has `+` read as a space and is then decoded; a later
  key overwrites an earlier one. `main` then looks up the first configured network
  whose `file` equals the `network` parameter.
- **Coordinate normalisation** (`Layout`, `layout.dfy`). `y` is negated. The bounding
  box is taken with accumulators that start at 0, so it always contains the origin.
  The scale is `min(1024/width, 1024/height)` under JavaScript's division by zero,
  and each point becomes `(p - min) * scale`. Both extents being 0 gives the
  JavaScript `NaN` coordinates, modelled as `Layout.NotANumber`.
- **Id table, edge resolution and neighbour index** (`Graph`, `graph.dfy`;
  `Adjacency`, `adjacency.dfy`). Nodes are written into a table by id, so a later
  node with the same id wins. Edges are rewritten to table entries. A dangling
  endpoint makes the page throw at the neighbour loop, which is modelled as
  `Failure(UnknownEndpoint(..))` on the first such edge. The index keeps, for each id,
  the neighbour ids in first-appearance order without repeats. A node is identified
  by its position in the node list, because the page compares node records by
  identity.
- **Highlight** (`Highlight`, `highlight.dfy`). This covers the node card (header,
  `Neighbors (k)` sub-header, neighbour labels, the `UNNAMED NODE` fallback) and the
  `active`/`neighbor` node classes and `active` edge classes. `CardFor`/`Classify`
  are the evidently intended results. `HighlightAsWritten` is the page's in-place
  update of the elements, including the two defects under "Findings".
- **Interaction** (`Interaction`, `interaction.dfy`). The click, hover and drag
  handlers are a `Step` function over an explicit state: selection, drag flag,
  highlight target and per-node pins.

`seqs.dfy` (first index, repeat removal) and `wrappers.dfy` (`Option`, `Result`)
are shared helpers.

Some things the page does not do, and the model does not do either:

- The page does not sort neighbour lists. They keep the order in which the edges name the ids.
- The page does not centre the drawing, leave a margin or fall back to a default scale.
- A click on the background does not clear the selection. Only node handlers exist.
- The page sets no `inactive` class. It sets only `active` and `neighbor`.
- Nothing guards against a load finishing after another one. Each load is a fresh `Graph.Load`.
- A node can be both `active` and `neighbor` when it has a self-loop.

## Model

| member | source | states |
|---|---|---|
| Query.DropFirst | js/main.js:49 | the leading character of the search string is dropped, and only it |
| Query.Split | js/main.js:49 | `split` yields at least one piece and no piece contains the separator |
| Query.JoinSplit | js/main.js:49 | splitting loses nothing: gluing the pieces back with `&` gives the text |
| Query.SplitJoin | js/main.js:49 | splitting recovers any separator-free pieces that were joined |
| Query.PlusToSpace | js/main.js:56 | every `+`, and only `+`, becomes a space; the length is kept |
| Query.SplitLimit2 | js/main.js:52 | `split('=', 2)` gives one piece without `=` and two with it: the text before the first `=`, then the text up to the second `=` or the end |
| Query.Before | js/main.js:52 | the text before the first separator is a separator-free prefix ending at the separator or the end |
| Query.Entry | js/main.js:52-56 | the key is the text before the first `=`, and a segment without `=` has the value `""`; the value in the other case is stated by `Query.EntryMeaning` |
| Query.EntryMeaning | js/main.js:52-56 | a segment without `=` is a key with `""`; otherwise the key is the text before the first `=` and the value is the decoded, `+`-to-space text between the first and second `=` |
| Query.Collect | js/main.js:51-57 | the map holds exactly the keys written, each with the value of its last write |
| Query.ParseQueryString | js/main.js:48-57 | the query map holds exactly the keys of the `&`-separated segments, each with the value of its last segment (the meaning of each segment is `Query.EntryMeaning`) |
| Query.LastWriteWins | js/main.js:51-57 | a repeated key keeps its last occurrence |
| Query.NetworkPath | js/main.js:60 | the network path is present exactly when the query has a `network` key, and is its value |
| Query.FindNetwork | js/main.js:40 | a network is found iff some configured file equals the path, and it is the first such |
| Query.Startup | js/main.js:37-44 | a network is set up iff the query has a `network` value that is some configured file, and it is a configured network |
| Query.StartupChoosesLastNetworkParameter | js/main.js:37-44 | a network is set up iff the last `network` value is one of the two configured files, and it is that file's network |
| Query.NoNetworkParameterNoStartup | js/main.js:40-44 | without a `network` parameter nothing is set up |
| Layout.Bounds | js/main.js:88-98 | the box encloses the origin and every flipped point, and each side is 0 or reached by a point |
| Layout.TightBoxIsLeast | js/main.js:88-98 | that box is inside every box enclosing the origin and the points |
| Layout.TightBoxIsUnique | js/main.js:88-98 | the box with both properties is unique |
| Layout.ScaleFor | js/main.js:102 | the scale is infinite exactly when there are nodes and both extents are 0 |
| Layout.ScaleFits | js/main.js:102 | a finite scale keeps both scaled extents within 1024 and makes one of them reach it |
| Layout.PlaceAll | js/main.js:101-105 | every point is placed with the one box and scale; what that means for pairs of nodes is `Layout.NormaliseIsUniform` and `Layout.NormaliseKeepsOrder` |
| Layout.Normalise | js/main.js:88-105 | the layout is the placement of the flipped points by the tight box and its scale; `NaN` exactly when every node is at the origin; otherwise every coordinate lies in [0, 1024] and the scaled box reaches 1024 on one side |
| Layout.NormaliseIsUniform | js/main.js:101-105 | the differences between two placed points are the raw differences times the one scale, with `y` mirrored |
| Layout.NormaliseKeepsOrder | js/main.js:93-104 | placement keeps the `x` order of nodes and reverses their `y` order |
| Adjacency.AddLink | js/main.js:115-116 | after one edge, both endpoint ids have an entry and no other key is added |
| Adjacency.Neighbours | js/main.js:114-119 | every edge added in order; its meaning is `Adjacency.NeighboursDescribed` (the reference index) and `Adjacency.IsolatedHasNoEntry` (an entry exactly for the ids some edge touches) |
| Adjacency.AddLinkEntry | js/main.js:115-118 | one edge pushes onto each endpoint's list the ids it offers, each only if absent |
| Adjacency.NeighboursDescribed | js/main.js:114-119 | the index has an entry exactly for the ids some edge touches, and each list is the ids met along the edges without repeats |
| Adjacency.MetIffLinked | js/main.js:114-119 | an id is met by `u` exactly when an edge joins the two |
| Adjacency.NeighboursSymmetric | js/main.js:117-118 | `v` is listed for `u` iff an edge joins them, and then `u` is listed for `v` |
| Adjacency.NeighbourListShape | js/main.js:117-118 | every list has no repeats and is ordered by first appearance along the edges |
| Adjacency.IsolatedHasNoEntry | js/main.js:115-116 | an id has an entry iff some edge touches it |
| Adjacency.ParallelLinkAddsNothing | js/main.js:117-118 | an edge joining two already-joined ids, either way round, leaves the index unchanged |
| Adjacency.SelfLoopListedOnce | js/main.js:117-118 | a self-loop lists its node exactly once in its own list |
| Graph.IdTable | js/main.js:91-92 | the table has exactly the node ids, each naming the last node with that id |
| Graph.TableEntryHasId | js/main.js:92 | the node a table entry names carries that id |
| Graph.Resolve | js/main.js:108-116 | resolution succeeds iff every endpoint id is in the table, each endpoint becoming its entry; otherwise it reports the first bad edge, source before target |
| Graph.ResolvedEdgesAreLast | js/main.js:108-111 | each resolved endpoint is the last node with the endpoint's id |
| Graph.Load | js/main.js:85-119 | loading succeeds iff no endpoint is dangling, giving a graph whose table, edges, index and layout agree with the document; a failure names the edge where the page throws |
| Graph.ResolvedLinksAreDocumentIds | js/main.js:108-111 | the ids of the resolved endpoints are the ids the document wrote |
| Graph.EdgeEndsAreNeighbours | js/main.js:114-118 | every edge joins its endpoint ids both ways in the index |
| Graph.ListedIdsAreKnown | js/main.js:301 | every listed neighbour id has a node in the table |
| Highlight.DisplayLabel | js/main.js:286-290 | the shown label is the node's label, or `UNNAMED NODE` when it is missing or empty; never empty |
| Highlight.Decimal | js/main.js:299 | a count is written as decimal digits without a leading zero |
| Highlight.DecimalRoundTrip | js/main.js:299 | the digits read back as the count |
| Highlight.CountTextReadsBack | js/main.js:299 | the sub-header is `Neighbors (`, the count's digits and `)`, and the digits read back as the count |
| Highlight.CardFor | js/main.js:282-307 | the card is shown iff there is a target, headed by the target's label or the fallback, with the placeholder iff the target's id has no entry; the sub-header and listing are stated by `Highlight.ListingShowsMetIds` |
| Highlight.PlaceholderIffUntouched | js/main.js:294-297 | the `Neighbors` placeholder appears iff no edge touches the target's id |
| Highlight.ListingShowsMetIds | js/main.js:298-306 | otherwise the sub-header counts the distinct ids met along the target's edges, and the labels are those ids' nodes' labels, in first-appearance order |
| Highlight.Classify | js/main.js:310-315 | one class flag per node and per edge; which flags are set is stated by `Highlight.ClassifyMarksTarget` and `Highlight.ClassifyNeighboursAreLinked` |
| Highlight.ClassifyMarksTarget | js/main.js:310-315 | without a target nothing is marked; a node is active iff it is the target; an edge is active iff an end is the target |
| Highlight.ClassifyNeighboursAreLinked | js/main.js:313 | a node is a neighbour iff an edge joins the target's id and its id |
| Highlight.ActiveEdgeEndsAreNeighbours | js/main.js:313-315 | the far end of an active edge is marked as a neighbour |
| Highlight.WithoutParas | js/main.js:292 | removing the `<p>` children keeps exactly the other fragments, never adds any, keeps a lone text fragment and drops a lone paragraph |
| Highlight.WithoutParasAppend | js/main.js:292 | the removal works fragment by fragment, so the kept fragments stay in their order |
| Highlight.OnlyParasLeaveNothing | js/main.js:292 | a description of paragraphs only is emptied |
| Highlight.CardAsWritten | js/main.js:282-307 | the card element is visible exactly when there is a target; without one nothing else changes; with one the header and sub-header are the corrected card's, the description is `--` alone when the target has no entry, and otherwise the text fragments that survived line 292, in order, followed by the corrected listing |
| Highlight.HighlightAsWritten | js/main.js:280-316 | the call throws exactly for a target without an entry, shows the card exactly for a target, and always sets the corrected `active` classes; the other classes are stated by `Highlight.AsWrittenAgreesWithEntry` and `Highlight.IsolatedTargetKeepsStaleClasses` |
| Highlight.RenderCard | js/main.js:282-307 | a card built from scratch is visible exactly when shown |
| Highlight.AsWrittenAgreesWithEntry | js/main.js:280-316 | for no target, or a target with an entry, the page throws nothing and sets the corrected classes, and the corrected card unless stray text was in the description |
| Highlight.RenderedCardIsFresh | js/main.js:292-306 | the corrected card does not depend on what was shown before: the placeholder alone, or paragraphs only |
| Highlight.IsolatedTargetMarksNothing | js/main.js:313-315 | for a target no edge touches, the corrected classes mark no neighbour and no edge |
| Highlight.IsolatedTargetKeepsStaleClasses | js/main.js:313 | as written, such a target throws and leaves the previous `neighbor` and edge classes in place |
| Highlight.TextSurvivesListing | js/main.js:292-304 | as written, text outside paragraphs survives a later listing |
| Highlight.ExampleIsWellFormed | js/main.js:87-119 | the three-node example network is what loading makes of it, layout included |
| Highlight.IsolatedTargetExample | js/main.js:313 | clicking `a`, leaving it (which highlights `a` again) and entering the edgeless `c` leaves `b` marked and the edge active, where the corrected classes mark neither |
| Highlight.StalePlaceholderExample | js/main.js:292-304 | entering `c`, leaving it with nothing selected and entering `a` shows `--` above the listing, where a fresh card shows only the listing |
| Interaction.Step | js/main.js:215-277 | only a click outside a drag changes the selection, to the clicked node; only pointer events outside a drag change the highlight; only drag events touch pins, and only the dragged node's |
| Interaction.Run | js/main.js:215-277 | the handlers run one event at a time; stated by `Interaction.RunAppend`, `Interaction.RunWithoutDragEvents` and the lemmas below |
| Interaction.RunAppend | js/main.js:215-277 | handling two runs of events one after the other is handling their concatenation |
| Interaction.RunWithoutDragEvents | js/main.js:215-277 | events other than drag events never change the drag flag or the pins |
| Interaction.PointerEventsIgnoredWhileDragging | js/main.js:252-277 | during a drag, click, mouseover and mouseout change nothing |
| Interaction.HoverAndClick | js/main.js:252-277 | outside a drag a click selects and highlights the node, mouseover highlights it and keeps the selection, mouseout highlights the selection again |
| Interaction.DragLifecycle | js/main.js:215-241 | drag start pins the node where it is and sets `dragging`, drag moves re-pin it at the pointer, drag end unpins it and clears `dragging`; selection and highlight are kept |
| Interaction.SelectionIsSticky | js/main.js:252-259 | once something is selected, something stays selected |
| Interaction.SelectionComesFromClick | js/main.js:252-259 | a changed selection is the node of a click handled outside a drag |
| Interaction.MovesOnlyRepin | js/main.js:226-230 | moves of one node only re-pin that node |
| Interaction.DragSessionReleases | js/main.js:215-241 | a complete drag of one node leaves the state as before, minus that node's pin, with `dragging` off |
| Interaction.StepKeepsValid | js/main.js:215-277 | handlers on drawn nodes keep the state about drawn nodes |
| Interaction.Render | js/main.js:280-316 | the corrected view of a state: the card is hidden iff there is no highlight target, and only the target is active |
| Interaction.MouseOutShowsSelection | js/main.js:270-277 | after mouseout the card is shown iff something is selected, and only the selected node is active |
| Interaction.DragEventsKeepRender | js/main.js:215-241 | drag events never change the card or the classes |
| Interaction.HandleAsWritten | js/main.js:252-277 | a handler as written: the state is `Step`'s, and the page goes through `highlight_node` exactly for pointer events outside a drag, with the node the handler picks |
| Interaction.PageAsWritten | js/main.js:252-316 | a sequence of events as written: the state is `Run`'s and stays about drawn nodes |
| Interaction.PageStep | js/main.js:252-316 | one more event is one more handler run on the page |
| Interaction.ClickThenEnterIsolated | js/main.js:276-316 | in any network, clicking a node with an entry, leaving it and entering a node without one leaves the first node's `neighbor` and edge classes on screen, where the corrected view marks nothing |
| Interaction.EnterThenEnterIsolated | js/main.js:276-316 | with nothing selected, the same moves leave no `neighbor` or edge class, because leaving calls `highlight_node` with no node |
| Interaction.EnterIsolatedThenLinked | js/main.js:276-306 | in any network, entering a node without an entry, leaving it and entering one with an entry shows `--` above the listing that a fresh card shows alone |

## Left out

- The d3 force simulation (lines 174-204, 217, 235): it is a library's floating-point integrator. The drag-start position that it produces is an input of `DragStart`.
- The zoom handler (lines 167-170): it copies the event's transform and holds no logic.
- SVG, DOM and jQuery drawing (lines 64-69, 122-159): this covers the menu, the circles, the lines, the label offsets, radius and colour. Node `size` and `color` are therefore not kept in `Graph.Node`.
- `d3.json` and the thrown load error (lines 79, 83): asynchronous I/O. The parsed document is the input of `Graph.Load`.
- `decodeURIComponent` is a parameter `decode`. Its `URIError` on malformed escapes is not modelled.
- `window.location.search` is the parameter `search`.
- Query.Collect: JavaScript object keys that collide with the prototype (`__proto__`) are not modelled. The query and node tables are plain maps.
- Adjacency.AddLink: the `neighbors` object is a plain JavaScript object too. An id such as `toString` or `constructor` names an inherited property, so line 115 sees a value, creates no list, and line 117 throws. The model treats every id as absent until an edge adds it.
- Layout.Normalise: coordinates are exact reals, not IEEE doubles. Rounding (a product that lands one unit in the last place above 1024), overflow (`1024 / w` for a subnormal extent, an extent beyond the largest double) and missing or non-numeric `x`/`y` are not modelled. The bounds in [0, 1024] and the positive scale are promised over the reals only.
- Graph.IdTable: node ids are strings. The JSON document's numeric ids, which JavaScript turns into keys, are not distinguished from their text.
- Highlight.CardAsWritten: lines 302 and 304 append each label through jQuery as HTML, so entities are decoded and markup is rendered. The model treats every label as plain text in one `Para`. A label such as `x</p>y` would leave an extra text node outside the paragraph, which line 292 never removes. The header, written with d3 `.text`, is plain text, as modelled.
- Highlight.CardAsWritten: the header is written to the first element matching `#node_card .header`. The page's HTML is not part of this model, so that element is taken to be the main header.
- Highlight.DisplayLabel: a `null` label (a TypeError at line 286) and non-string labels are not modelled. A label is a string or absent.
- d3-drag's suppression of the click that follows a drag, and several pointers dragging at once, are not modelled. Events arrive one at a time, as `Interaction.Run` takes them.
- `Layout.Normalise` treats the case without nodes as an empty layout. The global `scale` keeps its initial 1 there, because it is only assigned inside the per-node loop.

## Findings

| source | as written | input that shows it | evidently intended | confidence | as-written member | corrected member |
|---|---|---|---|---|---|---|
| js/main.js:313 | `neighbors[n.id].includes(x.id)` without the `undefined` guard of line 295 | select a node with an edge, then move onto a node with no edge (nodes `a`, `b`, `c`; one edge `a`–`b`; click `a`, then move from `a` to `c`) | a node without an entry has no neighbours: no `neighbor` class and no active edge | not executed | Highlight.IsolatedTargetExample | Highlight.IsolatedTargetMarksNothing |
| js/main.js:292 | only `<p>` children are removed, but line 297 writes `--` as a text node | same network, nothing selected: move onto `c`, off it, then onto `a` | the card for `a` lists only `b`'s label | not executed | Highlight.StalePlaceholderExample | Highlight.RenderedCardIsFresh |

Moving from one node to another fires a mouseout on the first node before the mouseover on the second. The mouseout calls `highlight_node` with the selection. With nothing selected, that call clears every class, so nothing stale is left when the second node is entered (`Interaction.EnterThenEnterIsolated`). With `a` selected, the mouseout highlights `a` again. Then the mouseover on `c` throws a TypeError at line 313 at the first node. The `neighbor` classes and the edge classes of `a` therefore stay on screen: `b` stays marked, and the `a`–`b` edge stays active while `c` is highlighted. `Interaction.ClickThenEnterIsolated` states this for every network and event sequence of that shape, and `Highlight.IsolatedTargetExample` shows it on the example.

`Highlight.Classify` reads a missing entry as an empty list. `Highlight.IsolatedTargetMarksNothing` proves that this marks nothing. `Interaction.Render` uses the corrected definitions.

The `--` of line 297 is a text node. The mouseout that leaves `c` only hides the card, so the text node is still there when `a` is entered. Line 292 removes only `<p>` elements, so `a`'s listing is appended below it (`Interaction.EnterIsolatedThenLinked`). `Highlight.RenderedCardIsFresh` proves that the corrected card does not depend on what the card showed before.
