# chord-pack, modelled in Dafny

`ChordPackChart` is a React/d3 component. It draws a weighted bipartite
relation in two layers:

- an outer ring of **chords**, one pie arc per matrix row;
- an inner pack of **circles**, one per matrix column that survives packing (index.tsx:378-381 keeps the circles whose scaled value is positive);
- **links** (ribbons) from a sub-span of a chord's arc to the centre of a packed circle.

Clicking, hovering and leaving chords, circles and links toggles CSS classes
on the drawn elements. These events also show or hide text labels, remember
the last selection in `prevClicked`, and report selections through
`onItemSelect` and `onItemUnSelect`.

This project models the component's own logic in five modules:

- **Utils** (`Utils.dfy`) models `sum`, a left fold of `+` from 0, over exact reals.
- **Matrix** (`Matrix.dfy`) holds the per-chord totals (row sums) and per-circle totals (column sums).
  - The "linked nodes" of a chord are the ascending columns with a non-zero cell in its row.
  - The linked nodes of a circle are the ascending rows with a non-zero cell in its column.
  - The handlers look up a node's index by first-match `findIndex` on its name.
- **Ribbons** (`Ribbons.dfy`) models the ribbon walk.
  - For every pie arc, the row's cells are stably sorted by descending weight.
  - The arc's span is cut into contiguous pieces, each proportional to its cell's share of the arc's total.
  - A piece becomes a link when its circle was packed and its anchor path is drawable.
  - `RibbonWalk` is the imperative loop. It is proved equal to the function `AllRibbons`, about which the lemmas are stated.
- **Selection** (`Selection.dfy`) is the handlers' behaviour as functions from the view before an event to the view after it.
  - A view holds `prevClicked`, the five class sets, the shown labels and the log of notices.
  - Its lemmas state the invariant the handlers keep, and what a click, a hover, a leave and a link click do.
- **Chart** (`Chart.dfy`) is the component as a class whose fields are that state.
  - Its constructor draws the chart: the totals, the links and the initial labels.
  - Its methods run the handlers' loops and flag updates step by step.
  - Each handler is proved to leave exactly the state the matching Selection function describes, and to keep the invariant.

Numbers are exact reals. A division by a zero arc total, which gives NaN or
Infinity in JavaScript, is the `NonFinite` angle.

## Model

| member | source | states |
|---|---|---|
| Utils.Sum | components/ChordPack/utils.ts:3-5 | `sum`: `reduce` with `+` from 0, a left fold. Its properties are the lemmas below. |
| Utils.SumBasics | components/ChordPack/utils.ts:3-5 | The sum of the empty list is 0, and appending x adds x to the sum. |
| Utils.SumSingle | components/ChordPack/utils.ts:3-5 | A one-element list sums to its element. |
| Utils.SumConcat | components/ChordPack/utils.ts:3-5 | The sum of a concatenation is the sum of the parts. |
| Utils.SumNonNegative | components/ChordPack/utils.ts:3-5 | A list of non-negative numbers has a non-negative sum. |
| Utils.SumBoundsEntry | components/ChordPack/utils.ts:3-5 | Among non-negative numbers, each entry is at most the sum. |
| Utils.SumPointwise | components/ChordPack/utils.ts:3-5 | Summing two equal-length lists element by element adds their sums. |
| Utils.SumZeroMeansZeros | components/ChordPack/utils.ts:3-5 | Non-negative numbers sum to 0 only when each of them is 0. |
| Matrix.ChordItems | components/ChordPack/index.tsx:59-66 | One chord per name, in order. Chord i is worth the sum of row i. Over a non-negative matrix every cell of the row lies between 0 and that total. |
| Matrix.CircleItems | components/ChordPack/index.tsx:69-76 | One circle per name, in order. Circle j is worth the sum of column j. Over a non-negative matrix every cell of the column lies between 0 and that total. |
| Matrix.RowBounds | components/ChordPack/index.tsx:59-66 | In a non-negative matrix each cell is at most its row's sum. |
| Matrix.ColumnBounds | components/ChordPack/index.tsx:69-76 | In a non-negative matrix each cell is at most its column's sum. |
| Matrix.RowsAndColumnsAgree | components/ChordPack/index.tsx:59-76 | The row sums and the column sums of a rectangular matrix add up to the same total. |
| Matrix.GrandTotal | components/ChordPack/index.tsx:59-76 | The chord totals and the circle totals of one matrix have the same sum. |
| Matrix.ZeroSum | components/ChordPack/utils.ts:3-5 | A list of zeros sums to 0. |
| Matrix.NonZeroIndices | components/ChordPack/index.tsx:206-216 | Ascending positions. A position is in the result exactly when it holds a non-zero entry. |
| Matrix.LinkedCircles | components/ChordPack/index.tsx:206-210 | The circles linked to chord i: ascending, and exactly the j with `m[i][j] != 0`. |
| Matrix.LinkedChords | components/ChordPack/index.tsx:211-216 | The chords linked to circle j: ascending, and exactly the i with `m[i][j] != 0`. |
| Matrix.LinkSymmetry | components/ChordPack/index.tsx:206-216 | Circle j is linked to chord i if and only if chord i is linked to circle j. |
| Matrix.IncreasingUnique | components/ChordPack/index.tsx:206-216 | Two ascending index lists with the same members are equal. |
| Matrix.LinkedCirclesExactly | components/ChordPack/index.tsx:206-210 | Any ascending list of the non-zero columns of row i is the linked-circle list. |
| Matrix.LinkedChordsExactly | components/ChordPack/index.tsx:211-216 | Any ascending list of the non-zero rows of column j is the linked-chord list. |
| Matrix.FindIndex | components/ChordPack/index.tsx:459 | Returns -1 exactly when no item has the name. Otherwise it returns the first position holding the name. |
| Matrix.FindOwnName | components/ChordPack/index.tsx:459 | Looking up the name of item k finds an item with that name at or before k, and finds k itself when names are distinct. |
| Ribbons.InsertEntry | components/ChordPack/index.tsx:562 | Inserting one entry makes a permutation of the list plus the entry, headed by the entry or the old head. |
| Ribbons.SortByValue | components/ChordPack/index.tsx:556-562 | The sort returns a permutation of the row's entries. |
| Ribbons.InsertOrdered | components/ChordPack/index.tsx:562 | Inserting into a list in descending-weight, ascending-column order keeps that order. |
| Ribbons.SortOrdered | components/ChordPack/index.tsx:562 | The sorted entries are in descending weight, with ties in column order. |
| Ribbons.OrderedIsSorted | components/ChordPack/index.tsx:562 | An adjacent-pair ordering holds between every pair of positions. |
| Ribbons.RowEntriesDistinct | components/ChordPack/index.tsx:556-561 | A row's entries have distinct columns, and their weights are the row. |
| Ribbons.VisitOrder | components/ChordPack/index.tsx:556-564 | The walk visits a permutation of the row's cells in non-increasing weight. Equal weights keep ascending column order, as the stable sort keeps them. |
| Ribbons.SortedUnique | components/ChordPack/index.tsx:562 | Two totally ordered permutations of the same entries are equal. |
| Ribbons.StableSortOrder | components/ChordPack/index.tsx:556-562 | Any permutation of the row's entries in that order is the one the sort returns: the visiting order is determined. |
| Ribbons.SortedEntryIsCell | components/ChordPack/index.tsx:556-561 | Every sorted entry is a cell of the row: its weight, its column and that circle's name. |
| Ribbons.InsertSum | components/ChordPack/index.tsx:562 | Inserting an entry adds its weight to the total. |
| Ribbons.SortSum | components/ChordPack/index.tsx:556-562 | Sorting leaves the row's total unchanged. |
| Ribbons.PiecesOf | components/ChordPack/index.tsx:564-568 | One piece per visited entry. |
| Ribbons.Advance | components/ChordPack/index.tsx:565-568 | One step of `arcOffset`: the end of a piece starting at `offset`. It is finite exactly when the offset is finite and the total is not zero. With a non-negative weight, a positive total and a non-negative span it never moves backwards. |
| Ribbons.EndAfter | components/ChordPack/index.tsx:552-568 | `arcOffset` after walking the given entries from `startAngle`. It stays finite exactly while the start is finite and, once an entry is walked, the total is not zero. |
| Ribbons.PiecesContiguous | components/ChordPack/index.tsx:564-568 | Piece k belongs to entry k and spans its share. The first piece starts at the start angle, and each later piece starts where the previous one ended. |
| Ribbons.EndAfterValue | components/ChordPack/index.tsx:564-568 | After any entries, the offset has advanced by the share of their summed weight. |
| Ribbons.SharesAdd | components/ChordPack/index.tsx:566-567 | The shares of two weights add up to the share of their sum. |
| Ribbons.ShareOfWhole | components/ChordPack/index.tsx:566-567 | The share of the whole total is the whole span. |
| Ribbons.ZeroTotalPieces | components/ChordPack/index.tsx:566-567 | With a zero arc total, every piece ends at a non-finite angle. |
| Ribbons.PiecesCover | components/ChordPack/index.tsx:552-568 | When the entries' weights sum to the non-zero total, the pieces tile the span exactly. They start at the start angle, touch end to start, and end at start plus span. |
| Ribbons.RowCoverage | components/ChordPack/index.tsx:552-568 | For an arc whose total is its row's non-zero sum, the pieces run from `startAngle` to `endAngle` without gaps. |
| Ribbons.ArcCoverage | components/ChordPack/index.tsx:545-568 | The same for the row the arc's name is found at. |
| Ribbons.PieArcCoverage | components/ChordPack/index.tsx:545-568 | An arc over chord k with distinct chord names is dispatched to row k, and its pieces tile its span. |
| Ribbons.PieceWidth | components/ChordPack/index.tsx:565-567 | A finite piece belongs to its entry, and is exactly as wide as that entry's share of a non-zero total. |
| Ribbons.PieceAt | components/ChordPack/index.tsx:564-568 | Piece k runs from the offset after the first k entries to the offset after k+1. |
| Ribbons.PiecesFinite | components/ChordPack/index.tsx:564-568 | With a non-zero total every piece has finite ends. |
| Ribbons.ZeroWidthPiece | components/ChordPack/index.tsx:564-568 | A zero-weight entry gets an empty, finite piece. |
| Ribbons.Emits | components/ChordPack/index.tsx:570-589 | The two `continue` tests: a piece is drawn when a packed circle has its circle's name (570-573) and its path is usable, that is, finite and not rejected by `degenerate` (586-589). `EmittedExactly` and `RibbonWalk` are proved against it. |
| Ribbons.Emitted | components/ChordPack/index.tsx:564-629 | The links one arc's loop pushes, in visiting order: at most one per piece, each carrying the arc's name and row and a packed circle's name. |
| Ribbons.EmittedExactly | components/ChordPack/index.tsx:570-589 | A link is emitted if and only if it comes from a piece whose circle name is packed, whose ends are finite and which is not degenerate. |
| Ribbons.ArcRibbons | components/ChordPack/index.tsx:546-629 | The links of one arc. Its row is found by name, and a name not found gives none (550). There are at most as many links as circles, and each names the arc's chord, found at a valid row, and a packed circle. |
| Ribbons.AllRibbons | components/ChordPack/index.tsx:544-630 | The links of every arc, arc by arc. Each names a chord found at a valid row and a packed circle. `RibbonWalk` is proved to compute it. |
| Ribbons.ArcRibbonFacts | components/ChordPack/index.tsx:545-628 | Every link of an arc comes from the row its name is found at, with an existing column. Its circle is packed, its span is not degenerate, and its span width is its cell's share of the arc. |
| Ribbons.RowRibbonFacts | components/ChordPack/index.tsx:564-628 | A link from row c carries chord index c and the arc's name, a valid circle index and that circle's name. Its circle is packed and its span is not degenerate. The arc total is non-zero, and the span width is the cell's share. |
| Ribbons.AllRibbonFacts | components/ChordPack/index.tsx:544-630 | Every link comes from one of the arcs, as above. |
| Ribbons.ZeroCellRibbon | components/ChordPack/index.tsx:556-628 | A zero cell whose circle is packed still yields a zero-width link when empty spans are drawable: the walk does not filter zero cells. |
| Ribbons.ZeroRowZeroEntries | components/ChordPack/index.tsx:553-567 | Over a non-negative row whose total is zero, every weight the walk visits is zero, so every share it computes is 0 / 0, a NaN. |
| Ribbons.ZeroCellPiece | components/ChordPack/index.tsx:556-628 | The same, stated for one row. |
| Ribbons.EntryPosition | components/ChordPack/index.tsx:556-562 | Every cell of the row appears in the sorted list. |
| Ribbons.ZeroPieceEmitted | components/ChordPack/index.tsx:570-589 | An empty finite piece to a packed circle is emitted when empty spans are drawable. |
| Ribbons.WalkStep | components/ChordPack/index.tsx:564-629 | One pass of the inner loop advances the offset by the entry's share, and pushes that piece's link exactly when it is emitted. |
| Ribbons.AllRibbonsStep | components/ChordPack/index.tsx:545-630 | One pass of the outer loop appends that arc's links. |
| Ribbons.RibbonWalk | components/ChordPack/index.tsx:544-630 | The walk's `paths` are the specified links of all arcs, in arc order and visiting order. Each link has valid indices, a packed circle and a span that is not degenerate. |
| Ribbons.WalkArc | components/ChordPack/index.tsx:552-629 | The inner loop pushes exactly the emitted links of the arc's pieces. |
| Selection.Linked | components/ChordPack/index.tsx:203-220 | The linked nodes of a chord or a circle are valid indices of the other kind. |
| Selection.Unselect | components/ChordPack/index.tsx:154-168 | The opening loops of a node click. Each previously clicked chord's and circle's label is hidden. One notice per previous node is added, and nothing else changes. |
| Selection.Hover | components/ChordPack/index.tsx:248-301 | `handleElementHover`. It never changes clicked, focus, blur, `prevClicked` or the notices. An unclicked element ends up hovered. The full effect is in `HoverKeepsSelection`. |
| Selection.Leave | components/ChordPack/index.tsx:303-341 | `handleElementLeave`. It clears every hover class and changes no selection. Which labels it hides is in `LeaveHides`. |
| Selection.LinkHover | components/ChordPack/index.tsx:646-667 | A link's mouseover. It changes no selection or notice. It only adds hover classes, never clearing earlier ones, and an unclicked link ends up hovered. |
| Selection.LinkClick | components/ChordPack/index.tsx:668-731 | A link's click toggles whether the link is clicked and leaves the hover classes alone. It appends one notice when clicking off and three when clicking on. `LinkClickSelects` and `LinkClickTwice` give the full effect. |
| Selection.LinkLeave | components/ChordPack/index.tsx:732-735 | A link's mouseout: the leave handler for its chord end and then for its circle end. Every hover class is cleared and no selection changes. |
| Selection.Click | components/ChordPack/index.tsx:143-245 | After any click, `prevClicked` holds only valid chord and circle indices. |
| Selection.Highlight | components/ChordPack/index.tsx:177-234 | After highlighting a node, `prevClicked` holds only valid indices. |
| Selection.InitialConsistent | components/ChordPack/index.tsx:484-540 | The freshly drawn chart satisfies the invariant: nothing clicked, focused, blurred or hovered, and only existing labels shown. |
| Selection.ClickConsistent | components/ChordPack/index.tsx:143-245 | A chord or circle click keeps the invariant. At most one element is clicked, and it is focused. Something is focused exactly when something is clicked, and then everything else is blurred. `prevClicked` stays in range. |
| Selection.HoverConsistent | components/ChordPack/index.tsx:248-301 | A chord or circle hover keeps the invariant. |
| Selection.LeaveConsistent | components/ChordPack/index.tsx:303-341 | A leave keeps the invariant. |
| Selection.LinkHoverConsistent | components/ChordPack/index.tsx:646-667 | A link hover keeps the invariant. |
| Selection.LinkClickConsistent | components/ChordPack/index.tsx:668-731 | A link click keeps the invariant. |
| Selection.LinkLeaveConsistent | components/ChordPack/index.tsx:732-735 | A link mouseout keeps the invariant. |
| Selection.ClickSelects | components/ChordPack/index.tsx:155-234 | After clicking an unclicked node E, E is the only clicked element. An element is focused exactly when it is E, one of E's links, or a node sharing a non-zero cell with E; everything else is blurred. `prevClicked` is `[E]` for E's kind and the ascending non-zero indices for the other kind. The notices are the old `prevClicked`'s UnSelects, then Select(E), then its linked nodes' Selects. |
| Selection.HighlightReaches | components/ChordPack/index.tsx:197-234 | A node's links and the drawn elements of its linked nodes are exactly what its non-zero cells and its links reach. |
| Selection.UndoConcat | components/ChordPack/index.tsx:155-168 | Taking back a concatenation takes back each part. |
| Selection.UndoSelections | components/ChordPack/index.tsx:155-168 | Taking back the selections of a list of nodes gives their unselections, in the same order. |
| Selection.ClickTwice | components/ChordPack/index.tsx:155-175 | Clicking an unclicked node twice leaves nothing clicked, focused or blurred, and keeps `prevClicked`. The second click reports unselected exactly what the first reported selected, chords first. |
| Selection.ClickAgain | components/ChordPack/index.tsx:155-175 | The same, stated for the second click alone. |
| Selection.UndoPicked | components/ChordPack/index.tsx:155-229 | What a click on a node reported selected, taken back chords first, is the unselection of the `prevClicked` it recorded. |
| Selection.ClickOn | components/ChordPack/index.tsx:177-229 | A click on an unclicked node makes it the clicked element and records it and its linked nodes. It appends their selections to the unselection notices. |
| Selection.ToggleOff | components/ChordPack/index.tsx:155-175 | A click on the clicked node reports the old `prevClicked` unselected and clears clicked, focus and blur. It leaves `prevClicked` as it was. |
| Selection.ClickUnselectsFirst | components/ChordPack/index.tsx:155-168 | Every click first reports each old `prevClicked` chord and then each circle unselected. |
| Selection.ClickLog | components/ChordPack/index.tsx:154-234 | A click only appends to the log after the unselections. |
| Selection.HighlightLog | components/ChordPack/index.tsx:177-234 | Highlighting a node only appends to the log, starting with the node's own selection. |
| Selection.StalePrevious | components/ChordPack/index.tsx:169-175 | After a toggle-off `prevClicked` is stale, so the next click, on any node, reports those same items unselected again. |
| Selection.HoverThenLeave | components/ChordPack/index.tsx:259-338 | Hovering and then leaving a node that is not focused, when its labels were hidden, restores the view except that no hover class remains. |
| Selection.HoverKeepsSelection | components/ChordPack/index.tsx:259-298 | A hover never changes clicked, focus, blur, `prevClicked` or the notices, and on a clicked node it changes nothing. Otherwise exactly the node and what it reaches are hovered. A node is dimmed exactly when it is neither focused, clicked nor hovered. |
| Selection.LeaveHides | components/ChordPack/index.tsx:314-338 | A leave clears every hover class and changes no selection. A clicked or focused node keeps every label. Otherwise its label is hidden, and of the other kind exactly the labels of nodes sharing a non-zero cell with it. |
| Selection.LinkClickSelects | components/ChordPack/index.tsx:686-730 | Clicking an unclicked link makes it the only clicked element. Exactly it and its two ends are focused, and everything else is blurred. `prevClicked` holds its ends. The notices are Select(link), Select(chord) with its row index (`chordData[d.chordIndex]`, 710), and Select(circle), with no UnSelect. |
| Selection.LinkClickTwice | components/ChordPack/index.tsx:671-685 | A second click on that link clears clicked, focus and blur and hides its ends' labels. It reports only the link unselected and keeps `prevClicked`. |
| Selection.LinkClickHidesPrevious | components/ChordPack/index.tsx:687-694 | A link click hides the labels of the previously clicked nodes, even those of its own ends. Otherwise its chord's label is shown. |
| Chart.DispatchIndex | components/ChordPack/index.tsx:458-469 | The index a node event passes on is in range and names the node. For a chord arc it is at or before the arc's position, and equal to it when chord names are distinct. |
| Chart.DrawnArcsTile | components/ChordPack/index.tsx:545-568 | For the arcs of the unsorted pie over the chords (387-402) with distinct chord names, arc k is dispatched to row k. Its pieces tile it from `startAngle` to `endAngle` when its row sum is not zero. |
| Chart.ChordPackChart.constructor | components/ChordPack/index.tsx:343-630 | Drawing takes one pie arc per chord, arc k carrying chord k's item, since the pie is not sorted (387-402). It sets the totals, the links from the ribbon walk and the initial view, and the invariant holds. |
| Chart.ChordPackChart.EmphasizeText | components/ChordPack/index.tsx:126-132 | Shows label `index` of one kind, when it exists, and changes nothing else. |
| Chart.ChordPackChart.CancelEmphasizeText | components/ChordPack/index.tsx:134-140 | Hides label `index` of one kind and changes nothing else. |
| Chart.ChordPackChart.CancelAll | components/ChordPack/index.tsx:327-337 | The leave loop hides exactly the listed labels. |
| Chart.ChordPackChart.UnselectAll | components/ChordPack/index.tsx:155-161 | Hides each listed label and appends one UnSelect per listed node, in order. |
| Chart.ChordPackChart.UnselectPrevious | components/ChordPack/index.tsx:154-168 | The opening loops of a click leave the state `Unselect` describes. |
| Chart.ChordPackChart.HandleElementClick | components/ChordPack/index.tsx:143-245 | The click handler leaves exactly the state `Click` describes, and keeps the invariant. |
| Chart.ChordPackChart.Unclick | components/ChordPack/index.tsx:169-175 | Toggling off removes the element from `clicked` and clears focus and blur. |
| Chart.ChordPackChart.HighlightNode | components/ChordPack/index.tsx:177-234 | The rest of a click on an unclicked node leaves exactly the state `Highlight` describes. |
| Chart.ChordPackChart.SelectNode | components/ChordPack/index.tsx:177-234 | States every field that highlight step leaves. |
| Chart.ChordPackChart.ClickNode | components/ChordPack/index.tsx:177-201 | The node alone is clicked and recorded, reported and shown. It and its links are focused, and everything else is blurred. |
| Chart.ChordPackChart.FocusNode | components/ChordPack/index.tsx:192-201 | The node and its links are focused, and the rest blurred. |
| Chart.ChordPackChart.HighlightLinked | components/ChordPack/index.tsx:221-234 | The linked-node loop focuses and un-blurs each drawn linked node and shows its label. It appends their Selects in order. |
| Chart.ChordPackChart.HighlightOne | components/ChordPack/index.tsx:222-234 | One pass of that loop. |
| Chart.ChordPackChart.HandleElementHover | components/ChordPack/index.tsx:248-301 | The hover handler leaves exactly the state `Hover` describes, and keeps the invariant. |
| Chart.ChordPackChart.HoverNode | components/ChordPack/index.tsx:259-298 | Hovering an unclicked node sets the hover classes and shows the node's and its linked nodes' labels. |
| Chart.ChordPackChart.HoverLinked | components/ChordPack/index.tsx:282-285 | The hover loop hovers each drawn linked node and shows its label. |
| Chart.ChordPackChart.HandleElementLeave | components/ChordPack/index.tsx:303-341 | The leave handler leaves exactly the state `Leave` describes, and keeps the invariant. |
| Chart.ChordPackChart.NodeClick | components/ChordPack/index.tsx:458-461 | A click on a drawn arc or circle (circles at 510-513) runs the click handler at the index found by name. |
| Chart.ChordPackChart.NodeHover | components/ChordPack/index.tsx:462-465 | The same for mouseover (circles at 514-517). |
| Chart.ChordPackChart.NodeLeave | components/ChordPack/index.tsx:466-469 | The same for mouseout (circles at 518-521). |
| Chart.ChordPackChart.LinkMouseOver | components/ChordPack/index.tsx:646-667 | A link's mouseover leaves exactly the state `LinkHover` describes, and keeps the invariant. |
| Chart.ChordPackChart.HoverLink | components/ChordPack/index.tsx:647-666 | An unclicked link and its ends join the hovered elements, their labels show, and the other nodes are dimmed. |
| Chart.ChordPackChart.LinkMouseClick | components/ChordPack/index.tsx:668-731 | A link's click leaves exactly the state `LinkClick` describes, and keeps the invariant. |
| Chart.ChordPackChart.UnclickLink | components/ChordPack/index.tsx:671-685 | A click on the clicked link hides its ends' labels, un-clicks it, reports it unselected and clears focus and blur. |
| Chart.ChordPackChart.ClickLink | components/ChordPack/index.tsx:686-730 | A click on an unclicked link sets every field as `LinkClickSelects` states. |
| Chart.ChordPackChart.ShowLinkEnds | components/ChordPack/index.tsx:687-694 | Shows the ends' labels, then hides those of `prevClicked`. |
| Chart.ChordPackChart.FocusLink | components/ChordPack/index.tsx:716-729 | Exactly the link and its ends are focused, and everything else is blurred. |
| Chart.ChordPackChart.LinkMouseOut | components/ChordPack/index.tsx:732-735 | A link's mouseout is the leave handler for its chord end and then its circle end. |

## Left out

- d3's `scaleLog`, `pie`, `hierarchy`/`pack` and `arc` are library code. Their outputs enter the model as parameters:
  - the pie arcs (`arcs`);
  - the names of the packed circles, in pack order (`packed`);
  - the test that a piece's anchor path is unusable (`degenerate`), consulted only for finite spans. The model drops a piece whose angle is not finite; see the `Emits` line below for when the code keeps one.
- The log scales (index.tsx:104-118) run from the raw minimum to the raw maximum of the totals, onto [1, 100]. When every column total is positive, every column keeps its circle. When some column total is 0, the domain contains 0, every scaled value is NaN, and the filter at index.tsx:378-381 drops every circle. The same zero row total makes every pie value NaN (index.tsx:391). The packed names and the arcs are parameters, so the model holds for whatever these give.
- The `fits` parameter stands for which circle labels fit inside their circle (the `textLength` test at index.tsx:537).
- SVG and DOM construction, text-label arcs, and the control-point and end-point trigonometry of a link's path are left out. This includes `angleBetween`, which `utils.ts` does not define (index.tsx:4 imports it). A link carries its anchor span in place of its path string.
- React hooks (`useMemo`, `useCallback`, `useEffect`) are left out: the layout is computed once, in the constructor. `generateData` (random demo data), the stories and the build configuration are left out.
- Floating point is left out: numbers are exact reals, and NaN and Infinity are one `NonFinite` angle.
- Emits: drops every piece with a non-finite angle. The code agrees only when its path shows the non-finite angle. Two cases break this. (1) The ribbon anchor is drawn with inner and outer radius both equal to `innerRadius` (index.tsx:575-584), which is min(width, height)/2 - 80 (index.tsx:101-102), and a missing container counts as 0 × 0 (index.tsx:345-346). When that radius is at most d3's epsilon (1e-12), d3's `arc` draws the single point `M0,0Z` for any angles. So neither test at index.tsx:586-589 skips a NaN piece, and the code pushes it (index.tsx:619) whenever its circle is packed. (2) With a negative cell, a non-zero weight over a zero total ends a piece at ±Infinity. d3 may then draw a full circle with no NaN, and the code would push that link. Over a non-negative matrix this cannot happen: a zero total only ever divides 0 by 0 (`ZeroRowZeroEntries`). The model captures neither case. Its links always carry finite angles.
- The callbacks are optional in the component. The model always records their calls in the log.
- Items carry only name and value. `circleData`'s `colIndex` is never passed on. `chordData`'s `rowIndex` reaches a callback only in a link click's chord notice (index.tsx:710), which the model gives as `ChordRowInfo` with the row index.
- HandleElementClick, HandleElementHover, HandleElementLeave: these require the index to be in range. In the component a missing name yields -1 and `chords[-1]` is undefined. Dispatch through `NodeClick`, `NodeHover` and `NodeLeave` always finds a name, given that every packed circle is named after a circle (`PackedNamed`).
- Reproduced rather than corrected:
  - Zero cells are not filtered out of the walk: the loop at index.tsx:564-629 visits every cell of the row, and only the pack lookup (570-573) and the path tests (586-589) skip one. A zero cell whose circle is packed yields an empty link unless d3 finds that path degenerate (`ZeroCellRibbon`).
  - Circle elements and circle labels are numbered by pack position. The handlers address them by column index (`Addressed`, `Labels`).
  - `prevClicked` survives a toggle-off (`StalePrevious`).
  - A link click shows and then hides labels, and reports no UnSelect for the old selection (`LinkClickHidesPrevious`).
  - A link hover does not clear earlier hover classes.
