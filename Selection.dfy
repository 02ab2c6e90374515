/**
 * The chart's selection and highlight behaviour, as transitions on a value.
 *
 * The DOM classes the handlers toggle (`clicked`, `focus`, `blur`,
 * `mouseover`, `mouseout`) become sets of elements, the `fill` of the text
 * labels becomes the set of label ids that are shown, `prevClicked` becomes
 * two index lists and the `onItemSelect` / `onItemUnSelect` callbacks become
 * an append-only log of notices. Each handler is a function from the view
 * before the event to the view after it; the class in module Chart runs the
 * same handlers step by step and is proved to agree with these functions.
 */
module Selection {
  import opened Matrix
  import opened Ribbons

  /** The two kinds of node a handler is told about. */
  datatype Kind = ChordKind | CircleKind

  function Other(kind: Kind): Kind
  {
    if kind == ChordKind then CircleKind else ChordKind
  }

  /**
   * A drawn element: the arc at pie position `pos` (class `chord-${pos}`),
   * the circle at position `pos` of the filtered pack list (class
   * `circle-${pos}`), or the link path at position `pos` of the walk's output.
   */
  datatype Element = ChordArc(pos: nat) | PackedCircle(pos: nat) | LinkPath(pos: nat)

  /**
   * What a notice carries: a chord or circle item, a chord as `chordData`
   * holds it (the item and its row index), or the four fields of a link.
   */
  datatype Info =
    | ChordInfo(data: Item)
    | CircleInfo(data: Item)
    | ChordRowInfo(data: Item, rowIndex: nat)
    | LinkInfo(chordIndex: nat, circleIndex: nat, chordName: string, circleName: string)

  /** One call of `onItemSelect` or `onItemUnSelect`. */
  datatype Notice = Select(info: Info) | UnSelect(info: Info)

  /** What the chart was drawn from: the matrix, its items, the packed circles' names and the links. */
  datatype Layout = Layout(matrix: seq<seq<real>>, chords: seq<Item>, circles: seq<Item>,
                           packed: seq<string>, links: seq<Ribbon>)

  /**
   * The state the handlers change: `prevClicked`, the five class sets, the
   * shown chord and circle labels (by label id) and the notices so far.
   */
  datatype View = View(prevChords: seq<nat>, prevCircles: seq<nat>,
                       clicked: set<Element>, focus: set<Element>, blur: set<Element>,
                       mouseover: set<Element>, mouseout: set<Element>,
                       chordText: set<nat>, circleText: set<nat>, log: seq<Notice>)

  // ---------------------------------------------------------------------------
  // The drawn chart
  // ---------------------------------------------------------------------------

  /** A layout as drawing leaves it: a rectangular matrix and links between existing rows and columns. */
  predicate Drawn(L: Layout)
  {
    && Rectangular(L.matrix, |L.chords|, |L.circles|)
    && forall p :: 0 <= p < |L.links| ==> L.links[p].chordIndex < |L.chords| && L.links[p].circleIndex < |L.circles|
  }

  /** The items a handler index of this kind refers to: rows for chords, columns for circles. */
  function Items(L: Layout, kind: Kind): seq<Item>
  {
    if kind == ChordKind then L.chords else L.circles
  }

  /** How many elements (and text labels) of this kind are drawn: one arc per chord, one circle per packed circle. */
  function Drawable(L: Layout, kind: Kind): nat
  {
    if kind == ChordKind then |L.chords| else |L.packed|
  }

  function NodeElement(kind: Kind, pos: nat): Element
  {
    if kind == ChordKind then ChordArc(pos) else PackedCircle(pos)
  }

  /** Every `.chord` and every `.circle` element. */
  function Nodes(L: Layout): set<Element>
  {
    (set i | 0 <= i < |L.chords| :: ChordArc(i)) + (set q | 0 <= q < |L.packed| :: PackedCircle(q))
  }

  /** Every `.link` element. */
  function Links(L: Layout): set<Element>
  {
    set p | 0 <= p < |L.links| :: LinkPath(p)
  }

  function AllElements(L: Layout): set<Element>
  {
    Nodes(L) + Links(L)
  }

  /** The index a link has at its end of this kind. */
  function EndOf(r: Ribbon, kind: Kind): nat
  {
    if kind == ChordKind then r.chordIndex else r.circleIndex
  }

  /** `.link-${kind}-${index}`: the links whose end of this kind is `index`. */
  function LinksOf(L: Layout, kind: Kind, index: nat): set<Element>
  {
    set p | 0 <= p < |L.links| && EndOf(L.links[p], kind) == index :: LinkPath(p)
  }

  /**
   * `.${kind}-${j}` for every j of `ids`: the element whose class carries
   * that number, when one is drawn. Elements are numbered by drawn position,
   * so a column index addresses the circle at that position of the pack list.
   */
  function Addressed(L: Layout, kind: Kind, ids: seq<nat>): set<Element>
  {
    set j | j in ids && j < Drawable(L, kind) :: NodeElement(kind, j)
  }

  /** `#${kind}-text-${j}` for every j of `ids`: the labels that exist. */
  function Labels(L: Layout, kind: Kind, ids: seq<nat>): set<nat>
  {
    set j | j in ids && j < Drawable(L, kind)
  }

  function Members(ids: seq<nat>): set<nat>
  {
    set j | j in ids
  }

  /** The nodes linked to node `index` of this kind: circles of a chord's row, chords of a circle's column. */
  function Linked(L: Layout, kind: Kind, index: nat): (r: seq<nat>)
    requires Drawn(L) && index < |Items(L, kind)|
    ensures InRange(r, |Items(L, Other(kind))|)
  {
    var r := if kind == ChordKind then LinkedCircles(L.matrix, index) else LinkedChords(L.matrix, index);
    assert forall t :: 0 <= t < |r| ==> r[t] in r;
    r
  }

  // ---------------------------------------------------------------------------
  // Notices
  // ---------------------------------------------------------------------------

  function InfoOf(L: Layout, kind: Kind, i: nat): Info
    requires i < |Items(L, kind)|
  {
    if kind == ChordKind then ChordInfo(L.chords[i]) else CircleInfo(L.circles[i])
  }

  function LinkInfoOf(r: Ribbon): Info
  {
    LinkInfo(r.chordIndex, r.circleIndex, r.chordName, r.circleName)
  }

  predicate InRange(ids: seq<nat>, n: nat)
  {
    forall t :: 0 <= t < |ids| ==> ids[t] < n
  }

  /** `onItemSelect` for each of `ids`, in order. */
  function Selections(L: Layout, kind: Kind, ids: seq<nat>): (r: seq<Notice>)
    requires InRange(ids, |Items(L, kind)|)
    ensures |r| == |ids|
  {
    if ids == [] then []
    else Selections(L, kind, ids[..|ids| - 1]) + [Select(InfoOf(L, kind, ids[|ids| - 1]))]
  }

  /** `onItemUnSelect` for each of `ids`, in order. */
  function Unselections(L: Layout, kind: Kind, ids: seq<nat>): (r: seq<Notice>)
    requires InRange(ids, |Items(L, kind)|)
    ensures |r| == |ids|
  {
    if ids == [] then []
    else Unselections(L, kind, ids[..|ids| - 1]) + [UnSelect(InfoOf(L, kind, ids[|ids| - 1]))]
  }

  /** The notices that take back `ns`: each `Select` becomes the `UnSelect` of the same item. */
  function Undo(ns: seq<Notice>): (r: seq<Notice>)
    ensures |r| == |ns|
  {
    if ns == [] then []
    else Undo(ns[..|ns| - 1]) + [UnSelect(ns[|ns| - 1].info)]
  }

  // ---------------------------------------------------------------------------
  // The state and its invariant
  // ---------------------------------------------------------------------------

  function Prev(v: View, kind: Kind): seq<nat>
  {
    if kind == ChordKind then v.prevChords else v.prevCircles
  }

  function Text(v: View, kind: Kind): set<nat>
  {
    if kind == ChordKind then v.chordText else v.circleText
  }

  function WithText(v: View, kind: Kind, text: set<nat>): View
  {
    if kind == ChordKind then v.(chordText := text) else v.(circleText := text)
  }

  /**
   * What every reachable view satisfies: `prevClicked` holds valid indices;
   * at most one element is clicked, it is focused, and something is focused
   * exactly when something is clicked; when something is focused every other
   * element is blurred and otherwise nothing is; the class sets hold drawn
   * elements and the shown labels exist.
   */
  predicate Consistent(L: Layout, v: View)
  {
    && InRange(v.prevChords, |L.chords|) && InRange(v.prevCircles, |L.circles|)
    && |v.clicked| <= 1 && v.clicked <= v.focus
    && (v.clicked == {} <==> v.focus == {})
    && v.blur == (if v.focus == {} then {} else AllElements(L) - v.focus)
    && v.focus <= AllElements(L) && v.mouseover <= AllElements(L) && v.mouseout <= AllElements(L)
    && (forall j :: j in v.chordText ==> j < |L.chords|)
    && (forall j :: j in v.circleText ==> j < |L.packed|)
  }

  /**
   * The view right after drawing: nothing selected or hovered, every chord
   * label hidden, and the circle labels shown that fit inside their circle.
   */
  function Initial(L: Layout, fits: set<nat>): View
  {
    View([], [], {}, {}, {}, {}, {}, {}, set q | q in fits && q < |L.packed|, [])
  }

  // ---------------------------------------------------------------------------
  // The handlers
  // ---------------------------------------------------------------------------

  /**
   * The start of every chord or circle click: hide the labels of the
   * previously clicked nodes and report each of them unselected, chords
   * first. Nothing else changes, and one notice is added per previous node.
   */
  function Unselect(L: Layout, v: View): (r: View)
    requires InRange(v.prevChords, |L.chords|) && InRange(v.prevCircles, |L.circles|)
    ensures r.prevChords == v.prevChords && r.prevCircles == v.prevCircles
    ensures r.clicked == v.clicked && r.focus == v.focus && r.blur == v.blur
    ensures r.mouseover == v.mouseover && r.mouseout == v.mouseout
    ensures forall j :: j in v.prevChords ==> j !in r.chordText
    ensures forall j :: j in v.prevCircles ==> j !in r.circleText
    ensures |r.log| == |v.log| + |v.prevChords| + |v.prevCircles|
  {
    v.(chordText := v.chordText - Members(v.prevChords),
       circleText := v.circleText - Members(v.prevCircles),
       log := v.log + Unselections(L, ChordKind, v.prevChords) + Unselections(L, CircleKind, v.prevCircles))
  }

  /**
   * `handleElementClick(elem, index, kind)`. After the previous nodes are
   * unselected, a clicked element is un-clicked and every focus and blur
   * cleared; otherwise the element becomes the one clicked element, it, its
   * links and its linked nodes are focused, everything else is blurred, the
   * labels of the node and its linked nodes are shown, the node and then its
   * linked nodes are reported selected and `prevClicked` records them.
   */
  function Click(L: Layout, v: View, elem: Element, index: nat, kind: Kind): (r: View)
    requires Drawn(L) && index < |Items(L, kind)|
    requires InRange(v.prevChords, |L.chords|) && InRange(v.prevCircles, |L.circles|)
    ensures InRange(r.prevChords, |L.chords|) && InRange(r.prevCircles, |L.circles|)
  {
    var u := Unselect(L, v);
    if elem in v.clicked then
      u.(clicked := v.clicked - {elem}, focus := {}, blur := {})
    else
      Highlight(L, u, elem, index, kind)
  }

  /**
   * The rest of a click on an unclicked node, from the view `u` in which
   * the previous nodes are already unselected.
   */
  function Highlight(L: Layout, u: View, elem: Element, index: nat, kind: Kind): (r: View)
    requires Drawn(L) && index < |Items(L, kind)|
    ensures InRange(r.prevChords, |L.chords|) && InRange(r.prevCircles, |L.circles|)
  {
    var other := Other(kind);
    var linked := Linked(L, kind, index);
    var focus := {elem} + LinksOf(L, kind, index) + Addressed(L, other, linked);
    var own := Labels(L, kind, [index]);
    var theirs := Labels(L, other, linked);
    View(if kind == ChordKind then [index] else linked,
         if kind == ChordKind then linked else [index],
         {elem}, focus, AllElements(L) - focus, u.mouseover, u.mouseout,
         u.chordText + (if kind == ChordKind then own else theirs),
         u.circleText + (if kind == ChordKind then theirs else own),
         u.log + [Select(InfoOf(L, kind, index))] + Selections(L, other, linked))
  }

  /**
   * `handleElementHover(elem, index, kind)`: nothing when the element is
   * clicked; otherwise the element, its links and its linked nodes become
   * exactly the hovered elements, every other node that is neither focused
   * nor clicked is dimmed, and their labels are shown.
   */
  function Hover(L: Layout, v: View, elem: Element, index: nat, kind: Kind): (r: View)
    requires Drawn(L) && index < |Items(L, kind)|
    ensures r.clicked == v.clicked && r.focus == v.focus && r.blur == v.blur
    ensures r.prevChords == v.prevChords && r.prevCircles == v.prevCircles && r.log == v.log
    ensures elem in v.clicked || elem in r.mouseover
  {
    if elem in v.clicked then v
    else
      var other := Other(kind);
      var linked := Linked(L, kind, index);
      var over := {elem} + LinksOf(L, kind, index) + Addressed(L, other, linked);
      var w := v.(mouseover := over, mouseout := Nodes(L) - v.focus - v.clicked - over);
      WithText(WithText(w, kind, Text(v, kind) + Labels(L, kind, [index])),
               other, Text(v, other) + Labels(L, other, linked))
  }

  /**
   * `handleElementLeave(elem, index, kind)`: every hover class is cleared;
   * unless the element is clicked or focused, the labels of the node and of
   * its linked nodes are hidden.
   */
  function Leave(L: Layout, v: View, elem: Element, index: nat, kind: Kind): (r: View)
    requires Drawn(L) && index < |Items(L, kind)|
    ensures r.mouseover == {} && r.mouseout == {}
    ensures r.clicked == v.clicked && r.focus == v.focus && r.blur == v.blur
    ensures r.prevChords == v.prevChords && r.prevCircles == v.prevCircles && r.log == v.log
  {
    var w := v.(mouseover := {}, mouseout := {});
    if elem in v.clicked || elem in v.focus then w
    else
      var other := Other(kind);
      WithText(WithText(w, kind, Text(v, kind) - {index}),
               other, Text(v, other) - Members(Linked(L, kind, index)))
  }

  /**
   * Hovering link p: unless it is clicked, it and its two ends join the
   * hovered elements (without clearing earlier ones), the labels of its ends
   * are shown, and every node neither focused, clicked nor hovered is dimmed.
   */
  function LinkHover(L: Layout, v: View, p: nat): (r: View)
    requires Drawn(L) && p < |L.links|
    ensures r.clicked == v.clicked && r.focus == v.focus && r.blur == v.blur
    ensures r.prevChords == v.prevChords && r.prevCircles == v.prevCircles && r.log == v.log
    ensures v.mouseover <= r.mouseover && v.mouseout <= r.mouseout
    ensures LinkPath(p) in v.clicked || LinkPath(p) in r.mouseover
  {
    var link := LinkPath(p);
    var r := L.links[p];
    if link in v.clicked then v
    else
      var over := v.mouseover + {link} + Addressed(L, ChordKind, [r.chordIndex])
                  + Addressed(L, CircleKind, [r.circleIndex]);
      v.(mouseover := over,
         mouseout := v.mouseout + (Nodes(L) - v.focus - v.clicked - over),
         chordText := v.chordText + Labels(L, ChordKind, [r.chordIndex]),
         circleText := v.circleText + Labels(L, CircleKind, [r.circleIndex]))
  }

  /**
   * Clicking link p. When it is clicked: hide its ends' labels, un-click it,
   * report it unselected and clear every focus and blur. Otherwise: show its
   * ends' labels and then hide those of the previously clicked nodes, make it
   * the one clicked element, record its ends in `prevClicked`, report the
   * link, its chord and its circle selected, focus exactly it and its ends
   * and blur everything else.
   */
  function LinkClick(L: Layout, v: View, p: nat): (r: View)
    requires Drawn(L) && p < |L.links|
    ensures LinkPath(p) in r.clicked <==> LinkPath(p) !in v.clicked
    ensures r.mouseover == v.mouseover && r.mouseout == v.mouseout
    ensures |r.log| == |v.log| + (if LinkPath(p) in v.clicked then 1 else 3) && r.log[..|v.log|] == v.log
  {
    var link := LinkPath(p);
    var r := L.links[p];
    if link in v.clicked then
      v.(chordText := v.chordText - {r.chordIndex}, circleText := v.circleText - {r.circleIndex},
         clicked := v.clicked - {link}, log := v.log + [UnSelect(LinkInfoOf(r))],
         focus := {}, blur := {})
    else
      var focus := {link} + Addressed(L, ChordKind, [r.chordIndex]) + Addressed(L, CircleKind, [r.circleIndex]);
      v.(chordText := (v.chordText + Labels(L, ChordKind, [r.chordIndex])) - Members(v.prevChords),
         circleText := (v.circleText + Labels(L, CircleKind, [r.circleIndex])) - Members(v.prevCircles),
         clicked := {link}, prevChords := [r.chordIndex], prevCircles := [r.circleIndex],
         log := v.log + [Select(LinkInfoOf(r)), Select(ChordRowInfo(L.chords[r.chordIndex], r.chordIndex)),
                         Select(CircleInfo(L.circles[r.circleIndex]))],
         focus := focus, blur := AllElements(L) - focus)
  }

  /** Leaving link p: the element leave handler for its chord end and then for its circle end. */
  function LinkLeave(L: Layout, v: View, p: nat): (r: View)
    requires Drawn(L) && p < |L.links|
    ensures r.mouseover == {} && r.mouseout == {}
    ensures r.clicked == v.clicked && r.focus == v.focus && r.blur == v.blur
    ensures r.prevChords == v.prevChords && r.prevCircles == v.prevCircles && r.log == v.log
  {
    var r := L.links[p];
    Leave(L, Leave(L, v, LinkPath(p), r.chordIndex, ChordKind), LinkPath(p), r.circleIndex, CircleKind)
  }

  // ---------------------------------------------------------------------------
  // Properties of the handlers
  // ---------------------------------------------------------------------------

  lemma SingletonMinus(s: set<Element>, x: Element)
    requires |s| <= 1 && x in s
    ensures s - {x} == {}
  {
    var rest := s - {x};
    assert s == rest + {x};
    assert |s| == |rest| + 1;
  }

  lemma NodesAndLinks(L: Layout, kind: Kind, index: nat, ids: seq<nat>)
    ensures LinksOf(L, kind, index) <= Links(L)
    ensures Addressed(L, kind, ids) <= Nodes(L)
    ensures forall j :: j in Labels(L, kind, ids) ==> j < Drawable(L, kind)
  {
  }

  /** The view right after drawing is consistent. */
  lemma InitialConsistent(L: Layout, fits: set<nat>)
    ensures Consistent(L, Initial(L, fits))
  {
  }

  /** Clicking a chord or a circle keeps the view consistent. */
  lemma ClickConsistent(L: Layout, v: View, elem: Element, index: nat, kind: Kind)
    requires Drawn(L) && Consistent(L, v) && elem in Nodes(L) && index < |Items(L, kind)|
    ensures Consistent(L, Click(L, v, elem, index, kind))
  {
    if elem in v.clicked {
      SingletonMinus(v.clicked, elem);
    } else {
      NodesAndLinks(L, kind, index, [index]);
      NodesAndLinks(L, Other(kind), index, Linked(L, kind, index));
    }
  }

  /** Hovering a chord or a circle keeps the view consistent. */
  lemma HoverConsistent(L: Layout, v: View, elem: Element, index: nat, kind: Kind)
    requires Drawn(L) && Consistent(L, v) && elem in Nodes(L) && index < |Items(L, kind)|
    ensures Consistent(L, Hover(L, v, elem, index, kind))
  {
    NodesAndLinks(L, kind, index, [index]);
    NodesAndLinks(L, Other(kind), index, Linked(L, kind, index));
  }

  /** Leaving a chord, a circle or a link keeps the view consistent. */
  lemma LeaveConsistent(L: Layout, v: View, elem: Element, index: nat, kind: Kind)
    requires Drawn(L) && Consistent(L, v) && index < |Items(L, kind)|
    ensures Consistent(L, Leave(L, v, elem, index, kind))
  {
  }

  /** Hovering a link keeps the view consistent. */
  lemma LinkHoverConsistent(L: Layout, v: View, p: nat)
    requires Drawn(L) && Consistent(L, v) && p < |L.links|
    ensures Consistent(L, LinkHover(L, v, p))
  {
    var r := L.links[p];
    NodesAndLinks(L, ChordKind, r.chordIndex, [r.chordIndex]);
    NodesAndLinks(L, CircleKind, r.circleIndex, [r.circleIndex]);
  }

  /** Clicking a link keeps the view consistent. */
  lemma LinkClickConsistent(L: Layout, v: View, p: nat)
    requires Drawn(L) && Consistent(L, v) && p < |L.links|
    ensures Consistent(L, LinkClick(L, v, p))
  {
    var r := L.links[p];
    NodesAndLinks(L, ChordKind, r.chordIndex, [r.chordIndex]);
    NodesAndLinks(L, CircleKind, r.circleIndex, [r.circleIndex]);
    if LinkPath(p) in v.clicked {
      SingletonMinus(v.clicked, LinkPath(p));
    }
  }

  /** Leaving a link keeps the view consistent. */
  lemma LinkLeaveConsistent(L: Layout, v: View, p: nat)
    requires Drawn(L) && Consistent(L, v) && p < |L.links|
    ensures Consistent(L, LinkLeave(L, v, p))
  {
    var r := L.links[p];
    LeaveConsistent(L, v, LinkPath(p), r.chordIndex, ChordKind);
    LeaveConsistent(L, Leave(L, v, LinkPath(p), r.chordIndex, ChordKind), LinkPath(p), r.circleIndex, CircleKind);
  }

  /** Node j of the other kind shares a non-zero cell with node `index` of this kind. */
  predicate LinkedCell(L: Layout, kind: Kind, index: nat, j: nat)
    requires Drawn(L) && index < |Items(L, kind)|
  {
    if kind == ChordKind then j < |L.circles| && L.matrix[index][j] != 0.0
    else j < |L.chords| && L.matrix[j][index] != 0.0
  }

  /**
   * Which elements a node's highlight reaches, read off the matrix: the links
   * whose end of that kind is the node, and the elements of the other kind
   * drawn at a position whose index has a non-zero cell with the node.
   */
  predicate Reaches(L: Layout, kind: Kind, index: nat, x: Element)
    requires Drawn(L) && index < |Items(L, kind)|
  {
    match x
    case LinkPath(p) => p < |L.links| && EndOf(L.links[p], kind) == index
    case ChordArc(i) => kind == CircleKind && i < |L.chords| && L.matrix[i][index] != 0.0
    case PackedCircle(q) => kind == ChordKind && q < |L.packed| && q < |L.circles| && L.matrix[index][q] != 0.0
  }

  /**
   * Clicking an unclicked node: it is the only clicked element; an element
   * is focused exactly when it is the node or the node reaches it through a
   * non-zero cell or a link; every other element is blurred; `prevClicked`
   * holds the node for its kind and exactly the indices with a non-zero cell
   * for the other kind, ascending; the notices are the unselections of the
   * old `prevClicked`, then the node's selection, then its linked nodes'.
   */
  lemma ClickSelects(L: Layout, v: View, elem: Element, index: nat, kind: Kind)
    requires Drawn(L) && Consistent(L, v) && elem in Nodes(L) && index < |Items(L, kind)|
    requires elem !in v.clicked
    ensures var w := Click(L, v, elem, index, kind);
      && w.clicked == {elem}
      && (forall x :: x in w.focus <==> x == elem || Reaches(L, kind, index, x))
      && (forall x :: x in w.blur <==> x in AllElements(L) && x !in w.focus)
      && Prev(w, kind) == [index]
      && Increasing(Prev(w, Other(kind)))
      && (forall j: nat :: j in Prev(w, Other(kind)) <==> LinkedCell(L, kind, index, j))
      && w.log == v.log + Unselections(L, ChordKind, v.prevChords) + Unselections(L, CircleKind, v.prevCircles)
                  + [Select(InfoOf(L, kind, index))] + Selections(L, Other(kind), Prev(w, Other(kind)))
  {
    var w := Click(L, v, elem, index, kind);
    var reach := LinksOf(L, kind, index) + Addressed(L, Other(kind), Linked(L, kind, index));
    assert w.focus == {elem} + reach;
    forall x ensures x in reach <==> Reaches(L, kind, index, x) {
      HighlightReaches(L, kind, index, x);
    }
  }

  /** The links and addressed linked nodes of a node are exactly what it reaches. */
  lemma HighlightReaches(L: Layout, kind: Kind, index: nat, x: Element)
    requires Drawn(L) && index < |Items(L, kind)|
    ensures x in LinksOf(L, kind, index) + Addressed(L, Other(kind), Linked(L, kind, index))
            <==> Reaches(L, kind, index, x)
  {
    var linked := Linked(L, kind, index);
    match x
    case LinkPath(p) =>
    case ChordArc(i) =>
      if kind == CircleKind && i < |L.chords| && L.matrix[i][index] != 0.0 {
        assert i in linked;
        assert x == NodeElement(Other(kind), i);
      }
    case PackedCircle(q) =>
      if kind == ChordKind && q < |L.packed| && q < |L.circles| && L.matrix[index][q] != 0.0 {
        assert q in linked;
        assert x == NodeElement(Other(kind), q);
      }
  }

  lemma {:induction false} UndoConcat(a: seq<Notice>, b: seq<Notice>)
    ensures Undo(a + b) == Undo(a) + Undo(b)
  {
    if b != [] {
      var n := |b| - 1;
      assert (a + b)[..|a + b| - 1] == a + b[..n];
      UndoConcat(a, b[..n]);
    } else {
      assert a + b == a;
    }
  }

  /** Taking back the selections of `ids` reports each of them unselected, in the same order. */
  lemma {:induction false} UndoSelections(L: Layout, kind: Kind, ids: seq<nat>)
    requires InRange(ids, |Items(L, kind)|)
    ensures Undo(Selections(L, kind, ids)) == Unselections(L, kind, ids)
  {
    if ids != [] {
      var n := |ids| - 1;
      UndoSelections(L, kind, ids[..n]);
      UndoConcat(Selections(L, kind, ids[..n]), [Select(InfoOf(L, kind, ids[n]))]);
    }
  }

  /**
   * Clicking an unclicked node twice: the second click clears every clicked,
   * focus and blur class, keeps `prevClicked`, and reports unselected exactly
   * the items the first click reported selected (chords first, so a circle's
   * own notice moves behind those of its linked chords).
   */
  lemma ClickTwice(L: Layout, v: View, elem: Element, index: nat, kind: Kind)
    requires Drawn(L) && index < |Items(L, kind)|
    requires InRange(v.prevChords, |L.chords|) && InRange(v.prevCircles, |L.circles|)
    requires elem !in v.clicked
    ensures var w := Click(L, v, elem, index, kind);
      var u := Click(L, w, elem, index, kind);
      var picked := w.log[|Unselect(L, v).log|..];
      && u.clicked == {} && u.focus == {} && u.blur == {}
      && u.prevChords == w.prevChords && u.prevCircles == w.prevCircles
      && |picked| >= 1
      && u.log == w.log + if kind == ChordKind then Undo(picked) else Undo(picked[1..]) + Undo(picked[..1])
  {
    ClickOn(L, v, elem, index, kind);
    ClickAgain(L, Click(L, v, elem, index, kind), elem, index, kind, Unselect(L, v).log);
  }

  /** The second click of `ClickTwice`, on the view the first one left. */
  lemma ClickAgain(L: Layout, w: View, elem: Element, index: nat, kind: Kind, before: seq<Notice>)
    requires Drawn(L) && index < |Items(L, kind)|
    requires w.clicked == {elem}
    requires Prev(w, kind) == [index] && Prev(w, Other(kind)) == Linked(L, kind, index)
    requires InRange(w.prevChords, |L.chords|) && InRange(w.prevCircles, |L.circles|)
    requires w.log == before + [Select(InfoOf(L, kind, index))] + Selections(L, Other(kind), Linked(L, kind, index))
    ensures var u := Click(L, w, elem, index, kind);
      var picked := w.log[|before|..];
      && u.clicked == {} && u.focus == {} && u.blur == {}
      && u.prevChords == w.prevChords && u.prevCircles == w.prevCircles
      && |picked| >= 1
      && u.log == w.log + if kind == ChordKind then Undo(picked) else Undo(picked[1..]) + Undo(picked[..1])
  {
    ToggleOff(L, w, elem, index, kind);
    UndoPicked(L, w, index, kind, before);
  }

  /**
   * Taking back what a click on an unclicked node reported: its own
   * selection and those of its linked nodes, reordered chords first, are
   * the unselections of the `prevClicked` it recorded.
   */
  lemma UndoPicked(L: Layout, w: View, index: nat, kind: Kind, before: seq<Notice>)
    requires Drawn(L) && index < |Items(L, kind)|
    requires Prev(w, kind) == [index] && Prev(w, Other(kind)) == Linked(L, kind, index)
    requires InRange(w.prevChords, |L.chords|) && InRange(w.prevCircles, |L.circles|)
    requires w.log == before + [Select(InfoOf(L, kind, index))] + Selections(L, Other(kind), Linked(L, kind, index))
    ensures var picked := w.log[|before|..];
      && |picked| >= 1
      && (if kind == ChordKind then Undo(picked) else Undo(picked[1..]) + Undo(picked[..1]))
         == Unselections(L, ChordKind, w.prevChords) + Unselections(L, CircleKind, w.prevCircles)
  {
    var linked := Linked(L, kind, index);
    var own := [Select(InfoOf(L, kind, index))];
    var picked := w.log[|before|..];
    assert w.log == before + (own + Selections(L, Other(kind), linked));
    assert picked == own + Selections(L, Other(kind), linked);
    assert picked[..1] == own && picked[1..] == Selections(L, Other(kind), linked);
    UndoConcat(own, Selections(L, Other(kind), linked));
    UndoSelections(L, Other(kind), linked);
    UndoSelections(L, kind, [index]);
    assert Selections(L, kind, [index]) == own;
    if kind == ChordKind {
      assert w.prevChords == [index] && w.prevCircles == linked;
    } else {
      assert w.prevChords == linked && w.prevCircles == [index];
    }
  }

  /** What a click on an unclicked node records and reports. */
  lemma ClickOn(L: Layout, v: View, elem: Element, index: nat, kind: Kind)
    requires Drawn(L) && index < |Items(L, kind)|
    requires InRange(v.prevChords, |L.chords|) && InRange(v.prevCircles, |L.circles|)
    requires elem !in v.clicked
    ensures var w := Click(L, v, elem, index, kind);
      && w.clicked == {elem}
      && Prev(w, kind) == [index] && Prev(w, Other(kind)) == Linked(L, kind, index)
      && InRange(w.prevChords, |L.chords|) && InRange(w.prevCircles, |L.circles|)
      && w.log == Unselect(L, v).log + [Select(InfoOf(L, kind, index))]
                  + Selections(L, Other(kind), Linked(L, kind, index))
  {
  }

  /** A click on the clicked element only unselects `prevClicked` and clears clicked, focus and blur. */
  lemma ToggleOff(L: Layout, v: View, elem: Element, index: nat, kind: Kind)
    requires Drawn(L) && index < |Items(L, kind)|
    requires InRange(v.prevChords, |L.chords|) && InRange(v.prevCircles, |L.circles|)
    requires |v.clicked| <= 1 && elem in v.clicked
    ensures Click(L, v, elem, index, kind) == Unselect(L, v).(clicked := {}, focus := {}, blur := {})
    ensures var w := Click(L, v, elem, index, kind);
      && w.prevChords == v.prevChords && w.prevCircles == v.prevCircles
      && w.log == v.log + (Unselections(L, ChordKind, v.prevChords) + Unselections(L, CircleKind, v.prevCircles))
  {
    SingletonMinus(v.clicked, elem);
  }

  /** Every click starts by reporting the old `prevClicked` unselected, chords first. */
  lemma ClickUnselectsFirst(L: Layout, v: View, elem: Element, index: nat, kind: Kind)
    requires Drawn(L) && index < |Items(L, kind)|
    requires InRange(v.prevChords, |L.chords|) && InRange(v.prevCircles, |L.circles|)
    ensures var w := Click(L, v, elem, index, kind);
      var gone := Unselections(L, ChordKind, v.prevChords) + Unselections(L, CircleKind, v.prevCircles);
      && |v.log| + |gone| <= |w.log|
      && w.log[..|v.log| + |gone|] == v.log + gone
  {
    var gone := Unselections(L, ChordKind, v.prevChords) + Unselections(L, CircleKind, v.prevCircles);
    var tail := ClickLog(L, v, elem, index, kind);
    assert Unselect(L, v).log == v.log + gone;
    assert ((v.log + gone) + tail)[..|v.log + gone|] == v.log + gone;
  }

  /** A click only appends notices to those of the unselection. */
  lemma ClickLog(L: Layout, v: View, elem: Element, index: nat, kind: Kind) returns (tail: seq<Notice>)
    requires Drawn(L) && index < |Items(L, kind)|
    requires InRange(v.prevChords, |L.chords|) && InRange(v.prevCircles, |L.circles|)
    ensures Click(L, v, elem, index, kind).log == Unselect(L, v).log + tail
  {
    if elem in v.clicked {
      tail := [];
    } else {
      tail := HighlightLog(L, Unselect(L, v), elem, index, kind);
    }
  }

  /** The highlight step only appends notices: the node's selection and then its linked nodes'. */
  lemma HighlightLog(L: Layout, u: View, elem: Element, index: nat, kind: Kind) returns (tail: seq<Notice>)
    requires Drawn(L) && index < |Items(L, kind)|
    ensures Highlight(L, u, elem, index, kind).log == u.log + tail
    ensures |tail| >= 1 && tail[0] == Select(InfoOf(L, kind, index))
  {
    tail := [Select(InfoOf(L, kind, index))] + Selections(L, Other(kind), Linked(L, kind, index));
  }

  /**
   * Hover and then leave on a node that is not focused, when its label and
   * those of its linked nodes were hidden: everything is as before except
   * that no element keeps a hover class.
   */
  lemma HoverThenLeave(L: Layout, v: View, elem: Element, index: nat, kind: Kind)
    requires Drawn(L) && Consistent(L, v) && index < |Items(L, kind)|
    requires elem !in v.focus
    requires index !in Text(v, kind)
    requires forall j :: j in Linked(L, kind, index) ==> j !in Text(v, Other(kind))
    ensures Leave(L, Hover(L, v, elem, index, kind), elem, index, kind) == v.(mouseover := {}, mouseout := {})
  {
    var h := Hover(L, v, elem, index, kind);
    var linked := Linked(L, kind, index);
    assert Text(h, kind) - {index} == Text(v, kind);
    assert Text(h, Other(kind)) - Members(linked) == Text(v, Other(kind));
  }

  /**
   * Hovering a node leaves selection alone: clicked, focus, blur,
   * `prevClicked` and the notices are unchanged, and hovering a clicked node
   * changes nothing at all. Otherwise an element is hovered exactly when it
   * is the node or the node reaches it, and a node is dimmed exactly when it
   * is neither focused, clicked nor hovered.
   */
  lemma HoverKeepsSelection(L: Layout, v: View, elem: Element, index: nat, kind: Kind)
    requires Drawn(L) && index < |Items(L, kind)|
    ensures var h := Hover(L, v, elem, index, kind);
      && (elem in v.clicked ==> h == v)
      && h.clicked == v.clicked && h.focus == v.focus && h.blur == v.blur
      && h.prevChords == v.prevChords && h.prevCircles == v.prevCircles && h.log == v.log
      && (elem !in v.clicked ==>
            && (forall x :: x in h.mouseover <==> x == elem || Reaches(L, kind, index, x))
            && h.mouseover !! h.mouseout
            && (forall x :: x in h.mouseout <==>
                  x in Nodes(L) && x !in v.focus && x !in v.clicked && x !in h.mouseover))
  {
    if elem !in v.clicked {
      forall x ensures x in Hover(L, v, elem, index, kind).mouseover <==> x == elem || Reaches(L, kind, index, x) {
        HighlightReaches(L, kind, index, x);
      }
    }
  }

  /**
   * Leaving an element clears every hover class and changes no selection.
   * When the element is clicked or focused no label changes; otherwise the
   * node's label is hidden and, of the other kind, exactly the labels of the
   * nodes sharing a non-zero cell with it.
   */
  lemma LeaveHides(L: Layout, v: View, elem: Element, index: nat, kind: Kind)
    requires Drawn(L) && index < |Items(L, kind)|
    ensures var w := Leave(L, v, elem, index, kind);
      && w.mouseover == {} && w.mouseout == {}
      && w.clicked == v.clicked && w.focus == v.focus && w.blur == v.blur
      && w.prevChords == v.prevChords && w.prevCircles == v.prevCircles && w.log == v.log
      && (elem in v.clicked || elem in v.focus ==> w.chordText == v.chordText && w.circleText == v.circleText)
      && (elem !in v.clicked && elem !in v.focus ==>
            && Text(w, kind) == Text(v, kind) - {index}
            && forall j: nat :: j in Text(w, Other(kind)) <==> j in Text(v, Other(kind)) && !LinkedCell(L, kind, index, j))
  {
    var linked := Linked(L, kind, index);
    forall j: nat ensures j in Members(linked) <==> LinkedCell(L, kind, index, j) {
    }
  }

  /**
   * Clicking an unclicked link: it is the only clicked element, exactly it
   * and its two ends are focused and everything else is blurred,
   * `prevClicked` holds its two ends, and the link, its chord and its circle
   * are reported selected in that order with no unselection.
   */
  lemma LinkClickSelects(L: Layout, v: View, p: nat)
    requires Drawn(L) && p < |L.links| && LinkPath(p) !in v.clicked
    ensures var w := LinkClick(L, v, p);
      var r := L.links[p];
      && w.clicked == {LinkPath(p)}
      && (forall x :: x in w.focus <==>
            x == LinkPath(p) || x == ChordArc(r.chordIndex)
            || (x == PackedCircle(r.circleIndex) && r.circleIndex < |L.packed|))
      && (forall x :: x in w.blur <==> x in AllElements(L) && x !in w.focus)
      && w.prevChords == [r.chordIndex] && w.prevCircles == [r.circleIndex]
      && w.log == v.log + [Select(LinkInfoOf(r)), Select(ChordRowInfo(L.chords[r.chordIndex], r.chordIndex)),
                           Select(CircleInfo(L.circles[r.circleIndex]))]
  {
    var r := L.links[p];
    forall x ensures x in Addressed(L, ChordKind, [r.chordIndex]) <==> x == ChordArc(r.chordIndex) {
      if x == ChordArc(r.chordIndex) {
        assert r.chordIndex in [r.chordIndex] && x == NodeElement(ChordKind, r.chordIndex);
      }
    }
    forall x ensures x in Addressed(L, CircleKind, [r.circleIndex])
                     <==> x == PackedCircle(r.circleIndex) && r.circleIndex < |L.packed| {
      if x == PackedCircle(r.circleIndex) && r.circleIndex < |L.packed| {
        assert r.circleIndex in [r.circleIndex] && x == NodeElement(CircleKind, r.circleIndex);
      }
    }
  }

  /**
   * Clicking a link twice: the second click clears every clicked, focus and
   * blur class, hides its ends' labels and reports only the link
   * unselected; its chord and circle stay reported selected and stay in
   * `prevClicked`.
   */
  lemma LinkClickTwice(L: Layout, v: View, p: nat)
    requires Drawn(L) && p < |L.links| && LinkPath(p) !in v.clicked
    ensures var w := LinkClick(L, v, p);
      var u := LinkClick(L, w, p);
      var r := L.links[p];
      && u.clicked == {} && u.focus == {} && u.blur == {}
      && u.log == w.log + [UnSelect(LinkInfoOf(r))]
      && u.prevChords == [r.chordIndex] && u.prevCircles == [r.circleIndex]
      && r.chordIndex !in u.chordText && r.circleIndex !in u.circleText
  {
  }

  /**
   * A link click hides the label of a previously clicked node even when it
   * is one of the link's own ends: the label is shown and then hidden again.
   */
  lemma LinkClickHidesPrevious(L: Layout, v: View, p: nat)
    requires Drawn(L) && p < |L.links| && LinkPath(p) !in v.clicked
    ensures forall j :: j in v.prevChords ==> j !in LinkClick(L, v, p).chordText
    ensures forall j :: j in v.prevCircles ==> j !in LinkClick(L, v, p).circleText
    ensures L.links[p].chordIndex !in v.prevChords ==> L.links[p].chordIndex in LinkClick(L, v, p).chordText
  {
  }

  /**
   * Toggling a node off keeps `prevClicked`, so whatever is clicked next
   * first reports those same items unselected once more.
   */
  lemma StalePrevious(L: Layout, v: View, elem: Element, index: nat, kind: Kind,
                      next: Element, nextIndex: nat, nextKind: Kind)
    requires Drawn(L) && index < |Items(L, kind)| && nextIndex < |Items(L, nextKind)|
    requires InRange(v.prevChords, |L.chords|) && InRange(v.prevCircles, |L.circles|)
    requires |v.clicked| <= 1 && elem in v.clicked
    ensures var w := Click(L, v, elem, index, kind);
      var stale := Unselections(L, ChordKind, v.prevChords) + Unselections(L, CircleKind, v.prevCircles);
      && w.clicked == {} && w.focus == {} && w.blur == {}
      && w.prevChords == v.prevChords && w.prevCircles == v.prevCircles
      && w.log == v.log + stale
      && Click(L, w, next, nextIndex, nextKind).log[..|w.log| + |stale|] == w.log + stale
  {
    ToggleOff(L, v, elem, index, kind);
    ClickUnselectsFirst(L, Click(L, v, elem, index, kind), next, nextIndex, nextKind);
  }
}
