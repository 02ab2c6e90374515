/**
 * The chart component as an object: the layout computed when it is drawn
 * and the state its event handlers change in place (`prevClicked`, the
 * class sets of the drawn elements, the shown text labels and the notices
 * passed to the callbacks). Every handler runs the loops the component
 * runs and is proved to leave the state the corresponding function of
 * module Selection describes, so every property proved there holds of it.
 */
module Chart {
  import opened Utils
  import opened Matrix
  import opened Ribbons
  import opened Selection

  /** Every packed circle carries the name of one of the circles, as the pack is built from them. */
  predicate PackedNamed(L: Layout)
  {
    forall q :: 0 <= q < |L.packed| ==> L.packed[q] in Names(L.circles)
  }

  /** The name an event on the node drawn at `pos` looks up: the arc's chord, or the packed circle's name. */
  function NodeName(L: Layout, kind: Kind, pos: nat): string
    requires pos < Drawable(L, kind)
  {
    if kind == ChordKind then L.chords[pos].name else L.packed[pos]
  }

  /**
   * The index the node event handlers pass on: the first item of that kind
   * whose name is the node's. It is in range, names the node, and for a
   * chord arc it is at most the arc's own position.
   */
  function DispatchIndex(L: Layout, kind: Kind, pos: nat): (r: nat)
    requires PackedNamed(L) && pos < Drawable(L, kind)
    ensures r < |Items(L, kind)| && Items(L, kind)[r].name == NodeName(L, kind, pos)
    ensures kind == ChordKind ==> r <= pos
    ensures kind == ChordKind && DistinctNames(L.chords) ==> r == pos
  {
    var items := Items(L, kind);
    if kind == ChordKind then
      FindOwnName(L.chords, pos);
      FindIndex(items, NodeName(L, kind, pos))
    else
      var names := Names(L.circles);
      assert L.packed[pos] in names;
      var k :| 0 <= k < |names| && names[k] == L.packed[pos];
      assert items[k].name == NodeName(L, kind, pos);
      FindIndex(items, NodeName(L, kind, pos))
  }

  /**
   * The arcs of an unsorted pie over the chords, as the chart draws them:
   * when chord names are distinct, the walk finds arc k's row at k, and the
   * pieces of an arc whose row sum is not zero tile it from its start angle
   * to its end angle.
   */
  lemma DrawnArcsTile(chordNames: seq<string>, circleNames: seq<string>, m: seq<seq<real>>,
                      arcs: seq<Arc>, k: nat)
    requires Rectangular(m, |chordNames|, |circleNames|) && |circleNames| > 0
    requires |arcs| == |chordNames| && forall t :: 0 <= t < |arcs| ==> arcs[t].data == ChordItems(chordNames, m)[t]
    requires DistinctNames(ChordItems(chordNames, m)) && k < |arcs| && Sum(m[k]) != 0.0
    ensures FindIndex(ChordItems(chordNames, m), arcs[k].data.name) == k
    ensures var ps := ArcPieces(arcs[k], k, CircleItems(circleNames, m), m);
      && ps[0].start == Finite(arcs[k].startAngle)
      && (forall t :: 0 <= t < |ps| - 1 ==> ps[t + 1].start == ps[t].end)
      && ps[|ps| - 1].end == Finite(arcs[k].endAngle)
  {
    var chords := ChordItems(chordNames, m);
    var circles := CircleItems(circleNames, m);
    assert arcs[k] == Arc(chords[k], arcs[k].startAngle, arcs[k].endAngle);
    PieArcCoverage(chordNames, circles, m, k, arcs[k].startAngle, arcs[k].endAngle);
  }

  /**
   * A view with the fields a click on an unclicked node leaves, after the
   * previous nodes were unselected into `u`, is the view `Highlight` describes.
   */
  lemma HighlightFields(L: Layout, u: View, elem: Element, index: nat, kind: Kind, linked: seq<nat>, w: View)
    requires Drawn(L) && index < |Items(L, kind)| && linked == Linked(L, kind, index)
    requires InRange(linked, |Items(L, Other(kind))|)
    requires var other := Other(kind);
      && w.clicked == {elem} && w.mouseover == u.mouseover && w.mouseout == u.mouseout
      && w.focus == {elem} + LinksOf(L, kind, index) + Addressed(L, other, linked)
      && w.blur == AllElements(L) - w.focus
      && Prev(w, kind) == [index] && Prev(w, other) == linked
      && Text(w, kind) == Text(u, kind) + Labels(L, kind, [index])
      && Text(w, other) == Text(u, other) + Labels(L, other, linked)
      && w.log == u.log + [Select(InfoOf(L, kind, index))] + Selections(L, other, linked)
    ensures w == Highlight(L, u, elem, index, kind)
  {
  }

  /** Likewise for a hover on an unclicked node. */
  lemma HoverFields(L: Layout, v: View, elem: Element, index: nat, kind: Kind, w: View)
    requires Drawn(L) && index < |Items(L, kind)| && elem !in v.clicked
    requires var other := Other(kind);
      var linked := Linked(L, kind, index);
      && w.mouseover == {elem} + LinksOf(L, kind, index) + Addressed(L, other, linked)
      && w.mouseout == Nodes(L) - v.focus - v.clicked - w.mouseover
      && w.prevChords == v.prevChords && w.prevCircles == v.prevCircles
      && w.clicked == v.clicked && w.focus == v.focus && w.blur == v.blur && w.log == v.log
      && Text(w, kind) == Text(v, kind) + Labels(L, kind, [index])
      && Text(w, other) == Text(v, other) + Labels(L, other, linked)
    ensures w == Hover(L, v, elem, index, kind)
  {
  }

  /** Adding one more id to a prefix adds its element, its label and its member. */
  lemma PrefixStep(L: Layout, kind: Kind, ids: seq<nat>, t: nat)
    requires t < |ids|
    ensures Addressed(L, kind, ids[..t + 1]) == Addressed(L, kind, ids[..t]) + Addressed(L, kind, [ids[t]])
    ensures Labels(L, kind, ids[..t + 1]) == Labels(L, kind, ids[..t]) + Labels(L, kind, [ids[t]])
    ensures Members(ids[..t + 1]) == Members(ids[..t]) + {ids[t]}
  {
    assert ids[..t + 1] == ids[..t] + [ids[t]];
  }

  /** The notices for one more id of a prefix: those of the prefix and then its own. */
  lemma NoticeStep(L: Layout, kind: Kind, ids: seq<nat>, t: nat)
    requires InRange(ids, |Items(L, kind)|) && t < |ids|
    ensures InRange(ids[..t], |Items(L, kind)|) && InRange(ids[..t + 1], |Items(L, kind)|)
    ensures Selections(L, kind, ids[..t + 1]) == Selections(L, kind, ids[..t]) + [Select(InfoOf(L, kind, ids[t]))]
    ensures Unselections(L, kind, ids[..t + 1]) == Unselections(L, kind, ids[..t]) + [UnSelect(InfoOf(L, kind, ids[t]))]
  {
    assert ids[..t + 1][..t] == ids[..t];
  }

  lemma UnionStep<T>(a: set<T>, b: set<T>, c: set<T>)
    ensures (a + b) + c == a + (b + c)
  {
  }

  lemma DiffStep<T>(a: set<T>, b: set<T>, c: set<T>)
    ensures (a - b) - c == a - (b + c)
  {
  }

  /** The label of one id: itself when it is drawn, nothing otherwise. */
  lemma OneLabel(L: Layout, kind: Kind, j: nat)
    ensures Labels(L, kind, [j]) == if j < Drawable(L, kind) then {j} else {}
    ensures Addressed(L, kind, [j]) == if j < Drawable(L, kind) then {NodeElement(kind, j)} else {}
  {
  }

  class ChordPackChart {
    /** What the chart was drawn from: the matrix, the chord and circle items, the pack and the links. */
    const layout: Layout

    /** `prevClicked.current`: the nodes the last click selected. */
    var prevChords: seq<nat>
    var prevCircles: seq<nat>
    /** The elements carrying each class. */
    var clicked: set<Element>
    var focus: set<Element>
    var blur: set<Element>
    var mouseover: set<Element>
    var mouseout: set<Element>
    /** The ids of the chord and circle labels whose fill shows them. */
    var chordText: set<nat>
    var circleText: set<nat>
    /** Every notice passed to `onItemSelect` and `onItemUnSelect`, in order. */
    var log: seq<Notice>

    function State(): View
      reads this
    {
      View(prevChords, prevCircles, clicked, focus, blur, mouseover, mouseout, chordText, circleText, log)
    }

    /** The shown labels of one kind. */
    function Shown(kind: Kind): set<nat>
      reads this`chordText, this`circleText
    {
      if kind == ChordKind then chordText else circleText
    }

    /** `prevClicked` for one kind. */
    function Previous(kind: Kind): seq<nat>
      reads this`prevChords, this`prevCircles
    {
      if kind == ChordKind then prevChords else prevCircles
    }

    predicate Valid()
      reads this
    {
      Drawn(layout) && PackedNamed(layout) && Consistent(layout, State())
    }

    /**
     * Drawing the chart: the chord and circle totals of the matrix, the
     * links the ribbon walk produces, every chord label hidden and the
     * circle labels shown that fit inside their circle. The pie is unsorted,
     * so arc k is drawn for chord k and carries that chord's item.
     */
    constructor (chordNames: seq<string>, circleNames: seq<string>, m: seq<seq<real>>,
                 arcs: seq<Arc>, packed: seq<string>, degenerate: (real, real) -> bool, fits: set<nat>)
      requires Rectangular(m, |chordNames|, |circleNames|)
      requires |arcs| == |chordNames| && forall k :: 0 <= k < |arcs| ==> arcs[k].data == ChordItems(chordNames, m)[k]
      requires forall q :: 0 <= q < |packed| ==> packed[q] in circleNames
      ensures layout.matrix == m && layout.packed == packed
      ensures layout.chords == ChordItems(chordNames, m) && layout.circles == CircleItems(circleNames, m)
      ensures layout.links == AllRibbons(arcs, layout.chords, layout.circles, m, packed, degenerate)
      ensures State() == Initial(layout, fits)
      ensures Valid()
    {
      var chords := ChordItems(chordNames, m);
      var circles := CircleItems(circleNames, m);
      var links := RibbonWalk(arcs, chords, circles, m, packed, degenerate);
      layout := Layout(m, chords, circles, packed, links);
      prevChords, prevCircles := [], [];
      clicked, focus, blur, mouseover, mouseout := {}, {}, {}, {}, {};
      chordText := {};
      circleText := set q | q in fits && q < |packed|;
      log := [];
      new;
      forall p | 0 <= p < |links| ensures links[p].chordIndex < |chords| && links[p].circleIndex < |circles| {
        assert links[p] in links;
      }
      assert Names(circles) == circleNames;
      InitialConsistent(layout, fits);
    }

    /** `emphasizeText(kind, index)`: the label's fill shows it, when that label exists. */
    method EmphasizeText(kind: Kind, index: nat)
      modifies this`chordText, this`circleText
      ensures Shown(kind) == old(Shown(kind)) + Labels(layout, kind, [index])
      ensures Shown(Other(kind)) == old(Shown(Other(kind)))
    {
      OneLabel(layout, kind, index);
      if index < Drawable(layout, kind) {
        if kind == ChordKind {
          chordText := chordText + {index};
        } else {
          circleText := circleText + {index};
        }
      }
    }

    /** `cancleEmphasizeText(kind, index)`: the label's fill hides it. */
    method CancelEmphasizeText(kind: Kind, index: nat)
      modifies this`chordText, this`circleText
      ensures Shown(kind) == old(Shown(kind)) - {index}
      ensures Shown(Other(kind)) == old(Shown(Other(kind)))
    {
      if kind == ChordKind {
        chordText := chordText - {index};
      } else {
        circleText := circleText - {index};
      }
    }

    /** Hides the label of each of `ids` in turn. */
    method CancelAll(kind: Kind, ids: seq<nat>)
      modifies this`chordText, this`circleText
      ensures Shown(kind) == old(Shown(kind)) - Members(ids)
      ensures Shown(Other(kind)) == old(Shown(Other(kind)))
    {
      for t := 0 to |ids|
        invariant Shown(kind) == old(Shown(kind)) - Members(ids[..t])
        invariant Shown(Other(kind)) == old(Shown(Other(kind)))
      {
        PrefixStep(layout, kind, ids, t);
        CancelEmphasizeText(kind, ids[t]);
      }
      assert ids[..|ids|] == ids;
    }

    /** Hides the label of each of `ids` in turn and reports each unselected. */
    method UnselectAll(kind: Kind, ids: seq<nat>)
      requires InRange(ids, |Items(layout, kind)|)
      modifies this`chordText, this`circleText, this`log
      ensures Shown(kind) == old(Shown(kind)) - Members(ids)
      ensures Shown(Other(kind)) == old(Shown(Other(kind)))
      ensures log == old(log) + Unselections(layout, kind, ids)
    {
      for t := 0 to |ids|
        invariant Shown(kind) == old(Shown(kind)) - Members(ids[..t])
        invariant Shown(Other(kind)) == old(Shown(Other(kind)))
        invariant log == old(log) + Unselections(layout, kind, ids[..t])
      {
        PrefixStep(layout, kind, ids, t);
        NoticeStep(layout, kind, ids, t);
        CancelEmphasizeText(kind, ids[t]);
        log := log + [UnSelect(InfoOf(layout, kind, ids[t]))];
      }
      assert ids[..|ids|] == ids;
    }

    /** The loops that open every node click: each previous chord, then each previous circle, unselected. */
    method UnselectPrevious()
      requires InRange(prevChords, |layout.chords|) && InRange(prevCircles, |layout.circles|)
      modifies this`chordText, this`circleText, this`log
      ensures State() == Unselect(layout, old(State()))
    {
      UnselectAll(ChordKind, prevChords);
      UnselectAll(CircleKind, prevCircles);
    }

    /** `handleElementClick(elem, index, kind)`. */
    method HandleElementClick(elem: Element, index: nat, kind: Kind)
      requires Valid() && elem in Nodes(layout) && index < |Items(layout, kind)|
      modifies this
      ensures State() == Click(layout, old(State()), elem, index, kind)
      ensures Valid()
    {
      ClickConsistent(layout, State(), elem, index, kind);
      UnselectPrevious();
      if elem in clicked {
        Unclick(elem);
      } else {
        HighlightNode(elem, index, kind);
      }
    }

    /** A click on the clicked element, after the unselection: it is un-clicked and every focus and blur cleared. */
    method Unclick(elem: Element)
      modifies this`clicked, this`blur, this`focus
      ensures clicked == old(clicked) - {elem} && blur == {} && focus == {}
    {
      clicked := clicked - {elem};
      blur := {};
      focus := {};
    }

    /** A click on an unclicked node, after the unselection: the view `Highlight` describes. */
    method HighlightNode(elem: Element, index: nat, kind: Kind)
      requires Drawn(layout) && index < |Items(layout, kind)|
      modifies this
      ensures State() == Highlight(layout, old(State()), elem, index, kind)
    {
      ghost var u := State();
      var linked := Linked(layout, kind, index);
      SelectNode(elem, index, kind, linked);
      HighlightFields(layout, u, elem, index, kind, linked, State());
    }

    /**
     * The rest of a click on an unclicked node: the node itself is selected,
     * `prevClicked` takes its linked nodes, and those are highlighted.
     */
    method SelectNode(elem: Element, index: nat, kind: Kind, linked: seq<nat>)
      requires index < |Items(layout, kind)| && InRange(linked, |Items(layout, Other(kind))|)
      modifies this`prevChords, this`prevCircles, this`clicked, this`focus, this`blur
      modifies this`chordText, this`circleText, this`log
      ensures var other := Other(kind);
        && clicked == {elem}
        && focus == {elem} + LinksOf(layout, kind, index) + Addressed(layout, other, linked)
        && blur == AllElements(layout) - focus
        && Previous(kind) == [index] && Previous(other) == linked
        && Shown(kind) == old(Shown(kind)) + Labels(layout, kind, [index])
        && Shown(other) == old(Shown(other)) + Labels(layout, other, linked)
        && log == old(log) + [Select(InfoOf(layout, kind, index))] + Selections(layout, other, linked)
    {
      ClickNode(elem, index, kind);
      var other := Other(kind);
      if other == ChordKind {
        prevChords := linked;
      } else {
        prevCircles := linked;
      }
      DiffStep(AllElements(layout), focus, Addressed(layout, other, linked));
      HighlightLinked(other, linked);
    }

    /**
     * The click on the node itself: `.clicked`, `.blur` and `.focus` are
     * cleared, the node alone is clicked, `prevClicked` of its kind holds it,
     * it is reported selected and its label shown, and everything is blurred
     * except the node and its links, which are focused.
     */
    method ClickNode(elem: Element, index: nat, kind: Kind)
      requires index < |Items(layout, kind)|
      modifies this`prevChords, this`prevCircles, this`clicked, this`focus, this`blur
      modifies this`chordText, this`circleText, this`log
      ensures clicked == {elem}
      ensures focus == {elem} + LinksOf(layout, kind, index)
      ensures blur == AllElements(layout) - focus
      ensures Previous(kind) == [index] && Previous(Other(kind)) == old(Previous(Other(kind)))
      ensures Shown(kind) == old(Shown(kind)) + Labels(layout, kind, [index])
      ensures Shown(Other(kind)) == old(Shown(Other(kind)))
      ensures log == old(log) + [Select(InfoOf(layout, kind, index))]
    {
      clicked, blur, focus := {}, {}, {};
      clicked := {elem};
      if kind == ChordKind {
        prevChords := [index];
      } else {
        prevCircles := [index];
      }
      log := log + [Select(InfoOf(layout, kind, index))];
      blur := AllElements(layout);
      EmphasizeText(kind, index);
      FocusNode(elem, LinksOf(layout, kind, index));
    }

    /** The node and then its links lose `.blur` and gain `.focus`. */
    method FocusNode(elem: Element, links: set<Element>)
      requires blur == AllElements(layout) && focus == {}
      modifies this`blur, this`focus
      ensures focus == {elem} + links && blur == AllElements(layout) - focus
    {
      blur := blur - {elem};
      focus := focus + {elem};
      DiffStep(AllElements(layout), {elem}, links);
      blur := blur - links;
      focus := focus + links;
    }

    /** The click handler's loop over the linked nodes. */
    method HighlightLinked(kind: Kind, ids: seq<nat>)
      requires InRange(ids, |Items(layout, kind)|)
      modifies this`focus, this`blur, this`chordText, this`circleText, this`log
      ensures focus == old(focus) + Addressed(layout, kind, ids)
      ensures blur == old(blur) - Addressed(layout, kind, ids)
      ensures Shown(kind) == old(Shown(kind)) + Labels(layout, kind, ids)
      ensures Shown(Other(kind)) == old(Shown(Other(kind)))
      ensures log == old(log) + Selections(layout, kind, ids)
    {
      for t := 0 to |ids|
        invariant focus == old(focus) + Addressed(layout, kind, ids[..t])
        invariant blur == old(blur) - Addressed(layout, kind, ids[..t])
        invariant Shown(kind) == old(Shown(kind)) + Labels(layout, kind, ids[..t])
        invariant Shown(Other(kind)) == old(Shown(Other(kind)))
        invariant InRange(ids[..t], |Items(layout, kind)|)
        invariant log == old(log) + Selections(layout, kind, ids[..t])
      {
        PrefixStep(layout, kind, ids, t);
        NoticeStep(layout, kind, ids, t);
        UnionStep(old(Shown(kind)), Labels(layout, kind, ids[..t]), Labels(layout, kind, [ids[t]]));
        UnionStep(old(focus), Addressed(layout, kind, ids[..t]), Addressed(layout, kind, [ids[t]]));
        DiffStep(old(blur), Addressed(layout, kind, ids[..t]), Addressed(layout, kind, [ids[t]]));
        HighlightOne(kind, ids[t]);
      }
      assert ids[..|ids|] == ids;
    }

    /** One pass of that loop: linked node j's label shown, j reported selected, and j focused. */
    method HighlightOne(kind: Kind, j: nat)
      requires j < |Items(layout, kind)|
      modifies this`focus, this`blur, this`chordText, this`circleText, this`log
      ensures focus == old(focus) + Addressed(layout, kind, [j])
      ensures blur == old(blur) - Addressed(layout, kind, [j])
      ensures Shown(kind) == old(Shown(kind)) + Labels(layout, kind, [j])
      ensures Shown(Other(kind)) == old(Shown(Other(kind)))
      ensures log == old(log) + [Select(InfoOf(layout, kind, j))]
    {
      EmphasizeText(kind, j);
      log := log + [Select(InfoOf(layout, kind, j))];
      var node := Addressed(layout, kind, [j]);
      blur := blur - node;
      focus := focus + node;
    }

    /** `handleElementHover(elem, index, kind)`. */
    method HandleElementHover(elem: Element, index: nat, kind: Kind)
      requires Valid() && elem in Nodes(layout) && index < |Items(layout, kind)|
      modifies this
      ensures State() == Hover(layout, old(State()), elem, index, kind)
      ensures Valid()
    {
      ghost var v := State();
      HoverConsistent(layout, v, elem, index, kind);
      if elem !in clicked {
        HoverNode(elem, index, kind);
        HoverFields(layout, v, elem, index, kind, State());
      }
    }

    /**
     * The rest of a hover on an unclicked node: its label shown, the hover
     * classes cleared, it and its links hovered, then its linked nodes, and
     * every other node that is neither focused nor clicked dimmed.
     */
    method HoverNode(elem: Element, index: nat, kind: Kind)
      requires Drawn(layout) && index < |Items(layout, kind)|
      modifies this`mouseover, this`mouseout, this`chordText, this`circleText
      ensures var other := Other(kind);
        var linked := Linked(layout, kind, index);
        && mouseover == {elem} + LinksOf(layout, kind, index) + Addressed(layout, other, linked)
        && mouseout == Nodes(layout) - focus - clicked - mouseover
        && Shown(kind) == old(Shown(kind)) + Labels(layout, kind, [index])
        && Shown(other) == old(Shown(other)) + Labels(layout, other, linked)
    {
      EmphasizeText(kind, index);
      mouseout := {};
      mouseover := {};
      mouseover := mouseover + {elem};
      mouseover := mouseover + LinksOf(layout, kind, index);
      HoverLinked(Other(kind), Linked(layout, kind, index));
      mouseout := Nodes(layout) - focus - clicked - mouseover;
    }

    /** The hover handler's loop over the linked nodes: each label shown, each hovered. */
    method HoverLinked(kind: Kind, ids: seq<nat>)
      modifies this`mouseover, this`chordText, this`circleText
      ensures mouseover == old(mouseover) + Addressed(layout, kind, ids)
      ensures Shown(kind) == old(Shown(kind)) + Labels(layout, kind, ids)
      ensures Shown(Other(kind)) == old(Shown(Other(kind)))
    {
      for t := 0 to |ids|
        invariant mouseover == old(mouseover) + Addressed(layout, kind, ids[..t])
        invariant Shown(kind) == old(Shown(kind)) + Labels(layout, kind, ids[..t])
        invariant Shown(Other(kind)) == old(Shown(Other(kind)))
      {
        PrefixStep(layout, kind, ids, t);
        var j := ids[t];
        UnionStep(old(Shown(kind)), Labels(layout, kind, ids[..t]), Labels(layout, kind, [j]));
        UnionStep(old(mouseover), Addressed(layout, kind, ids[..t]), Addressed(layout, kind, [j]));
        EmphasizeText(kind, j);
        mouseover := mouseover + Addressed(layout, kind, [j]);
      }
      assert ids[..|ids|] == ids;
    }

    /** `handleElementLeave(elem, index, kind)`. */
    method HandleElementLeave(elem: Element, index: nat, kind: Kind)
      requires Valid() && index < |Items(layout, kind)|
      modifies this
      ensures State() == Leave(layout, old(State()), elem, index, kind)
      ensures Valid()
    {
      LeaveConsistent(layout, State(), elem, index, kind);
      mouseout := {};
      mouseover := {};
      if elem in clicked || elem in focus {
        return;
      }
      CancelEmphasizeText(kind, index);
      CancelAll(Other(kind), Linked(layout, kind, index));
    }

    /** A click on the arc or the circle drawn at `pos`: its index is looked up by name first. */
    method NodeClick(kind: Kind, pos: nat)
      requires Valid() && pos < Drawable(layout, kind)
      modifies this
      ensures State() == Click(layout, old(State()), NodeElement(kind, pos), DispatchIndex(layout, kind, pos), kind)
      ensures Valid()
    {
      var index := FindIndex(Items(layout, kind), NodeName(layout, kind, pos));
      assert index == DispatchIndex(layout, kind, pos);
      HandleElementClick(NodeElement(kind, pos), index, kind);
    }

    /** The mouse entering the arc or the circle drawn at `pos`. */
    method NodeHover(kind: Kind, pos: nat)
      requires Valid() && pos < Drawable(layout, kind)
      modifies this
      ensures State() == Hover(layout, old(State()), NodeElement(kind, pos), DispatchIndex(layout, kind, pos), kind)
      ensures Valid()
    {
      var index := FindIndex(Items(layout, kind), NodeName(layout, kind, pos));
      assert index == DispatchIndex(layout, kind, pos);
      HandleElementHover(NodeElement(kind, pos), index, kind);
    }

    /** The mouse leaving the arc or the circle drawn at `pos`. */
    method NodeLeave(kind: Kind, pos: nat)
      requires Valid() && pos < Drawable(layout, kind)
      modifies this
      ensures State() == Leave(layout, old(State()), NodeElement(kind, pos), DispatchIndex(layout, kind, pos), kind)
      ensures Valid()
    {
      var index := FindIndex(Items(layout, kind), NodeName(layout, kind, pos));
      assert index == DispatchIndex(layout, kind, pos);
      HandleElementLeave(NodeElement(kind, pos), index, kind);
    }

    /** The mouse entering link p. */
    method LinkMouseOver(p: nat)
      requires Valid() && p < |layout.links|
      modifies this
      ensures State() == LinkHover(layout, old(State()), p)
      ensures Valid()
    {
      LinkHoverConsistent(layout, State(), p);
      if LinkPath(p) !in clicked {
        HoverLink(p);
      }
    }

    /** Hovering an unclicked link: it and its ends hovered, their labels shown, the other nodes dimmed. */
    method HoverLink(p: nat)
      requires Drawn(layout) && p < |layout.links|
      modifies this`mouseover, this`mouseout, this`chordText, this`circleText
      ensures var r := layout.links[p];
        && mouseover == old(mouseover) + {LinkPath(p)} + Addressed(layout, ChordKind, [r.chordIndex])
                        + Addressed(layout, CircleKind, [r.circleIndex])
        && mouseout == old(mouseout) + (Nodes(layout) - focus - clicked - mouseover)
        && chordText == old(chordText) + Labels(layout, ChordKind, [r.chordIndex])
        && circleText == old(circleText) + Labels(layout, CircleKind, [r.circleIndex])
    {
      var r := layout.links[p];
      mouseover := mouseover + {LinkPath(p)};
      mouseover := mouseover + Addressed(layout, ChordKind, [r.chordIndex]);
      mouseover := mouseover + Addressed(layout, CircleKind, [r.circleIndex]);
      EmphasizeText(ChordKind, r.chordIndex);
      EmphasizeText(CircleKind, r.circleIndex);
      mouseout := mouseout + (Nodes(layout) - focus - clicked - mouseover);
    }

    /** A click on link p. */
    method LinkMouseClick(p: nat)
      requires Valid() && p < |layout.links|
      modifies this
      ensures State() == LinkClick(layout, old(State()), p)
      ensures Valid()
    {
      LinkClickConsistent(layout, State(), p);
      if LinkPath(p) in clicked {
        UnclickLink(p);
      } else {
        ClickLink(p);
      }
    }

    /** A click on the clicked link: its ends' labels hidden, it un-clicked and reported, focus and blur cleared. */
    method UnclickLink(p: nat)
      requires p < |layout.links|
      modifies this`chordText, this`circleText, this`clicked, this`log, this`blur, this`focus
      ensures var r := layout.links[p];
        && chordText == old(chordText) - {r.chordIndex} && circleText == old(circleText) - {r.circleIndex}
        && clicked == old(clicked) - {LinkPath(p)} && log == old(log) + [UnSelect(LinkInfoOf(r))]
        && blur == {} && focus == {}
    {
      var r := layout.links[p];
      CancelEmphasizeText(ChordKind, r.chordIndex);
      CancelEmphasizeText(CircleKind, r.circleIndex);
      clicked := clicked - {LinkPath(p)};
      log := log + [UnSelect(LinkInfoOf(r))];
      blur, focus := {}, {};
    }

    /**
     * A click on an unclicked link: its ends' labels shown and then the
     * previous nodes' hidden, it alone clicked, its ends recorded in
     * `prevClicked`, it and its ends reported selected, and it and its ends
     * focused with everything else blurred.
     */
    method ClickLink(p: nat)
      requires Drawn(layout) && p < |layout.links|
      modifies this`chordText, this`circleText, this`clicked, this`prevChords, this`prevCircles
      modifies this`log, this`blur, this`focus
      ensures var r := layout.links[p];
        && chordText == (old(chordText) + Labels(layout, ChordKind, [r.chordIndex])) - Members(old(prevChords))
        && circleText == (old(circleText) + Labels(layout, CircleKind, [r.circleIndex])) - Members(old(prevCircles))
        && clicked == {LinkPath(p)} && prevChords == [r.chordIndex] && prevCircles == [r.circleIndex]
        && log == old(log) + [Select(LinkInfoOf(r)),
                              Select(ChordRowInfo(layout.chords[r.chordIndex], r.chordIndex)),
                              Select(CircleInfo(layout.circles[r.circleIndex]))]
        && focus == {LinkPath(p)} + Addressed(layout, ChordKind, [r.chordIndex])
                    + Addressed(layout, CircleKind, [r.circleIndex])
        && blur == AllElements(layout) - focus
    {
      var r := layout.links[p];
      ShowLinkEnds(p);
      clicked := {};
      clicked := {LinkPath(p)};
      prevChords, prevCircles := [r.chordIndex], [r.circleIndex];
      log := log + [Select(LinkInfoOf(r))];
      log := log + [Select(ChordRowInfo(layout.chords[r.chordIndex], r.chordIndex))];
      log := log + [Select(CircleInfo(layout.circles[r.circleIndex]))];
      FocusLink(p);
    }

    /** The labels of the link's ends shown, then those of `prevClicked` hidden. */
    method ShowLinkEnds(p: nat)
      requires p < |layout.links|
      modifies this`chordText, this`circleText
      ensures var r := layout.links[p];
        && chordText == (old(chordText) + Labels(layout, ChordKind, [r.chordIndex])) - Members(prevChords)
        && circleText == (old(circleText) + Labels(layout, CircleKind, [r.circleIndex])) - Members(prevCircles)
    {
      var r := layout.links[p];
      EmphasizeText(ChordKind, r.chordIndex);
      EmphasizeText(CircleKind, r.circleIndex);
      CancelAll(ChordKind, prevChords);
      CancelAll(CircleKind, prevCircles);
    }

    /** The link and its ends focused, everything else blurred. */
    method FocusLink(p: nat)
      requires p < |layout.links|
      modifies this`blur, this`focus
      ensures var r := layout.links[p];
        && focus == {LinkPath(p)} + Addressed(layout, ChordKind, [r.chordIndex])
                    + Addressed(layout, CircleKind, [r.circleIndex])
        && blur == AllElements(layout) - focus
    {
      var r := layout.links[p];
      blur, focus := {}, {};
      blur := AllElements(layout);
      focus := focus + {LinkPath(p)};
      blur := blur - {LinkPath(p)};
      var chord := Addressed(layout, ChordKind, [r.chordIndex]);
      DiffStep(AllElements(layout), focus, chord);
      focus := focus + chord;
      blur := blur - chord;
      var circle := Addressed(layout, CircleKind, [r.circleIndex]);
      DiffStep(AllElements(layout), focus, circle);
      focus := focus + circle;
      blur := blur - circle;
    }

    /** The mouse leaving link p: the leave handler for its chord end, then for its circle end. */
    method LinkMouseOut(p: nat)
      requires Valid() && p < |layout.links|
      modifies this
      ensures State() == LinkLeave(layout, old(State()), p)
      ensures Valid()
    {
      var r := layout.links[p];
      HandleElementLeave(LinkPath(p), r.chordIndex, ChordKind);
      HandleElementLeave(LinkPath(p), r.circleIndex, CircleKind);
    }
  }
}
