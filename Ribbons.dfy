/**
 * Ribbon subdivision: for every pie arc, the entries of its matrix row are
 * sorted by descending weight and the arc's angular span is cut into
 * consecutive pieces, one per entry, each as wide as the entry's share of the
 * arc's total. A piece becomes a ribbon when its circle was packed and its
 * anchor path is drawable.
 *
 * Angles are exact reals. A division by a zero total yields NaN or Infinity
 * in the source; both are `NonFinite` here, and every later piece of that
 * arc inherits it.
 */
module Ribbons {
  import opened Utils
  import opened Matrix

  /** One cell of a row, as the walk sees it: weight, column and circle name. */
  datatype Entry = Entry(value: real, circleIndex: nat, name: string)

  /** An angle in radians, or the NaN/Infinity that a zero total produces. */
  datatype Angle = Finite(radians: real) | NonFinite

  /** A pie arc: the chord it was made from and its angular extent. */
  datatype Arc = Arc(data: Item, startAngle: real, endAngle: real)

  /** The sub-span of an arc assigned to one entry. */
  datatype Piece = Piece(entry: Entry, start: Angle, end: Angle)

  /**
   * A link between a chord and a packed circle. The drawn path is a function
   * of the anchor span [startAngle, endAngle] and the circle's centre; the
   * span stands for it here.
   */
  datatype Ribbon = Ribbon(chordName: string, circleName: string, chordIndex: nat, circleIndex: nat,
                           startAngle: real, endAngle: real)

  // ---------------------------------------------------------------------------
  // The row entries and their order
  // ---------------------------------------------------------------------------

  /** Row `row` as entries in column order, each named after its circle. */
  function RowEntries(row: seq<real>, circles: seq<Item>): seq<Entry>
    requires |row| <= |circles|
  {
    seq(|row|, i requires 0 <= i < |row| => Entry(row[i], i, circles[i].name))
  }

  function Values(es: seq<Entry>): seq<real>
  {
    seq(|es|, i requires 0 <= i < |es| => es[i].value)
  }

  /**
   * `a` is visited before `b`: a larger weight first, equal weights in
   * column order (what a stable sort by descending weight leaves).
   */
  predicate Precedes(a: Entry, b: Entry)
  {
    a.value > b.value || (a.value == b.value && a.circleIndex < b.circleIndex)
  }

  /** Every two neighbours are in visiting order. */
  predicate Ordered(es: seq<Entry>)
  {
    forall i :: 0 <= i < |es| - 1 ==> Precedes(es[i], es[i + 1])
  }

  /** Every two entries are in visiting order. */
  predicate Sorted(es: seq<Entry>)
  {
    forall i, j :: 0 <= i < j < |es| ==> Precedes(es[i], es[j])
  }

  predicate DistinctColumns(es: seq<Entry>)
  {
    forall i, j :: 0 <= i < j < |es| ==> es[i].circleIndex != es[j].circleIndex
  }

  /** Inserts `x` into `s` before the first entry that `x` precedes. */
  function InsertEntry(x: Entry, s: seq<Entry>): (r: seq<Entry>)
    ensures |r| == |s| + 1
    ensures multiset(r) == multiset(s) + multiset{x}
    ensures r[0] == x || (s != [] && r[0] == s[0])
  {
    if s == [] then [x]
    else if Precedes(s[0], x) then
      assert s == [s[0]] + s[1..];
      [s[0]] + InsertEntry(x, s[1..])
    else [x] + s
  }

  /**
   * The row's entries sorted by descending weight, as the source's
   * `sort((a, b) => b.value - a.value)` leaves them (a stable sort).
   */
  function SortByValue(es: seq<Entry>): (r: seq<Entry>)
    ensures |r| == |es|
    ensures multiset(r) == multiset(es)
  {
    if es == [] then []
    else
      assert es == [es[0]] + es[1..];
      InsertEntry(es[0], SortByValue(es[1..]))
  }

  lemma {:induction false} InsertOrdered(x: Entry, s: seq<Entry>)
    requires Ordered(s)
    requires forall e :: e in s ==> e.circleIndex != x.circleIndex
    ensures Ordered(InsertEntry(x, s))
  {
    if s != [] && Precedes(s[0], x) {
      var t := InsertEntry(x, s[1..]);
      InsertOrdered(x, s[1..]);
      assert Precedes(s[0], t[0]);
      var r := [s[0]] + t;
      forall i | 0 <= i < |r| - 1 ensures Precedes(r[i], r[i + 1]) {
        if i > 0 {
          assert r[i] == t[i - 1] && r[i + 1] == t[i];
        }
      }
    }
  }

  lemma {:induction false} SortOrdered(es: seq<Entry>)
    requires DistinctColumns(es)
    ensures Ordered(SortByValue(es))
  {
    if es != [] {
      var rest := es[1..];
      SortOrdered(rest);
      forall e | e in SortByValue(rest) ensures e.circleIndex != es[0].circleIndex {
        assert e in multiset(SortByValue(rest));
        assert e in rest;
        var k :| 0 <= k < |rest| && rest[k] == e;
        assert es[k + 1] == e;
      }
      InsertOrdered(es[0], SortByValue(rest));
    }
  }

  lemma {:induction false} OrderedIsSorted(es: seq<Entry>)
    requires Ordered(es)
    ensures Sorted(es)
  {
    if es != [] {
      var rest := es[1..];
      OrderedIsSorted(rest);
      forall i, j | 0 <= i < j < |es| ensures Precedes(es[i], es[j]) {
        if i > 0 {
          assert es[i] == rest[i - 1] && es[j] == rest[j - 1];
        } else if j > 1 {
          assert Precedes(rest[0], rest[j - 1]);
        }
      }
    }
  }

  lemma RowEntriesDistinct(row: seq<real>, circles: seq<Item>)
    requires |row| <= |circles|
    ensures DistinctColumns(RowEntries(row, circles))
    ensures Values(RowEntries(row, circles)) == row
  {
  }

  /**
   * Visiting order: the walk takes a row's entries by non-increasing weight,
   * equal weights in ascending column order, each entry exactly once.
   */
  lemma VisitOrder(row: seq<real>, circles: seq<Item>)
    requires |row| <= |circles|
    ensures multiset(SortByValue(RowEntries(row, circles))) == multiset(RowEntries(row, circles))
    ensures var s := SortByValue(RowEntries(row, circles));
      forall i, j :: 0 <= i < j < |s| ==>
        s[i].value >= s[j].value && (s[i].value == s[j].value ==> s[i].circleIndex < s[j].circleIndex)
  {
    RowEntriesDistinct(row, circles);
    SortOrdered(RowEntries(row, circles));
    OrderedIsSorted(SortByValue(RowEntries(row, circles)));
  }

  lemma SortedHeadFirst(s: seq<Entry>, e: Entry)
    requires Sorted(s) && e in s
    ensures e == s[0] || Precedes(s[0], e)
  {
    var k :| 0 <= k < |s| && s[k] == e;
  }

  /** Two sorted arrangements of the same entries are the same sequence. */
  lemma {:induction false} SortedUnique(s: seq<Entry>, t: seq<Entry>)
    requires Sorted(s) && Sorted(t)
    requires multiset(s) == multiset(t)
    ensures s == t
  {
    if s != [] {
      assert s[0] in multiset(t);
      assert t != [];
      assert t[0] in multiset(s);
      SortedHeadFirst(t, s[0]);
      SortedHeadFirst(s, t[0]);
      assert s[0] == t[0];
      SameTails(s, t);
      SortedUnique(s[1..], t[1..]);
    } else {
      assert |multiset(t)| == 0;
    }
  }

  /** Removing the same head from two arrangements of the same entries leaves the same entries. */
  lemma SameTails(s: seq<Entry>, t: seq<Entry>)
    requires s != [] && t != [] && s[0] == t[0] && multiset(s) == multiset(t)
    ensures multiset(s[1..]) == multiset(t[1..])
  {
    assert s == [s[0]] + s[1..];
    assert t == [t[0]] + t[1..];
    assert multiset(s) == multiset([s[0]]) + multiset(s[1..]);
    assert multiset(t) == multiset([t[0]]) + multiset(t[1..]);
    forall x ensures multiset(s[1..])[x] == multiset(t[1..])[x] {
      assert multiset(s)[x] == multiset([s[0]])[x] + multiset(s[1..])[x];
      assert multiset(t)[x] == multiset([t[0]])[x] + multiset(t[1..])[x];
    }
  }

  /**
   * The walk's order is the stable-sort order: any arrangement of the row's
   * entries that is by descending weight, ties in column order, is exactly
   * the one the walk visits.
   */
  lemma StableSortOrder(row: seq<real>, circles: seq<Item>, t: seq<Entry>)
    requires |row| <= |circles|
    requires multiset(t) == multiset(RowEntries(row, circles))
    requires forall i, j :: 0 <= i < j < |t| ==>
      t[i].value >= t[j].value && (t[i].value == t[j].value ==> t[i].circleIndex < t[j].circleIndex)
    ensures t == SortByValue(RowEntries(row, circles))
  {
    var s := SortByValue(RowEntries(row, circles));
    VisitOrder(row, circles);
    SortedUnique(t, s);
  }

  /** A sorted entry is one cell of the row: its weight and circle are its column's. */
  lemma SortedEntryIsCell(row: seq<real>, circles: seq<Item>, e: Entry)
    requires |row| <= |circles|
    requires e in SortByValue(RowEntries(row, circles))
    ensures e.circleIndex < |row|
    ensures e == Entry(row[e.circleIndex], e.circleIndex, circles[e.circleIndex].name)
  {
    assert e in multiset(SortByValue(RowEntries(row, circles)));
    assert e in RowEntries(row, circles);
  }

  lemma {:induction false} InsertSum(x: Entry, s: seq<Entry>)
    ensures Sum(Values(InsertEntry(x, s))) == x.value + Sum(Values(s))
  {
    if s != [] && Precedes(s[0], x) {
      var t := InsertEntry(x, s[1..]);
      InsertSum(x, s[1..]);
      assert Values(InsertEntry(x, s)) == [s[0].value] + Values(t);
      assert Values(s) == [s[0].value] + Values(s[1..]);
      SumConcat([s[0].value], Values(t));
      SumConcat([s[0].value], Values(s[1..]));
      SumSingle(s[0].value);
    } else {
      assert Values(InsertEntry(x, s)) == [x.value] + Values(s);
      SumConcat([x.value], Values(s));
      SumSingle(x.value);
    }
  }

  /** Sorting keeps the total of the weights. */
  lemma {:induction false} SortSum(es: seq<Entry>)
    ensures Sum(Values(SortByValue(es))) == Sum(Values(es))
  {
    if es != [] {
      var rest := es[1..];
      SortSum(rest);
      InsertSum(es[0], SortByValue(rest));
      assert Values(es) == [es[0].value] + Values(rest);
      SumConcat([es[0].value], Values(rest));
      SumSingle(es[0].value);
    }
  }

  // ---------------------------------------------------------------------------
  // Cutting an arc into pieces
  // ---------------------------------------------------------------------------

  /** The part of `span` that `value` gets out of `total`. */
  function Share(value: real, total: real, span: real): real
    requires total != 0.0
  {
    (value / total) * span
  }

  /**
   * The end of a piece of weight `value` that starts at `offset`:
   * `offset + (value / total) * span`, non-finite once the offset is or when
   * the total is zero.
   */
  function Advance(offset: Angle, value: real, total: real, span: real): (r: Angle)
    ensures r.Finite? <==> offset.Finite? && total != 0.0
    ensures r.Finite? && value >= 0.0 && total > 0.0 && span >= 0.0 ==> r.radians >= offset.radians
  {
    if offset.Finite? && total != 0.0 then Finite(offset.radians + Share(value, total, span))
    else NonFinite
  }

  /**
   * The offset after walking `es` from `start`. It stays finite exactly
   * while the start is finite and, once something is walked, the total is
   * not zero.
   */
  function EndAfter(start: Angle, es: seq<Entry>, total: real, span: real): (r: Angle)
    ensures r.Finite? <==> start.Finite? && (es == [] || total != 0.0)
  {
    if es == [] then start
    else Advance(EndAfter(start, es[..|es| - 1], total, span), es[|es| - 1].value, total, span)
  }

  /** The pieces the walk cuts for `es`, in visiting order. */
  function PiecesOf(start: Angle, es: seq<Entry>, total: real, span: real): (ps: seq<Piece>)
    ensures |ps| == |es|
  {
    if es == [] then []
    else
      var init := es[..|es| - 1];
      PiecesOf(start, init, total, span)
        + [Piece(es[|es| - 1], EndAfter(start, init, total, span), EndAfter(start, es, total, span))]
  }

  /**
   * Contiguity: piece k is entry k's; the first piece starts at `start`,
   * each piece starts where the previous one ended, and each is as wide as
   * its entry's share of the span.
   */
  lemma {:induction false} PiecesContiguous(start: Angle, es: seq<Entry>, total: real, span: real)
    ensures var ps := PiecesOf(start, es, total, span);
      && (forall k :: 0 <= k < |ps| ==> ps[k].entry == es[k])
      && (forall k :: 0 <= k < |ps| ==> ps[k].end == Advance(ps[k].start, es[k].value, total, span))
      && (forall k :: 0 <= k < |ps| - 1 ==> ps[k + 1].start == ps[k].end)
      && (|ps| > 0 ==> ps[0].start == start && ps[|ps| - 1].end == EndAfter(start, es, total, span))
  {
    if es != [] {
      var n := |es| - 1;
      var init := es[..n];
      PiecesContiguous(start, init, total, span);
      var ps := PiecesOf(start, es, total, span);
      assert ps[..n] == PiecesOf(start, init, total, span);
      assert es[n] == es[n];
      forall k | 0 <= k < |ps| ensures ps[k].entry == es[k] {
        if k < n {
          assert ps[k] == ps[..n][k];
        }
      }
      forall k | 0 <= k < |ps| ensures ps[k].end == Advance(ps[k].start, es[k].value, total, span) {
        if k < n {
          assert ps[k] == ps[..n][k];
        }
      }
      forall k | 0 <= k < |ps| - 1 ensures ps[k + 1].start == ps[k].end {
        if k + 1 < n {
          assert ps[k] == ps[..n][k] && ps[k + 1] == ps[..n][k + 1];
        } else if n > 0 {
          assert ps[k] == ps[..n][n - 1];
        }
      }
      if n > 0 {
        assert ps[0] == ps[..n][0];
      }
    }
  }

  /**
   * Coverage: from a finite start and a non-zero total, the walk over `es`
   * ends at `start + (sum of weights / total) * span`.
   */
  lemma {:induction false} EndAfterValue(start: real, es: seq<Entry>, total: real, span: real)
    requires total != 0.0
    ensures EndAfter(Finite(start), es, total, span) == Finite(start + Share(Sum(Values(es)), total, span))
  {
    if es != [] {
      var n := |es| - 1;
      EndAfterValue(start, es[..n], total, span);
      assert Values(es)[..n] == Values(es[..n]);
      var s := Sum(Values(es[..n]));
      var v := es[n].value;
      assert Sum(Values(es)) == s + v;
      SharesAdd(s, v, total, span);
    }
  }

  /** Shares of one total add up like their weights. */
  lemma SharesAdd(a: real, b: real, total: real, span: real)
    requires total != 0.0
    ensures Share(a, total, span) + Share(b, total, span) == Share(a + b, total, span)
  {
    assert a / total + b / total == (a + b) / total;
  }

  /** A zero total makes every piece end at a non-finite angle. */
  lemma ZeroTotalPieces(start: Angle, es: seq<Entry>, span: real)
    ensures forall k :: 0 <= k < |es| ==> PiecesOf(start, es, 0.0, span)[k].end == NonFinite
  {
    PiecesContiguous(start, es, 0.0, span);
  }

  // ---------------------------------------------------------------------------
  // Emitting ribbons
  // ---------------------------------------------------------------------------

  /**
   * A piece is drawn when a packed circle carries its circle's name and its
   * anchor path is neither absent nor NaN: its angles are finite and the
   * rendering library's `degenerate` test does not reject them. A piece with
   * a non-finite angle is never drawn here; that is the NaN a zero weight over
   * a zero total gives (see `ZeroRowZeroEntries`). This assumes an anchor
   * radius above the library's epsilon: at a smaller radius the path is a
   * single point whatever the angles, so the source keeps such a piece.
   */
  predicate Emits(p: Piece, packed: seq<string>, degenerate: (real, real) -> bool)
  {
    p.entry.name in packed && p.start.Finite? && p.end.Finite?
    && !degenerate(p.start.radians, p.end.radians)
  }

  function RibbonOf(p: Piece, chordName: string, chordIndex: nat): Ribbon
    requires p.start.Finite? && p.end.Finite?
  {
    Ribbon(chordName, p.entry.name, chordIndex, p.entry.circleIndex, p.start.radians, p.end.radians)
  }

  /**
   * The ribbons of the drawn pieces, in walk order: at most one per piece,
   * each carrying the arc's chord and a packed circle's name.
   */
  function Emitted(ps: seq<Piece>, chordName: string, chordIndex: nat,
                   packed: seq<string>, degenerate: (real, real) -> bool): (r: seq<Ribbon>)
    ensures |r| <= |ps|
    ensures forall x :: x in r ==> x.chordName == chordName && x.chordIndex == chordIndex && x.circleName in packed
  {
    if ps == [] then []
    else
      var p := ps[|ps| - 1];
      Emitted(ps[..|ps| - 1], chordName, chordIndex, packed, degenerate)
        + if Emits(p, packed, degenerate) then [RibbonOf(p, chordName, chordIndex)] else []
  }

  /** A ribbon is emitted exactly for the pieces that pass both tests. */
  lemma {:induction false} EmittedExactly(ps: seq<Piece>, chordName: string, chordIndex: nat,
                                          packed: seq<string>, degenerate: (real, real) -> bool, r: Ribbon)
    ensures r in Emitted(ps, chordName, chordIndex, packed, degenerate) <==>
      exists k :: 0 <= k < |ps| && Emits(ps[k], packed, degenerate) && r == RibbonOf(ps[k], chordName, chordIndex)
  {
    if ps != [] {
      var n := |ps| - 1;
      EmittedExactly(ps[..n], chordName, chordIndex, packed, degenerate, r);
      if r in Emitted(ps, chordName, chordIndex, packed, degenerate) {
        if r in Emitted(ps[..n], chordName, chordIndex, packed, degenerate) {
          var k :| 0 <= k < n && Emits(ps[..n][k], packed, degenerate) && r == RibbonOf(ps[..n][k], chordName, chordIndex);
          assert ps[k] == ps[..n][k];
        } else {
          assert Emits(ps[n], packed, degenerate) && r == RibbonOf(ps[n], chordName, chordIndex);
        }
      }
      if exists k :: 0 <= k < |ps| && Emits(ps[k], packed, degenerate) && r == RibbonOf(ps[k], chordName, chordIndex) {
        var k :| 0 <= k < |ps| && Emits(ps[k], packed, degenerate) && r == RibbonOf(ps[k], chordName, chordIndex);
        if k < n {
          assert ps[..n][k] == ps[k];
        }
      }
    }
  }

  /** The sorted entries of row c. */
  function ArcEntries(c: nat, circles: seq<Item>, m: seq<seq<real>>): seq<Entry>
    requires c < |m| && |m[c]| <= |circles|
  {
    SortByValue(RowEntries(m[c], circles))
  }

  /** The pieces an arc is cut into when its chord is row c. */
  function ArcPieces(arc: Arc, c: nat, circles: seq<Item>, m: seq<seq<real>>): seq<Piece>
    requires c < |m| && |m[c]| <= |circles|
  {
    PiecesOf(Finite(arc.startAngle), ArcEntries(c, circles, m), arc.data.value, arc.endAngle - arc.startAngle)
  }

  /**
   * The ribbons of one arc: its chord is found by name; no chord of that
   * name means no ribbons.
   */
  function ArcRibbons(arc: Arc, chords: seq<Item>, circles: seq<Item>, m: seq<seq<real>>,
                      packed: seq<string>, degenerate: (real, real) -> bool): (r: seq<Ribbon>)
    requires Rectangular(m, |chords|, |circles|)
    ensures |r| <= |circles|
    ensures forall x :: x in r ==>
      x.chordIndex < |chords| && chords[x.chordIndex].name == x.chordName == arc.data.name && x.circleName in packed
  {
    var c := FindIndex(chords, arc.data.name);
    if c == -1 then []
    else Emitted(ArcPieces(arc, c, circles, m), arc.data.name, c, packed, degenerate)
  }

  /** The ribbons of every arc, arc by arc. */
  function AllRibbons(arcs: seq<Arc>, chords: seq<Item>, circles: seq<Item>, m: seq<seq<real>>,
                      packed: seq<string>, degenerate: (real, real) -> bool): (r: seq<Ribbon>)
    requires Rectangular(m, |chords|, |circles|)
    ensures forall x :: x in r ==>
      x.chordIndex < |chords| && chords[x.chordIndex].name == x.chordName && x.circleName in packed
  {
    if arcs == [] then []
    else
      AllRibbons(arcs[..|arcs| - 1], chords, circles, m, packed, degenerate)
        + ArcRibbons(arcs[|arcs| - 1], chords, circles, m, packed, degenerate)
  }

  /** What every ribbon of an arc carries. */
  predicate RibbonOfArc(r: Ribbon, arc: Arc, chords: seq<Item>, circles: seq<Item>, m: seq<seq<real>>,
                        packed: seq<string>, degenerate: (real, real) -> bool)
    requires Rectangular(m, |chords|, |circles|)
  {
    && r.chordIndex == FindIndex(chords, arc.data.name)
    && r.chordName == arc.data.name == chords[r.chordIndex].name
    && r.circleIndex < |circles|
    && r.circleName == circles[r.circleIndex].name
    && r.circleName in packed
    && !degenerate(r.startAngle, r.endAngle)
    && arc.data.value != 0.0
    && r.endAngle
       == r.startAngle + Share(m[r.chordIndex][r.circleIndex], arc.data.value, arc.endAngle - arc.startAngle)
  }

  /**
   * Ribbon emission: each ribbon of an arc joins the arc's chord (found by
   * name) to the circle of its column, whose name a packed circle carries;
   * its span is non-degenerate and as wide as the cell's share of the arc.
   */
  lemma ArcRibbonFacts(arc: Arc, chords: seq<Item>, circles: seq<Item>, m: seq<seq<real>>,
                       packed: seq<string>, degenerate: (real, real) -> bool, r: Ribbon)
    requires Rectangular(m, |chords|, |circles|)
    requires r in ArcRibbons(arc, chords, circles, m, packed, degenerate)
    ensures RibbonOfArc(r, arc, chords, circles, m, packed, degenerate)
  {
    var c := FindIndex(chords, arc.data.name);
    RowRibbonFacts(arc, c, circles, m, packed, degenerate, r);
  }

  /** Row-level form: a ribbon emitted for an arc walked over row c. */
  lemma RowRibbonFacts(arc: Arc, c: nat, circles: seq<Item>, m: seq<seq<real>>,
                       packed: seq<string>, degenerate: (real, real) -> bool, r: Ribbon)
    requires c < |m| && |m[c]| == |circles|
    requires r in Emitted(ArcPieces(arc, c, circles, m), arc.data.name, c, packed, degenerate)
    ensures r.chordIndex == c && r.chordName == arc.data.name
    ensures r.circleIndex < |circles| && r.circleName == circles[r.circleIndex].name
    ensures r.circleName in packed && !degenerate(r.startAngle, r.endAngle) && arc.data.value != 0.0
    ensures r.endAngle == r.startAngle + Share(m[c][r.circleIndex], arc.data.value, arc.endAngle - arc.startAngle)
  {
    var es := ArcEntries(c, circles, m);
    var ps := ArcPieces(arc, c, circles, m);
    var start, total, span := arc.startAngle, arc.data.value, arc.endAngle - arc.startAngle;
    assert ps == PiecesOf(Finite(start), es, total, span);
    EmittedExactly(ps, arc.data.name, c, packed, degenerate, r);
    var k :| 0 <= k < |ps| && Emits(ps[k], packed, degenerate) && r == RibbonOf(ps[k], arc.data.name, c);
    PieceWidth(Finite(start), es, total, span, k);
    var e := es[k];
    assert e in es;
    SortedEntryIsCell(m[c], circles, e);
    var j := e.circleIndex;
    assert r.circleIndex == j && e.value == m[c][j];
    assert r.endAngle == r.startAngle + Share(e.value, total, span);
  }

  /** A piece with finite ends comes from a non-zero total and is as wide as its entry's share. */
  lemma PieceWidth(start: Angle, es: seq<Entry>, total: real, span: real, k: nat)
    requires k < |es|
    requires PiecesOf(start, es, total, span)[k].start.Finite?
    requires PiecesOf(start, es, total, span)[k].end.Finite?
    ensures var p := PiecesOf(start, es, total, span)[k];
      && p.entry == es[k] && total != 0.0
      && p.end.radians == p.start.radians + Share(es[k].value, total, span)
  {
    PieceAt(start, es, total, span, k);
    assert es[..k + 1][..k] == es[..k];
  }

  /** Piece k is entry k's, from the offset after the first k entries to the one after k + 1. */
  lemma {:induction false} PieceAt(start: Angle, es: seq<Entry>, total: real, span: real, k: nat)
    requires k < |es|
    ensures PiecesOf(start, es, total, span)[k]
      == Piece(es[k], EndAfter(start, es[..k], total, span), EndAfter(start, es[..k + 1], total, span))
  {
    var n := |es| - 1;
    if k < n {
      PieceAt(start, es[..n], total, span, k);
      assert PiecesOf(start, es, total, span)[k] == PiecesOf(start, es[..n], total, span)[k];
      assert es[..n][..k] == es[..k] && es[..n][..k + 1] == es[..k + 1];
    } else {
      assert es[..k + 1] == es;
    }
  }

  /** Every ribbon of the walk satisfies the facts of the arc it came from. */
  lemma {:induction false} AllRibbonFacts(arcs: seq<Arc>, chords: seq<Item>, circles: seq<Item>, m: seq<seq<real>>,
                                          packed: seq<string>, degenerate: (real, real) -> bool)
    requires Rectangular(m, |chords|, |circles|)
    ensures forall r :: r in AllRibbons(arcs, chords, circles, m, packed, degenerate) ==>
      exists k :: 0 <= k < |arcs| && RibbonOfArc(r, arcs[k], chords, circles, m, packed, degenerate)
  {
    if arcs != [] {
      var n := |arcs| - 1;
      AllRibbonFacts(arcs[..n], chords, circles, m, packed, degenerate);
      forall r | r in AllRibbons(arcs, chords, circles, m, packed, degenerate)
        ensures exists k :: 0 <= k < |arcs| && RibbonOfArc(r, arcs[k], chords, circles, m, packed, degenerate)
      {
        if r in AllRibbons(arcs[..n], chords, circles, m, packed, degenerate) {
          var k :| 0 <= k < n && RibbonOfArc(r, arcs[..n][k], chords, circles, m, packed, degenerate);
          assert arcs[..n][k] == arcs[k];
        } else {
          ArcRibbonFacts(arcs[n], chords, circles, m, packed, degenerate, r);
        }
      }
    }
  }

  /**
   * Coverage: when the total is the (non-zero) sum of the weights walked,
   * the pieces tile [start, start + span] exactly.
   */
  lemma PiecesCover(start: real, es: seq<Entry>, total: real, span: real)
    requires es != [] && total != 0.0 && Sum(Values(es)) == total
    ensures var ps := PiecesOf(Finite(start), es, total, span);
      && ps[0].start == Finite(start)
      && (forall k :: 0 <= k < |ps| - 1 ==> ps[k + 1].start == ps[k].end)
      && ps[|ps| - 1].end == Finite(start + span)
  {
    PiecesContiguous(Finite(start), es, total, span);
    EndAfterValue(start, es, total, span);
    ShareOfWhole(total, span);
  }

  lemma ShareOfWhole(total: real, span: real)
    requires total != 0.0
    ensures Share(total, total, span) == span
  {
    assert total / total == 1.0;
  }

  /**
   * Coverage of a pie arc: when its total is the (non-zero) sum of the row
   * it is walked over, its pieces tile [startAngle, endAngle] exactly.
   */
  lemma ArcCoverage(arc: Arc, chords: seq<Item>, circles: seq<Item>, m: seq<seq<real>>)
    requires Rectangular(m, |chords|, |circles|) && |circles| > 0
    requires FindIndex(chords, arc.data.name) >= 0
    requires arc.data.value == Sum(m[FindIndex(chords, arc.data.name)]) && arc.data.value != 0.0
    ensures var ps := ArcPieces(arc, FindIndex(chords, arc.data.name), circles, m);
      && |ps| == |circles|
      && ps[0].start == Finite(arc.startAngle)
      && (forall k :: 0 <= k < |ps| - 1 ==> ps[k + 1].start == ps[k].end)
      && ps[|ps| - 1].end == Finite(arc.endAngle)
  {
    RowCoverage(arc, FindIndex(chords, arc.data.name), circles, m);
  }

  /** Coverage of an arc walked over row c, when its total is the row's non-zero sum. */
  lemma RowCoverage(arc: Arc, c: nat, circles: seq<Item>, m: seq<seq<real>>)
    requires c < |m| && |m[c]| == |circles| > 0
    requires arc.data.value == Sum(m[c]) && arc.data.value != 0.0
    ensures var ps := ArcPieces(arc, c, circles, m);
      && |ps| == |circles|
      && ps[0].start == Finite(arc.startAngle)
      && (forall k :: 0 <= k < |ps| - 1 ==> ps[k + 1].start == ps[k].end)
      && ps[|ps| - 1].end == Finite(arc.endAngle)
  {
    var es := ArcEntries(c, circles, m);
    var ps := ArcPieces(arc, c, circles, m);
    var start, total, span := arc.startAngle, arc.data.value, arc.endAngle - arc.startAngle;
    assert ps == PiecesOf(Finite(start), es, total, span);
    SortSum(RowEntries(m[c], circles));
    RowEntriesDistinct(m[c], circles);
    PiecesCover(start, es, total, span);
  }

  /**
   * The pie's arc k over distinctly named chords, each worth its row sum:
   * when row k is not all zero, its pieces tile the arc exactly.
   */
  lemma PieArcCoverage(chordNames: seq<string>, circles: seq<Item>, m: seq<seq<real>>, k: nat,
                       startAngle: real, endAngle: real)
    requires Rectangular(m, |chordNames|, |circles|) && |circles| > 0 && k < |chordNames|
    requires DistinctNames(ChordItems(chordNames, m))
    requires Sum(m[k]) != 0.0
    ensures var arc := Arc(ChordItems(chordNames, m)[k], startAngle, endAngle);
      var ps := ArcPieces(arc, k, circles, m);
      && FindIndex(ChordItems(chordNames, m), chordNames[k]) == k
      && ps[0].start == Finite(startAngle)
      && (forall t :: 0 <= t < |ps| - 1 ==> ps[t + 1].start == ps[t].end)
      && ps[|ps| - 1].end == Finite(endAngle)
  {
    var chords := ChordItems(chordNames, m);
    FindOwnName(chords, k);
    ArcCoverage(Arc(chords[k], startAngle, endAngle), chords, circles, m);
  }

  /**
   * Over a non-negative row, a zero row total means every visited weight is
   * zero, so every share the walk computes from it is 0 / 0.
   */
  lemma ZeroRowZeroEntries(c: nat, circles: seq<Item>, m: seq<seq<real>>)
    requires c < |m| && |m[c]| <= |circles| && NonNegative(m[c]) && Sum(m[c]) == 0.0
    ensures forall e :: e in ArcEntries(c, circles, m) ==> e.value == 0.0
  {
    SumZeroMeansZeros(m[c]);
    forall e | e in ArcEntries(c, circles, m) ensures e.value == 0.0 {
      SortedEntryIsCell(m[c], circles, e);
    }
  }

  /**
   * The walk does not skip zero cells: with a non-zero total, a zero entry
   * whose circle is packed gets a ribbon of zero width unless the rendering
   * library rejects zero-width spans.
   */
  lemma ZeroCellRibbon(arc: Arc, chords: seq<Item>, circles: seq<Item>, m: seq<seq<real>>,
                       packed: seq<string>, degenerate: (real, real) -> bool, j: nat)
    requires Rectangular(m, |chords|, |circles|)
    requires FindIndex(chords, arc.data.name) >= 0 && arc.data.value != 0.0
    requires j < |circles| && m[FindIndex(chords, arc.data.name)][j] == 0.0
    requires circles[j].name in packed
    requires forall a :: !degenerate(a, a)
    ensures exists r :: r in ArcRibbons(arc, chords, circles, m, packed, degenerate) &&
                        r.circleIndex == j && r.startAngle == r.endAngle
  {
    var c := FindIndex(chords, arc.data.name);
    var k := ZeroCellPiece(arc, c, circles, m, packed, degenerate, j);
    var ps := ArcPieces(arc, c, circles, m);
    var r := RibbonOf(ps[k], arc.data.name, c);
    assert r in ArcRibbons(arc, chords, circles, m, packed, degenerate);
  }

  /** The zero cell of column j is cut into a drawn zero-width piece k of the arc. */
  lemma ZeroCellPiece(arc: Arc, c: nat, circles: seq<Item>, m: seq<seq<real>>,
                      packed: seq<string>, degenerate: (real, real) -> bool, j: nat) returns (k: nat)
    requires c < |m| && j < |m[c]| <= |circles| && m[c][j] == 0.0 && arc.data.value != 0.0
    requires circles[j].name in packed
    requires forall a :: !degenerate(a, a)
    ensures var ps := ArcPieces(arc, c, circles, m);
      && k < |ps| && ps[k].start.Finite? && ps[k].end == ps[k].start && ps[k].entry.circleIndex == j
      && RibbonOf(ps[k], arc.data.name, c) in Emitted(ps, arc.data.name, c, packed, degenerate)
  {
    var es := ArcEntries(c, circles, m);
    var ps := ArcPieces(arc, c, circles, m);
    var start, total, span := arc.startAngle, arc.data.value, arc.endAngle - arc.startAngle;
    assert ps == PiecesOf(Finite(start), es, total, span);
    k := EntryPosition(m[c], circles, j);
    ZeroWidthPiece(start, es, total, span, k);
    ZeroPieceEmitted(ps, k, arc.data.name, c, packed, degenerate);
  }

  /** Column j of the row is visited at some position k of the walk. */
  lemma EntryPosition(row: seq<real>, circles: seq<Item>, j: nat) returns (k: nat)
    requires j < |row| <= |circles|
    ensures k < |row| && SortByValue(RowEntries(row, circles))[k] == Entry(row[j], j, circles[j].name)
  {
    var es := SortByValue(RowEntries(row, circles));
    assert RowEntries(row, circles)[j] == Entry(row[j], j, circles[j].name);
    assert Entry(row[j], j, circles[j].name) in multiset(es);
    k :| 0 <= k < |es| && es[k] == Entry(row[j], j, circles[j].name);
  }

  /** A finite zero-width piece to a packed circle is drawn when zero-width spans are not rejected. */
  lemma ZeroPieceEmitted(ps: seq<Piece>, k: nat, chordName: string, chordIndex: nat,
                         packed: seq<string>, degenerate: (real, real) -> bool)
    requires k < |ps| && ps[k].start.Finite? && ps[k].end == ps[k].start
    requires ps[k].entry.name in packed
    requires forall a :: !degenerate(a, a)
    ensures RibbonOf(ps[k], chordName, chordIndex) in Emitted(ps, chordName, chordIndex, packed, degenerate)
  {
    assert !degenerate(ps[k].start.radians, ps[k].start.radians);
    EmittedExactly(ps, chordName, chordIndex, packed, degenerate, RibbonOf(ps[k], chordName, chordIndex));
  }

  /** From a finite start and a non-zero total, a zero-weight entry gets a finite zero-width piece. */
  lemma ZeroWidthPiece(start: real, es: seq<Entry>, total: real, span: real, k: nat)
    requires total != 0.0 && k < |es| && es[k].value == 0.0
    ensures var p := PiecesOf(Finite(start), es, total, span)[k];
      p.entry == es[k] && p.start.Finite? && p.end == p.start
  {
    PiecesFinite(start, es, total, span);
    PieceWidth(Finite(start), es, total, span, k);
  }

  /** From a finite start and a non-zero total, every piece has finite ends. */
  lemma {:induction false} PiecesFinite(start: real, es: seq<Entry>, total: real, span: real)
    requires total != 0.0
    ensures forall k :: 0 <= k < |es| ==>
      PiecesOf(Finite(start), es, total, span)[k].start.Finite? &&
      PiecesOf(Finite(start), es, total, span)[k].end.Finite?
  {
    if es != [] {
      var n := |es| - 1;
      PiecesFinite(start, es[..n], total, span);
      var ps := PiecesOf(Finite(start), es, total, span);
      assert ps[..n] == PiecesOf(Finite(start), es[..n], total, span);
      EndAfterValue(start, es[..n], total, span);
      EndAfterValue(start, es, total, span);
      forall k | 0 <= k < |es| ensures ps[k].start.Finite? && ps[k].end.Finite? {
        if k < n {
          assert ps[k] == ps[..n][k];
        }
      }
    }
  }

  // ---------------------------------------------------------------------------
  // The walk itself
  // ---------------------------------------------------------------------------

  /** One step of the walk: the next entry's piece starts at the current offset and is drawn or skipped. */
  lemma WalkStep(start: real, es: seq<Entry>, t: nat, total: real, span: real,
                 chordName: string, chordIndex: nat, packed: seq<string>, degenerate: (real, real) -> bool)
    requires t < |es|
    ensures var offset := EndAfter(Finite(start), es[..t], total, span);
      var p := Piece(es[t], offset, Advance(offset, es[t].value, total, span));
      && EndAfter(Finite(start), es[..t + 1], total, span) == p.end
      && Emitted(PiecesOf(Finite(start), es[..t + 1], total, span), chordName, chordIndex, packed, degenerate)
         == Emitted(PiecesOf(Finite(start), es[..t], total, span), chordName, chordIndex, packed, degenerate)
            + if Emits(p, packed, degenerate) then [RibbonOf(p, chordName, chordIndex)] else []
  {
    var ps := PiecesOf(Finite(start), es[..t + 1], total, span);
    assert es[..t + 1][..t] == es[..t];
    assert ps[..t] == PiecesOf(Finite(start), es[..t], total, span);
  }

  /** The ribbons of the arcs up to k + 1 are those up to k followed by arc k's. */
  lemma AllRibbonsStep(arcs: seq<Arc>, k: nat, chords: seq<Item>, circles: seq<Item>, m: seq<seq<real>>,
                       packed: seq<string>, degenerate: (real, real) -> bool)
    requires Rectangular(m, |chords|, |circles|) && k < |arcs|
    ensures AllRibbons(arcs[..k + 1], chords, circles, m, packed, degenerate)
      == AllRibbons(arcs[..k], chords, circles, m, packed, degenerate)
         + ArcRibbons(arcs[k], chords, circles, m, packed, degenerate)
  {
    assert arcs[..k + 1][..k] == arcs[..k];
  }

  /**
   * The ribbon subdivision loop: for each arc in pie order, look its chord up
   * by name, sort the row and walk it.
   */
  method RibbonWalk(arcs: seq<Arc>, chords: seq<Item>, circles: seq<Item>, m: seq<seq<real>>,
                    packed: seq<string>, degenerate: (real, real) -> bool)
    returns (paths: seq<Ribbon>)
    requires Rectangular(m, |chords|, |circles|)
    ensures paths == AllRibbons(arcs, chords, circles, m, packed, degenerate)
    ensures forall r :: r in paths ==>
      r.chordIndex < |chords| && r.circleIndex < |circles| &&
      r.circleName in packed && !degenerate(r.startAngle, r.endAngle)
  {
    paths := [];
    for k := 0 to |arcs|
      invariant paths == AllRibbons(arcs[..k], chords, circles, m, packed, degenerate)
    {
      AllRibbonsStep(arcs, k, chords, circles, m, packed, degenerate);
      var arc := arcs[k];
      var chordIndex := FindIndex(chords, arc.data.name);
      if chordIndex == -1 {
        continue;
      }
      var entries := SortByValue(RowEntries(m[chordIndex], circles));
      var pushed := WalkArc(arc, chordIndex, entries, packed, degenerate);
      paths := paths + pushed;
    }
    assert arcs[..|arcs|] == arcs;
    AllRibbonFacts(arcs, chords, circles, m, packed, degenerate);
  }

  /**
   * The inner loop over one arc: advance the offset piece by piece and push a
   * ribbon for each piece that passes the packed-circle and path tests.
   */
  method WalkArc(arc: Arc, chordIndex: nat, entries: seq<Entry>,
                 packed: seq<string>, degenerate: (real, real) -> bool)
    returns (pushed: seq<Ribbon>)
    ensures pushed == Emitted(PiecesOf(Finite(arc.startAngle), entries, arc.data.value, arc.endAngle - arc.startAngle),
                              arc.data.name, chordIndex, packed, degenerate)
  {
    var total := arc.data.value;
    var span := arc.endAngle - arc.startAngle;
    var arcOffset := Finite(arc.startAngle);
    pushed := [];
    for t := 0 to |entries|
      invariant arcOffset == EndAfter(Finite(arc.startAngle), entries[..t], total, span)
      invariant pushed
        == Emitted(PiecesOf(Finite(arc.startAngle), entries[..t], total, span), arc.data.name, chordIndex, packed, degenerate)
    {
      WalkStep(arc.startAngle, entries, t, total, span, arc.data.name, chordIndex, packed, degenerate);
      var entry := entries[t];
      var arcStartAngle := arcOffset;
      var arcEndAngle := Advance(arcStartAngle, entry.value, total, span);
      arcOffset := arcEndAngle;
      if entry.name !in packed {
        continue;
      }
      if !arcStartAngle.Finite? || !arcEndAngle.Finite? || degenerate(arcStartAngle.radians, arcEndAngle.radians) {
        continue;
      }
      pushed := pushed + [Ribbon(arc.data.name, entry.name, chordIndex, entry.circleIndex,
                                 arcStartAngle.radians, arcEndAngle.radians)];
    }
    assert entries[..|entries|] == entries;
  }
}
