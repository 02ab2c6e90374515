/**
 * The chart's input: a matrix whose row i holds the weights from chord i to
 * every circle. This module aggregates it into per-chord and per-circle
 * totals, finds the nodes linked to a chord or a circle, and looks an item up
 * by name the way the event handlers do.
 */
module Matrix {
  import opened Utils

  /** A chord or a circle as the chart holds it: its name and its total. */
  datatype Item = Item(name: string, value: real)

  /** `m` has `rows` rows of `cols` entries each. */
  predicate Rectangular(m: seq<seq<real>>, rows: nat, cols: nat)
  {
    |m| == rows && forall i :: 0 <= i < |m| ==> |m[i]| == cols
  }

  predicate NonNegativeMatrix(m: seq<seq<real>>)
  {
    forall i :: 0 <= i < |m| ==> NonNegative(m[i])
  }

  /** Column j of `m`: the j-th entry of every row, in row order. */
  function Column(m: seq<seq<real>>, j: nat): seq<real>
    requires forall i :: 0 <= i < |m| ==> j < |m[i]|
  {
    seq(|m|, i requires 0 <= i < |m| => m[i][j])
  }

  function Totals(items: seq<Item>): seq<real>
  {
    seq(|items|, i requires 0 <= i < |items| => items[i].value)
  }

  function Names(items: seq<Item>): seq<string>
  {
    seq(|items|, i requires 0 <= i < |items| => items[i].name)
  }

  /**
   * One chord per name; chord i is worth the sum of row i. Over a
   * non-negative matrix that total is non-negative and bounds every entry of
   * the row.
   */
  function ChordItems(names: seq<string>, m: seq<seq<real>>): (r: seq<Item>)
    requires |m| == |names|
    ensures |r| == |names|
    ensures forall i :: 0 <= i < |r| ==> r[i].name == names[i] && r[i].value == Sum(m[i])
    ensures NonNegativeMatrix(m) ==>
      forall i, j :: 0 <= i < |r| && 0 <= j < |m[i]| ==> 0.0 <= m[i][j] <= r[i].value
  {
    RowBounds(m);
    seq(|names|, i requires 0 <= i < |names| => Item(names[i], Sum(m[i])))
  }

  /**
   * One circle per name; circle j is worth the sum of column j. Over a
   * non-negative matrix that total is non-negative and bounds every entry of
   * the column.
   */
  function CircleItems(names: seq<string>, m: seq<seq<real>>): (r: seq<Item>)
    requires forall i :: 0 <= i < |m| ==> |m[i]| == |names|
    ensures |r| == |names|
    ensures forall j :: 0 <= j < |r| ==> r[j].name == names[j] && r[j].value == Sum(Column(m, j))
    ensures NonNegativeMatrix(m) ==>
      forall i, j :: 0 <= i < |m| && 0 <= j < |r| ==> 0.0 <= m[i][j] <= r[j].value
  {
    ColumnBounds(m, |names|);
    seq(|names|, j requires 0 <= j < |names| => Item(names[j], Sum(Column(m, j))))
  }

  lemma RowBounds(m: seq<seq<real>>)
    ensures NonNegativeMatrix(m) ==>
      forall i, j :: 0 <= i < |m| && 0 <= j < |m[i]| ==> 0.0 <= m[i][j] <= Sum(m[i])
  {
    if NonNegativeMatrix(m) {
      forall i, j | 0 <= i < |m| && 0 <= j < |m[i]| ensures m[i][j] <= Sum(m[i]) {
        SumBoundsEntry(m[i], j);
      }
    }
  }

  lemma ColumnBounds(m: seq<seq<real>>, cols: nat)
    requires forall i :: 0 <= i < |m| ==> |m[i]| == cols
    ensures NonNegativeMatrix(m) ==>
      forall i, j :: 0 <= i < |m| && 0 <= j < cols ==> 0.0 <= m[i][j] <= Sum(Column(m, j))
  {
    if NonNegativeMatrix(m) {
      forall i, j | 0 <= i < |m| && 0 <= j < cols ensures m[i][j] <= Sum(Column(m, j)) {
        SumBoundsEntry(Column(m, j), i);
      }
    }
  }

  /** The row totals of `m` add up to the column totals: both are the sum of every entry. */
  lemma {:induction false} RowsAndColumnsAgree(m: seq<seq<real>>, cols: nat)
    requires forall i :: 0 <= i < |m| ==> |m[i]| == cols
    ensures Sum(seq(|m|, i requires 0 <= i < |m| => Sum(m[i])))
         == Sum(seq(cols, j requires 0 <= j < cols => Sum(Column(m, j))))
  {
    var rows := seq(|m|, i requires 0 <= i < |m| => Sum(m[i]));
    var columns := seq(cols, j requires 0 <= j < cols => Sum(Column(m, j)));
    if m == [] {
      assert forall j :: 0 <= j < cols ==> Column(m, j) == [];
      ZeroSum(columns);
    } else {
      var n := |m| - 1;
      var m' := m[..n];
      var last := m[n];
      RowsAndColumnsAgree(m', cols);
      var columns' := seq(cols, j requires 0 <= j < cols => Sum(Column(m', j)));
      assert rows[..n] == seq(n, i requires 0 <= i < n => Sum(m'[i]));
      forall j | 0 <= j < cols ensures columns[j] == columns'[j] + last[j] {
        assert Column(m, j)[..n] == Column(m', j);
      }
      assert columns == seq(cols, j requires 0 <= j < cols => columns'[j] + last[j]);
      SumPointwise(columns', last);
    }
  }

  lemma {:induction false} ZeroSum(xs: seq<real>)
    requires forall i :: 0 <= i < |xs| ==> xs[i] == 0.0
    ensures Sum(xs) == 0.0
  {
    if xs != [] {
      ZeroSum(xs[..|xs| - 1]);
    }
  }

  /**
   * Aggregation: the chord totals and the circle totals of one matrix add up
   * to the same amount.
   */
  lemma GrandTotal(chordNames: seq<string>, circleNames: seq<string>, m: seq<seq<real>>)
    requires Rectangular(m, |chordNames|, |circleNames|)
    ensures Sum(Totals(ChordItems(chordNames, m))) == Sum(Totals(CircleItems(circleNames, m)))
  {
    var chords := ChordItems(chordNames, m);
    var circles := CircleItems(circleNames, m);
    assert Totals(chords) == seq(|m|, i requires 0 <= i < |m| => Sum(m[i]));
    assert Totals(circles) == seq(|circleNames|, j requires 0 <= j < |circleNames| => Sum(Column(m, j)));
    RowsAndColumnsAgree(m, |circleNames|);
  }

  predicate Increasing(s: seq<nat>)
  {
    forall a, b :: 0 <= a < b < |s| ==> s[a] < s[b]
  }

  /** The positions of the non-zero entries of `xs`, in ascending order. */
  function NonZeroIndices(xs: seq<real>): (r: seq<nat>)
    ensures Increasing(r)
    ensures forall t :: 0 <= t < |r| ==> r[t] < |xs|
    ensures forall k: nat :: k in r <==> k < |xs| && xs[k] != 0.0
  {
    if xs == [] then []
    else
      var n := |xs| - 1;
      NonZeroIndices(xs[..n]) + if xs[n] != 0.0 then [n] else []
  }

  /** The circles linked to chord `i`: exactly the ascending j with a non-zero weight in row i. */
  function LinkedCircles(m: seq<seq<real>>, i: nat): (r: seq<nat>)
    requires i < |m|
    ensures Increasing(r)
    ensures forall j: nat :: j in r <==> j < |m[i]| && m[i][j] != 0.0
  {
    NonZeroIndices(m[i])
  }

  /** The chords linked to circle `j`: exactly the ascending i with a non-zero weight in column j. */
  function LinkedChords(m: seq<seq<real>>, j: nat): (r: seq<nat>)
    requires forall i :: 0 <= i < |m| ==> j < |m[i]|
    ensures Increasing(r)
    ensures forall i: nat :: i in r <==> i < |m| && m[i][j] != 0.0
  {
    NonZeroIndices(Column(m, j))
  }

  /** Circle j is linked to chord i exactly when chord i is linked to circle j. */
  lemma LinkSymmetry(m: seq<seq<real>>, rows: nat, cols: nat, i: nat, j: nat)
    requires Rectangular(m, rows, cols) && i < rows && j < cols
    ensures j in LinkedCircles(m, i) <==> i in LinkedChords(m, j)
  {
  }

  /** Every member of an ascending sequence is at least its head. */
  lemma HeadIsLeast(s: seq<nat>, k: nat)
    requires Increasing(s) && k in s
    ensures k >= s[0]
  {
    var t :| 0 <= t < |s| && s[t] == k;
  }

  /** Two ascending sequences with the same members are equal. */
  lemma {:induction false} IncreasingUnique(r: seq<nat>, s: seq<nat>)
    requires Increasing(r) && Increasing(s)
    requires forall k :: k in r <==> k in s
    ensures r == s
  {
    if r != [] {
      assert r[0] in s;
    }
    if s != [] {
      assert s[0] in r;
    }
    if r != [] {
      // The least member of each is the head of each.
      HeadIsLeast(s, r[0]);
      HeadIsLeast(r, s[0]);
      forall k ensures k in r[1..] <==> k in s[1..] {
        if k in r[1..] {
          var t :| 1 <= t < |r| && r[t] == k;
          assert k in s && k != s[0];
          var u :| 0 <= u < |s| && s[u] == k;
          assert s[1..][u - 1] == k;
        }
        if k in s[1..] {
          var t :| 1 <= t < |s| && s[t] == k;
          assert k in r && k != r[0];
          var u :| 0 <= u < |r| && r[u] == k;
          assert r[1..][u - 1] == k;
        }
      }
      IncreasingUnique(r[1..], s[1..]);
    }
  }

  /**
   * The linked circles of chord i are the only ascending list of the columns
   * with a non-zero weight in row i.
   */
  lemma LinkedCirclesExactly(m: seq<seq<real>>, i: nat, s: seq<nat>)
    requires i < |m| && Increasing(s)
    requires forall j: nat :: j in s <==> j < |m[i]| && m[i][j] != 0.0
    ensures s == LinkedCircles(m, i)
  {
    IncreasingUnique(s, LinkedCircles(m, i));
  }

  /**
   * The linked chords of circle j are the only ascending list of the rows
   * with a non-zero weight in column j.
   */
  lemma LinkedChordsExactly(m: seq<seq<real>>, j: nat, s: seq<nat>)
    requires forall i :: 0 <= i < |m| ==> j < |m[i]|
    requires Increasing(s)
    requires forall i: nat :: i in s <==> i < |m| && m[i][j] != 0.0
    ensures s == LinkedChords(m, j)
  {
    IncreasingUnique(s, LinkedChords(m, j));
  }

  /**
   * `findIndex` by name: the position of the first item called `name`, or -1
   * when there is none.
   */
  function FindIndex(items: seq<Item>, name: string): (r: int)
    ensures -1 <= r < |items|
    ensures r == -1 <==> forall k :: 0 <= k < |items| ==> items[k].name != name
    ensures r >= 0 ==> items[r].name == name && forall k :: 0 <= k < r ==> items[k].name != name
  {
    if items == [] then -1
    else if items[0].name == name then 0
    else
      var r := FindIndex(items[1..], name);
      if r == -1 then -1 else r + 1
  }

  predicate DistinctNames(items: seq<Item>)
  {
    forall a, b :: 0 <= a < b < |items| ==> items[a].name != items[b].name
  }

  /**
   * Looking up the name of item k finds an item of that name at or before k,
   * and finds k itself when names are distinct.
   */
  lemma FindOwnName(items: seq<Item>, k: nat)
    requires k < |items|
    ensures 0 <= FindIndex(items, items[k].name) <= k
    ensures items[FindIndex(items, items[k].name)].name == items[k].name
    ensures DistinctNames(items) ==> FindIndex(items, items[k].name) == k
  {
  }
}
