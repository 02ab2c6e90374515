/**
 * The numeric helper of the chart: `sum`, a left fold of `+` starting at 0.
 * Numbers are modelled as exact reals.
 */
module Utils {

  /** The sum of `xs`, folded from the left: ((0 + xs[0]) + xs[1]) + ... */
  function Sum(xs: seq<real>): real
  {
    if xs == [] then 0.0 else Sum(xs[..|xs| - 1]) + xs[|xs| - 1]
  }

  predicate NonNegative(xs: seq<real>)
  {
    forall i :: 0 <= i < |xs| ==> xs[i] >= 0.0
  }

  /** The fold starts at 0 and each step adds the next element. */
  lemma SumBasics(xs: seq<real>, x: real)
    ensures Sum([]) == 0.0
    ensures Sum(xs + [x]) == Sum(xs) + x
  {
    assert (xs + [x])[..|xs|] == xs;
  }

  lemma SumSingle(x: real)
    ensures Sum([x]) == x
  {
    assert [x][..0] == [];
  }

  /** Summing a concatenation sums the parts. */
  lemma {:induction false} SumConcat(a: seq<real>, b: seq<real>)
    ensures Sum(a + b) == Sum(a) + Sum(b)
  {
    if b == [] {
      assert a + b == a;
    } else {
      var b' := b[..|b| - 1];
      assert (a + b)[..|a + b| - 1] == a + b';
      SumConcat(a, b');
    }
  }

  /** Among non-negative numbers, each one is at most the sum. */
  lemma {:induction false} SumBoundsEntry(xs: seq<real>, k: nat)
    requires NonNegative(xs) && k < |xs|
    ensures xs[k] <= Sum(xs)
  {
    var init := xs[..|xs| - 1];
    if k == |xs| - 1 {
      SumNonNegative(init);
    } else {
      SumBoundsEntry(init, k);
    }
  }

  /** The sum of non-negative numbers is non-negative. */
  lemma {:induction false} SumNonNegative(xs: seq<real>)
    requires NonNegative(xs)
    ensures Sum(xs) >= 0.0
  {
    if xs != [] {
      SumNonNegative(xs[..|xs| - 1]);
    }
  }

  /** Non-negative numbers sum to zero only when every one of them is zero. */
  lemma {:induction false} SumZeroMeansZeros(xs: seq<real>)
    requires NonNegative(xs) && Sum(xs) == 0.0
    ensures forall i :: 0 <= i < |xs| ==> xs[i] == 0.0
  {
    if xs != [] {
      var init := xs[..|xs| - 1];
      SumNonNegative(init);
      SumZeroMeansZeros(init);
      assert forall i :: 0 <= i < |init| ==> xs[i] == init[i];
    }
  }

  /** Summing two sequences element by element adds their sums. */
  lemma {:induction false} SumPointwise(a: seq<real>, b: seq<real>)
    requires |a| == |b|
    ensures Sum(seq(|a|, i requires 0 <= i < |a| => a[i] + b[i])) == Sum(a) + Sum(b)
  {
    var s := seq(|a|, i requires 0 <= i < |a| => a[i] + b[i]);
    if a != [] {
      var n := |a| - 1;
      var s' := seq(n, i requires 0 <= i < n => a[..n][i] + b[..n][i]);
      assert s[..n] == s';
      SumPointwise(a[..n], b[..n]);
    }
  }
}
