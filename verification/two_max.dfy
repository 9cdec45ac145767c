/** The single-pass scan for the two largest scores, with both running maxima
    starting at 0.0. */
module TwoMax {

  /** The largest element of `xs`, floored at 0.0. */
  function Max0(xs: seq<real>): (m: real)
    ensures 0.0 <= m
    ensures forall i | 0 <= i < |xs| :: xs[i] <= m
    ensures m > 0.0 ==> m in xs
  {
    if |xs| == 0 then 0.0
    else
      var m := Max0(xs[..|xs| - 1]);
      assert xs == xs[..|xs| - 1] + [xs[|xs| - 1]];
      if m < xs[|xs| - 1] then xs[|xs| - 1] else m
  }

  /** A position holding a largest element. */
  function ArgMax(xs: seq<real>): (k: nat)
    requires |xs| > 0
    ensures k < |xs| && forall i | 0 <= i < |xs| :: xs[i] <= xs[k]
  {
    if |xs| == 1 then 0
    else
      var k := ArgMax(xs[..|xs| - 1]);
      if xs[k] < xs[|xs| - 1] then |xs| - 1 else k
  }

  function RemoveAt(xs: seq<real>, k: nat): seq<real>
    requires k < |xs|
  {
    xs[..k] + xs[k + 1..]
  }

  /** Reference definition of the second maximum: the floored maximum of what
      remains once one largest element is taken out. */
  function SecondMax0(xs: seq<real>): real
  {
    if |xs| == 0 then 0.0 else Max0(RemoveAt(xs, ArgMax(xs)))
  }

  /** What the pair returned by the scan means: both are at least 0.0, the
      first bounds every element, at most one position exceeds the second,
      and each positive value is taken by an element (two distinct positions
      for a positive second value). */
  predicate IsTopTwo(xs: seq<real>, m1: real, m2: real)
  {
    && 0.0 <= m2 <= m1
    && (forall i | 0 <= i < |xs| :: xs[i] <= m1)
    && (forall i, j | 0 <= i < j < |xs| :: xs[i] <= m2 || xs[j] <= m2)
    && (m1 > 0.0 ==> m1 in xs)
    && (m2 > 0.0 ==> exists i, j | 0 <= i < |xs| && 0 <= j < |xs| && i != j :: xs[i] == m1 && xs[j] == m2)
  }

  /** IsTopTwo determines the pair completely. */
  lemma TopTwoUnique(xs: seq<real>, a1: real, a2: real, b1: real, b2: real)
    requires IsTopTwo(xs, a1, a2) && IsTopTwo(xs, b1, b2)
    ensures a1 == b1 && a2 == b2
  {
  }

  /** Every element outside the position taken out is bounded by the second maximum. */
  lemma OthersBelowSecond(xs: seq<real>, i: nat)
    requires i < |xs| && i != ArgMax(xs)
    ensures xs[i] <= SecondMax0(xs)
  {
    var k := ArgMax(xs);
    var rest := RemoveAt(xs, k);
    var p := if i < k then i else i - 1;
    assert rest[p] == xs[i];
    assert rest[p] <= Max0(rest);
  }

  /** A positive second maximum sits at a position other than the one taken out. */
  lemma SecondMaxPosition(xs: seq<real>) returns (j: nat)
    requires SecondMax0(xs) > 0.0
    ensures j < |xs| && j != ArgMax(xs) && xs[j] == SecondMax0(xs)
  {
    var k := ArgMax(xs);
    var rest := RemoveAt(xs, k);
    var p :| 0 <= p < |rest| && rest[p] == SecondMax0(xs);
    j := if p < k then p else p + 1;
    assert rest[p] == xs[j];
  }

  /** The reference maxima satisfy IsTopTwo. */
  lemma ReferenceIsTopTwo(xs: seq<real>)
    ensures IsTopTwo(xs, Max0(xs), SecondMax0(xs))
  {
    if |xs| > 0 {
      var k := ArgMax(xs);
      var m1, m2 := Max0(xs), SecondMax0(xs);
      forall i | 0 <= i < |xs| && i != k
        ensures xs[i] <= m2
      {
        OthersBelowSecond(xs, i);
      }
      if m2 > 0.0 {
        var j := SecondMaxPosition(xs);
        assert xs[k] == m1;
      }
    }
  }

  /** `findTwoMaxNumbers`. */
  method FindTwoMaxNumbers(xs: seq<real>) returns (maxOne: real, maxTwo: real)
    ensures IsTopTwo(xs, maxOne, maxTwo)
    ensures maxOne == Max0(xs) && maxTwo == SecondMax0(xs)
  {
    maxOne, maxTwo := 0.0, 0.0;
    ghost var p1, p2 := 0, 0;
    for i := 0 to |xs|
      invariant 0.0 <= maxTwo <= maxOne
      invariant forall j | 0 <= j < i :: xs[j] <= maxOne
      invariant forall j, k | 0 <= j < k < i :: xs[j] <= maxTwo || xs[k] <= maxTwo
      invariant maxOne > 0.0 ==> 0 <= p1 < i && xs[p1] == maxOne
      invariant maxTwo > 0.0 ==> 0 <= p2 < i && p1 != p2 && xs[p2] == maxTwo
    {
      var n := xs[i];
      if maxOne < n {
        maxTwo, p2 := maxOne, p1;
        maxOne, p1 := n, i;
      } else if maxTwo < n {
        maxTwo, p2 := n, i;
      }
    }
    if maxOne > 0.0 {
      assert xs[p1] in xs;
    }
    ReferenceIsTopTwo(xs);
    TopTwoUnique(xs, maxOne, maxTwo, Max0(xs), SecondMax0(xs));
  }

  /** The floored maximum of a list with no positive element is 0.0. */
  lemma MaxOfNonPositive(xs: seq<real>)
    requires forall i | 0 <= i < |xs| :: xs[i] <= 0.0
    ensures Max0(xs) == 0.0
  {
  }

  /** A list with no positive element, an all-negative one included, scans
      to (0.0, 0.0): the second maximum lies between 0.0 and the maximum. */
  lemma AllNonPositiveGivesZeros(xs: seq<real>)
    requires forall i | 0 <= i < |xs| :: xs[i] <= 0.0
    ensures Max0(xs) == 0.0 && SecondMax0(xs) == 0.0
  {
    MaxOfNonPositive(xs);
    ReferenceIsTopTwo(xs);
  }

  /** The two worked examples: [3.0, 7.0, 2.0] gives (7.0, 3.0) and
      [-5.0] gives (0.0, 0.0). */
  lemma TwoMaxExamples()
    ensures Max0([3.0, 7.0, 2.0]) == 7.0 && SecondMax0([3.0, 7.0, 2.0]) == 3.0
    ensures Max0([-5.0]) == 0.0 && SecondMax0([-5.0]) == 0.0
  {
  }
}
