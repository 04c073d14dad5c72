/** The knot abscissae and the interval ("bracket") that a query falls into.

    A bracket is the index klo of the knot interval [xs[klo], xs[klo+1]] whose cubic piece is
    used for a query x. Queries left of the first knot use the first interval and queries at or
    right of the last knot use the last interval, so klo always lies in 0 .. |xs|-2.
 */
module Knots {

  /** The abscissae are strictly increasing, knot by knot: x[1] < x[2] < ... < x[n], the
      caller's obligation in src/mnspline.c. */
  predicate StrictlyIncreasing(xs: seq<real>)
    decreases |xs|
  {
    |xs| < 2 || (xs[0] < xs[1] && StrictlyIncreasing(xs[1..]))
  }

  /** The same order stated for every pair of knots. */
  predicate PairwiseIncreasing(xs: seq<real>) {
    forall i, j :: 0 <= i < j < |xs| ==> xs[i] < xs[j]
  }

  /** Knot-by-knot order gives the order of any two knots. */
  lemma {:induction false} StrictlyIncreasingAt(xs: seq<real>, a: nat, b: nat)
    requires StrictlyIncreasing(xs) && a < b < |xs|
    ensures xs[a] < xs[b]
    decreases b
  {
    if a == 0 {
      if b > 1 {
        StrictlyIncreasingAt(xs[1..], 0, b - 1);
      }
    } else {
      StrictlyIncreasingAt(xs[1..], a - 1, b - 1);
    }
  }

  /** The two statements of the order agree. */
  lemma {:induction false} StrictlyIncreasingIff(xs: seq<real>)
    ensures StrictlyIncreasing(xs) <==> PairwiseIncreasing(xs)
    decreases |xs|
  {
    if |xs| >= 2 {
      StrictlyIncreasingIff(xs[1..]);
      if StrictlyIncreasing(xs) {
        forall i, j | 0 <= i < j < |xs|
          ensures xs[i] < xs[j]
        {
          StrictlyIncreasingAt(xs, i, j);
        }
      }
      if PairwiseIncreasing(xs) {
        assert PairwiseIncreasing(xs[1..]) by {
          forall i, j | 0 <= i < j < |xs| - 1
            ensures xs[1..][i] < xs[1..][j]
          {
            assert xs[i + 1] < xs[j + 1];
          }
        }
      }
    }
  }

  /** klo selects the interval for x: xs[klo] <= x unless klo is the first interval, and
      x < xs[klo+1] unless klo is the last one. */
  predicate IsBracket(xs: seq<real>, x: real, klo: nat) {
    && klo + 1 < |xs|
    && (klo == 0 || xs[klo] <= x)
    && (klo + 2 == |xs| || x < xs[klo + 1])
  }

  /** Reference search: scan down from index k for the last knot at or below x
      (index 0 when there is none). */
  function ScanDown(xs: seq<real>, x: real, k: nat): (r: nat)
    requires k < |xs|
    ensures r <= k
    ensures r == 0 || xs[r] <= x
    ensures forall j :: r < j <= k ==> x < xs[j]
    decreases k
  {
    if k == 0 || xs[k] <= x then k else ScanDown(xs, x, k - 1)
  }

  /** The bracket of x, found by the reference scan over the interior knots. */
  function Bracket(xs: seq<real>, x: real): (klo: nat)
    requires |xs| >= 2
    ensures IsBracket(xs, x, klo)
  {
    ScanDown(xs, x, |xs| - 2)
  }

  /** Over strictly increasing knots a query has exactly one bracket: IsBracket holds of
      Bracket(xs, x) and of no other index. */
  lemma BracketIsUnique(xs: seq<real>, x: real, klo: nat)
    requires |xs| >= 2 && StrictlyIncreasing(xs)
    ensures IsBracket(xs, x, klo) <==> klo == Bracket(xs, x)
  {
    StrictlyIncreasingIff(xs);
    var r := Bracket(xs, x);
    if IsBracket(xs, x, klo) && klo != r {
      assert false;
    }
  }

  /** A query left of the first knot resolves to the first interval (0, 1). */
  lemma BracketLeftOfDomain(xs: seq<real>, x: real)
    requires |xs| >= 2 && StrictlyIncreasing(xs)
    requires x < xs[0]
    ensures Bracket(xs, x) == 0
  {
    assert IsBracket(xs, x, 0) by {
      assert xs[0] < xs[1];
    }
    BracketIsUnique(xs, x, 0);
  }

  /** A query at or right of the last knot, the last knot itself included, resolves to the
      last interval (n-2, n-1). */
  lemma BracketRightOfDomain(xs: seq<real>, x: real)
    requires |xs| >= 2 && StrictlyIncreasing(xs)
    requires xs[|xs| - 1] <= x
    ensures Bracket(xs, x) == |xs| - 2
  {
    assert IsBracket(xs, x, |xs| - 2) by {
      StrictlyIncreasingAt(xs, |xs| - 2, |xs| - 1);
    }
    BracketIsUnique(xs, x, |xs| - 2);
  }

  /** A query equal to knot k resolves to the interval that starts at k, except at the last
      knot, which resolves to the last interval. */
  lemma BracketAtKnot(xs: seq<real>, k: nat)
    requires |xs| >= 2 && StrictlyIncreasing(xs)
    requires k < |xs|
    ensures Bracket(xs, xs[k]) == if k == |xs| - 1 then |xs| - 2 else k
  {
    if k == |xs| - 1 {
      BracketRightOfDomain(xs, xs[k]);
    } else {
      assert IsBracket(xs, xs[k], k) by {
        StrictlyIncreasingAt(xs, k, k + 1);
      }
      BracketIsUnique(xs, xs[k], k);
    }
  }

  /** Cache transparency: an interval (pklo, pklo+1) that contains x in the half-open sense
      tested by the cache is exactly the bracket a fresh search would find. */
  lemma CachedIntervalIsBracket(xs: seq<real>, x: real, pklo: nat)
    requires |xs| >= 2 && StrictlyIncreasing(xs)
    requires pklo + 1 < |xs|
    requires xs[pklo] <= x < xs[pklo + 1]
    ensures Bracket(xs, x) == pklo
  {
    assert IsBracket(xs, x, pklo);
    BracketIsUnique(xs, x, pklo);
  }
}
