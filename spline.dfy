/** Second derivatives of the natural cubic spline (src/mnspline.c, function spline).

    The second derivatives y2 of a natural cubic spline through (xs[i], ys[i]) are zero at
    both end knots and, at every interior knot i, make the first derivatives of the two
    pieces that meet there agree:

      (xs[i]-xs[i-1])/6 y2[i-1] + (xs[i+1]-xs[i-1])/3 y2[i] + (xs[i+1]-xs[i])/6 y2[i+1]
        == (ys[i+1]-ys[i])/(xs[i+1]-xs[i]) - (ys[i]-ys[i-1])/(xs[i]-xs[i-1])

    The source solves this tridiagonal system with one forward elimination into y2 and a
    scratch buffer u, followed by back-substitution. Over the reals the solution is exact.
 */
module SecondDerivatives {
  import opened Knots

  /** The equation of interior knot i: the pieces left and right of xs[i] have the same
      slope at xs[i]. */
  predicate InteriorEquation(xs: seq<real>, ys: seq<real>, y2s: seq<real>, i: nat)
    requires |ys| == |xs| && |y2s| == |xs| && StrictlyIncreasing(xs)
    requires 0 < i < |xs| - 1
  {
    RowOrder(xs, i);
    (xs[i] - xs[i - 1]) / 6.0 * y2s[i - 1] + (xs[i + 1] - xs[i - 1]) / 3.0 * y2s[i]
      + (xs[i + 1] - xs[i]) / 6.0 * y2s[i + 1]
    == (ys[i + 1] - ys[i]) / (xs[i + 1] - xs[i]) - (ys[i] - ys[i - 1]) / (xs[i] - xs[i - 1])
  }

  /** y2s are the second derivatives of the natural cubic spline through xs, ys. */
  predicate IsNaturalSpline(xs: seq<real>, ys: seq<real>, y2s: seq<real>)
    requires |xs| >= 2 && |ys| == |xs| && StrictlyIncreasing(xs)
  {
    && |y2s| == |xs|
    && y2s[0] == 0.0
    && y2s[|xs| - 1] == 0.0
    && forall i :: 0 < i < |xs| - 1 ==> InteriorEquation(xs, ys, y2s, i)
  }

  /** The knots of an interior row are in order. */
  lemma RowOrder(xs: seq<real>, i: nat)
    requires StrictlyIncreasing(xs) && 0 < i < |xs| - 1
    ensures xs[i - 1] < xs[i] < xs[i + 1]
  {
    StrictlyIncreasingAt(xs, i - 1, i);
    StrictlyIncreasingAt(xs, i, i + 1);
  }

  /** The ratio sig of row i: where xs[i] lies between its neighbours. */
  function Sig(xs: seq<real>, i: nat): (sig: real)
    requires StrictlyIncreasing(xs) && 0 < i < |xs| - 1
    ensures 0.0 < sig < 1.0
  {
    RowOrder(xs, i);
    RatioInUnit(xs[i] - xs[i - 1], xs[i + 1] - xs[i - 1]);
    (xs[i] - xs[i - 1]) / (xs[i + 1] - xs[i - 1])
  }

  /** A ratio of a positive number to a larger one lies strictly between 0 and 1. */
  lemma RatioInUnit(num: real, den: real)
    requires 0.0 < num < den
    ensures 0.0 < num / den < 1.0
  {
    var q := num / den;
    assert q * den == num;
    if q <= 0.0 || q >= 1.0 {
      assert false;
    }
  }

  /** The right-hand side of row i after division by (xs[i+1]-xs[i-1])/6. */
  function Rhs(xs: seq<real>, ys: seq<real>, i: nat): real
    requires |ys| == |xs| && StrictlyIncreasing(xs) && 0 < i < |xs| - 1
  {
    RowOrder(xs, i);
    6.0 * ((ys[i + 1] - ys[i]) / (xs[i + 1] - xs[i]) - (ys[i] - ys[i - 1]) / (xs[i] - xs[i - 1]))
      / (xs[i + 1] - xs[i - 1])
  }

  /** A row with ratio sig and right-hand side r is eliminated against the row before it
      (factor cPrev, reduced right-hand side uPrev) when, with the pivot p = sig * cPrev + 2
      above 1, its factor is c = (sig - 1) / p and its reduced right-hand side is
      u = (r - sig * uPrev) / p; both are stated multiplied out by p. */
  predicate IsElimination(sig: real, r: real, cPrev: real, uPrev: real, c: real, u: real) {
    var p := sig * cPrev + 2.0;
    p > 1.0 && c * p == sig - 1.0 && u * p == r - sig * uPrev
  }

  /** From a previous factor cPrev in (-1, 0] and a ratio sig in (0, 1), the pivot
      p = sig * cPrev + 2 is above 1, so the sweep never divides by zero, and the new factor
      (sig - 1) / p lies in (-1, 0] again. */
  lemma PivotBound(sig: real, cPrev: real)
    requires 0.0 < sig < 1.0 && -1.0 < cPrev <= 0.0
    ensures sig * cPrev + 2.0 > 1.0
    ensures -1.0 < (sig - 1.0) / (sig * cPrev + 2.0) <= 0.0
  {
    var p := sig * cPrev + 2.0;
    assert sig * cPrev > -1.0 by {
      assert sig * cPrev >= sig * -1.0;
    }
    DivMul(sig - 1.0, p);
    assert -p < sig - 1.0;
  }

  /** With a pivot above 1, dividing by it eliminates the row. */
  lemma EliminationStep(sig: real, r: real, cPrev: real, uPrev: real)
    requires sig * cPrev + 2.0 > 1.0
    ensures IsElimination(sig, r, cPrev, uPrev, (sig - 1.0) / (sig * cPrev + 2.0),
                       (r - sig * uPrev) / (sig * cPrev + 2.0))
  {
    DivMul(sig - 1.0, sig * cPrev + 2.0);
    DivMul(r - sig * uPrev, sig * cPrev + 2.0);
  }

  /** Dividing by a nonzero number and multiplying back is the identity. */
  lemma DivMul(a: real, p: real)
    requires p != 0.0
    ensures a / p * p == a
  {
  }

  /** The pivot of a row with ratio sig eliminated against a previous factor cPrev. */
  function RowPivot(sig: real, cPrev: real): (p: real)
    requires 0.0 < sig < 1.0 && -1.0 < cPrev <= 0.0
    ensures p > 1.0
  {
    PivotBound(sig, cPrev);
    sig * cPrev + 2.0
  }

  /** The factor of a row with ratio sig eliminated against a previous factor cPrev; it
      lies in (-1, 0] again. */
  function RowFactor(sig: real, cPrev: real): (c: real)
    requires 0.0 < sig < 1.0 && -1.0 < cPrev <= 0.0
    ensures -1.0 < c <= 0.0
  {
    PivotBound(sig, cPrev);
    (sig - 1.0) / RowPivot(sig, cPrev)
  }

  /** The elimination factor that the forward sweep stores in py2[i]: 0 for the first row
      (natural boundary) and (sig - 1) / p after that. */
  function Factor(xs: seq<real>, i: nat): (c: real)
    requires StrictlyIncreasing(xs) && i < |xs| - 1
    ensures -1.0 < c <= 0.0
    decreases i
  {
    if i == 0 then 0.0 else RowFactor(Sig(xs, i), Factor(xs, i - 1))
  }

  /** The pivot of row i of the forward sweep; it is always above 1. */
  function Pivot(xs: seq<real>, i: nat): (p: real)
    requires StrictlyIncreasing(xs) && 0 < i < |xs| - 1
    ensures p > 1.0
  {
    RowPivot(Sig(xs, i), Factor(xs, i - 1))
  }

  /** The reduced right-hand side of a row with ratio sig and right-hand side r, eliminated
      against the reduced value uPrev of the row before it with pivot p. */
  function RowReduced(sig: real, r: real, uPrev: real, p: real): real
    requires p > 1.0
  {
    (r - sig * uPrev) / p
  }

  /** The reduced right-hand side that the forward sweep stores in the scratch buffer u[i]:
      0 for the first row and (Rhs - sig * u[i-1]) / p after that. */
  function Reduced(xs: seq<real>, ys: seq<real>, i: nat): real
    requires |ys| == |xs| && StrictlyIncreasing(xs) && i < |xs| - 1
    decreases i
  {
    if i == 0 then 0.0
    else RowReduced(Sig(xs, i), Rhs(xs, ys, i), Reduced(xs, ys, i - 1), Pivot(xs, i))
  }

  /** The back-substituted second derivative at knot k: 0 at the last knot, and
      Factor(k) * y2[k+1] + Reduced(k) below it. */
  function BackSubstituted(xs: seq<real>, ys: seq<real>, k: nat): real
    requires |ys| == |xs| && StrictlyIncreasing(xs) && k < |xs|
    decreases |xs| - k
  {
    if k == |xs| - 1 then 0.0
    else Factor(xs, k) * BackSubstituted(xs, ys, k + 1) + Reduced(xs, ys, k)
  }

  /** Row i of the forward sweep, unfolded once: with sig the ratio of row i and cPrev the
      factor of row i-1, the pivot is p = sig * cPrev + 2 and the factor of row i is
      (sig - 1) / p. */
  lemma FactorStep(xs: seq<real>, i: nat, sig: real, cPrev: real, p: real)
    requires StrictlyIncreasing(xs) && 0 < i < |xs| - 1
    requires sig == Sig(xs, i) && cPrev == Factor(xs, i - 1) && p == sig * cPrev + 2.0
    ensures p == Pivot(xs, i) && p > 1.0
    ensures Factor(xs, i) == (sig - 1.0) / p
  {
  }

  /** Row i of the forward sweep, unfolded once: the reduced right-hand side of row i is
      (r - sig * uPrev) / p. */
  lemma ReducedStep(xs: seq<real>, ys: seq<real>, i: nat, sig: real, r: real, uPrev: real, p: real)
    requires |ys| == |xs| && StrictlyIncreasing(xs) && 0 < i < |xs| - 1
    requires sig == Sig(xs, i) && r == Rhs(xs, ys, i) && uPrev == Reduced(xs, ys, i - 1)
    requires p == Pivot(xs, i)
    ensures Reduced(xs, ys, i) == (r - sig * uPrev) / p
  {
  }

  /** One step of back-substitution, unfolded once: y2[k] = c * y2[k+1] + u. */
  lemma BackStep(xs: seq<real>, ys: seq<real>, k: nat, c: real, yNext: real, u: real)
    requires |ys| == |xs| && StrictlyIncreasing(xs) && k < |xs| - 1
    requires c == Factor(xs, k) && yNext == BackSubstituted(xs, ys, k + 1) && u == Reduced(xs, ys, k)
    ensures BackSubstituted(xs, ys, k) == c * yNext + u
  {
  }

  /** Row i of the forward sweep as the source writes it over the arrays: the ratio and
      pivot computed from px and py2[i-1] are Sig and Pivot of the knots, and the new
      factor is Factor(xs, i). */
  lemma FactorRowAt(xs: seq<real>, px: array<real>, py2: array<real>, i: nat, sig: real, p: real)
    requires px[..] == xs && StrictlyIncreasing(xs) && 0 < i < |xs| - 1 && py2.Length == |xs|
    requires px[i - 1] < px[i] < px[i + 1]
    requires sig == (px[i] - px[i - 1]) / (px[i + 1] - px[i - 1])
    requires py2[i - 1] == Factor(xs, i - 1)
    requires p == sig * py2[i - 1] + 2.0
    ensures p == Pivot(xs, i) && p > 1.0
    ensures Factor(xs, i) == (sig - 1.0) / p
  {
    assert sig == Sig(xs, i);
    FactorStep(xs, i, sig, py2[i - 1], p);
  }

  /** The right-hand side of row i from the difference of slopes stored in pu[i]. */
  lemma RhsAt(xs: seq<real>, ys: seq<real>, px: array<real>, py: array<real>, pu: array<real>, i: nat)
    requires px[..] == xs && py[..] == ys && |ys| == |xs| && StrictlyIncreasing(xs) && 0 < i < |xs| - 1
    requires pu.Length == |xs| - 1
    requires px[i - 1] < px[i] < px[i + 1]
    requires pu[i] == (py[i + 1] - py[i]) / (px[i + 1] - px[i]) - (py[i] - py[i - 1]) / (px[i] - px[i - 1])
    ensures Rhs(xs, ys, i) == 6.0 * pu[i] / (px[i + 1] - px[i - 1])
  {
  }

  /** Reduced(xs, ys, i) unfolded once for an interior row. */
  lemma ReducedUnfold(xs: seq<real>, ys: seq<real>, i: nat)
    requires |ys| == |xs| && StrictlyIncreasing(xs) && 0 < i < |xs| - 1
    ensures Reduced(xs, ys, i) == (Rhs(xs, ys, i) - Sig(xs, i) * Reduced(xs, ys, i - 1)) / Pivot(xs, i)
  {
  }

  /** Row i of the forward sweep over the arrays: with the slope difference in pu[i] and
      the reduced value of row i-1 in pu[i-1], the value the source stores in pu[i] is
      Reduced(xs, ys, i). */
  lemma ReducedRowAt(xs: seq<real>, ys: seq<real>, px: array<real>, py: array<real>, pu: array<real>,
                     i: nat, sig: real, p: real)
    requires px[..] == xs && py[..] == ys && |ys| == |xs| && StrictlyIncreasing(xs) && 0 < i < |xs| - 1
    requires pu.Length == |xs| - 1
    requires px[i - 1] < px[i] < px[i + 1]
    requires sig == Sig(xs, i) && p == Pivot(xs, i)
    requires pu[i - 1] == Reduced(xs, ys, i - 1)
    requires pu[i] == (py[i + 1] - py[i]) / (px[i + 1] - px[i]) - (py[i] - py[i - 1]) / (px[i] - px[i - 1])
    ensures Reduced(xs, ys, i) == (6.0 * pu[i] / (px[i + 1] - px[i - 1]) - sig * pu[i - 1]) / p
  {
    RhsAt(xs, ys, px, py, pu, i);
    ReducedUnfold(xs, ys, i);
    assert sig * pu[i - 1] == Sig(xs, i) * Reduced(xs, ys, i - 1);
    assert 6.0 * pu[i] / (px[i + 1] - px[i - 1]) - sig * pu[i - 1] == Rhs(xs, ys, i) - Sig(xs, i) * Reduced(xs, ys, i - 1);
  }

  /** One step of back-substitution over the arrays: py2[k] * py2[k+1] + pu[k] is
      BackSubstituted(xs, ys, k). */
  lemma BackRowAt(xs: seq<real>, ys: seq<real>, py2: array<real>, pu: array<real>, k: nat)
    requires |ys| == |xs| && StrictlyIncreasing(xs) && k < |xs| - 1
    requires py2.Length == |xs| && pu.Length == |xs| - 1
    requires py2[k] == Factor(xs, k) && py2[k + 1] == BackSubstituted(xs, ys, k + 1)
    requires pu[k] == Reduced(xs, ys, k)
    ensures BackSubstituted(xs, ys, k) == py2[k] * py2[k + 1] + pu[k]
  {
  }

  /** The second derivatives that the sweep computes, knot by knot. */
  function Solution(xs: seq<real>, ys: seq<real>): (y2s: seq<real>)
    requires |ys| == |xs| && StrictlyIncreasing(xs)
    ensures |y2s| == |xs|
  {
    seq(|xs|, k requires 0 <= k < |xs| => BackSubstituted(xs, ys, k))
  }

  /** Interior row i divided by (xs[i+1]-xs[i-1])/6: with sig the ratio of the row and r its
      right-hand side, sig * y2[i-1] + 2 * y2[i] + (1 - sig) * y2[i+1] == r. */
  predicate NormalRow(sig: real, r: real, yPrev: real, y: real, yNext: real) {
    sig * yPrev + 2.0 * y + (1.0 - sig) * yNext == r
  }

  /** A row eliminated against the row before it is solved by back-substitution: when
      y2[i-1] and y2[i] are back-substituted from the eliminated values of rows i-1 and i,
      the normalised row holds, whatever y2[i+1] is. */
  lemma RowSolved(sig: real, cPrev: real, uPrev: real, c: real, u: real, r: real,
                  yPrev: real, y: real, yNext: real)
    requires IsElimination(sig, r, cPrev, uPrev, c, u)
    requires yPrev == cPrev * y + uPrev
    requires y == c * yNext + u
    ensures NormalRow(sig, r, yPrev, y, yNext)
  {
    var p := sig * cPrev + 2.0;
    calc {
      sig * yPrev + 2.0 * y;
      sig * (cPrev * y + uPrev) + 2.0 * y;
      p * y + sig * uPrev;
      p * (c * yNext + u) + sig * uPrev;
      (c * p) * yNext + u * p + sig * uPrev;
      (sig - 1.0) * yNext + r;
    }
  }

  /** Interior row i holds exactly when its normalised form holds: the two differ by the
      positive factor (xs[i+1]-xs[i-1])/6. */
  lemma RowScaled(xs: seq<real>, ys: seq<real>, y2s: seq<real>, i: nat)
    requires |ys| == |xs| && |y2s| == |xs| && StrictlyIncreasing(xs) && 0 < i < |xs| - 1
    ensures InteriorEquation(xs, ys, y2s, i)
        <==> NormalRow(Sig(xs, i), Rhs(xs, ys, i), y2s[i - 1], y2s[i], y2s[i + 1])
  {
    RowOrder(xs, i);
    var hl, hr, w := xs[i] - xs[i - 1], xs[i + 1] - xs[i], xs[i + 1] - xs[i - 1];
    var d := (ys[i + 1] - ys[i]) / hr - (ys[i] - ys[i - 1]) / hl;
    var sig, r := Sig(xs, i), Rhs(xs, ys, i);
    RowWeights(hl, hr, w, sig);
    ScaledSides(hl, hr, w, sig, y2s[i - 1], y2s[i], y2s[i + 1]);
    ScaledRhs(d, w, r);
    ScaleCancels(sig * y2s[i - 1] + 2.0 * y2s[i] + (1.0 - sig) * y2s[i + 1], r, w / 6.0);
  }

  /** The ratio sig = hl / w of a row splits its width w = hl + hr into hl and hr. */
  lemma RowWeights(hl: real, hr: real, w: real, sig: real)
    requires hl > 0.0 && hr > 0.0 && w == hl + hr && sig == hl / w
    ensures sig * w == hl && (1.0 - sig) * w == hr
  {
  }

  /** The left-hand side of an interior equation is w / 6 times the normalised one. */
  lemma ScaledSides(hl: real, hr: real, w: real, sig: real, a: real, b: real, c: real)
    requires sig * w == hl && (1.0 - sig) * w == hr
    ensures hl / 6.0 * a + w / 3.0 * b + hr / 6.0 * c == (sig * a + 2.0 * b + (1.0 - sig) * c) * (w / 6.0)
  {
  }

  /** The right-hand side of an interior equation is w / 6 times the normalised one. */
  lemma ScaledRhs(d: real, w: real, r: real)
    requires w > 0.0 && r == 6.0 * d / w
    ensures d == r * (w / 6.0)
  {
  }

  /** Multiplying both sides by the same nonzero factor keeps an equation and its negation. */
  lemma ScaleCancels(a: real, b: real, f: real)
    requires f != 0.0
    ensures a * f == b * f <==> a == b
  {
    if a * f == b * f {
      assert (a - b) * f == 0.0;
    }
  }

  /** The back-substituted values satisfy the normalised equation of interior row i. */
  lemma SolutionRow(xs: seq<real>, ys: seq<real>, i: nat)
    requires |ys| == |xs| && StrictlyIncreasing(xs) && 0 < i < |xs| - 1
    ensures NormalRow(Sig(xs, i), Rhs(xs, ys, i), BackSubstituted(xs, ys, i - 1),
                      BackSubstituted(xs, ys, i), BackSubstituted(xs, ys, i + 1))
  {
    var sig, r := Sig(xs, i), Rhs(xs, ys, i);
    var cPrev, uPrev := Factor(xs, i - 1), Reduced(xs, ys, i - 1);
    var c, u := Factor(xs, i), Reduced(xs, ys, i);
    var yPrev, y, yNext := BackSubstituted(xs, ys, i - 1), BackSubstituted(xs, ys, i), BackSubstituted(xs, ys, i + 1);
    var p := sig * cPrev + 2.0;
    FactorStep(xs, i, sig, cPrev, p);
    ReducedStep(xs, ys, i, sig, r, uPrev, p);
    BackStep(xs, ys, i - 1, cPrev, y, uPrev);
    BackStep(xs, ys, i, c, yNext, u);
    EliminationStep(sig, r, cPrev, uPrev);
    RowSolved(sig, cPrev, uPrev, c, u, r, yPrev, y, yNext);
  }

  /** The sweep is exact: its second derivatives are zero at both ends and satisfy the
      equation of every interior knot, so they are those of the natural cubic spline. */
  lemma SolutionIsNaturalSpline(xs: seq<real>, ys: seq<real>)
    requires |xs| >= 2 && |ys| == |xs| && StrictlyIncreasing(xs)
    ensures IsNaturalSpline(xs, ys, Solution(xs, ys))
  {
    var y2s := Solution(xs, ys);
    assert y2s[0] == Factor(xs, 0) * y2s[1] + Reduced(xs, ys, 0);
    forall i | 0 < i < |xs| - 1
      ensures InteriorEquation(xs, ys, y2s, i)
    {
      SolutionRow(xs, ys, i);
      assert y2s[i - 1] == BackSubstituted(xs, ys, i - 1);
      assert y2s[i] == BackSubstituted(xs, ys, i);
      assert y2s[i + 1] == BackSubstituted(xs, ys, i + 1);
      RowScaled(xs, ys, y2s, i);
    }
  }

  /** y2[i] is obtained from y2[i+1] by the elimination of row i, with factor c and reduced
      right-hand side u: y2[i] = c * y2[i+1] + u. */
  predicate Substitutes(c: real, u: real, y: real, yNext: real) {
    y == c * yNext + u
  }

  /** Conversely, a solution of a normalised row whose previous value follows from the
      elimination of the row before it (factor cPrev, reduced value uPrev) follows from the
      elimination of this row, with factor c = (sig - 1) / p and reduced value
      u = (r - sig * uPrev) / p for the pivot p = sig * cPrev + 2. */
  lemma RowEliminated(sig: real, r: real, cPrev: real, uPrev: real, p: real, c: real, u: real,
                      yPrev: real, y: real, yNext: real)
    requires p == sig * cPrev + 2.0 && p > 1.0
    requires c == (sig - 1.0) / p && u == (r - sig * uPrev) / p
    requires NormalRow(sig, r, yPrev, y, yNext)
    requires Substitutes(cPrev, uPrev, yPrev, y)
    ensures Substitutes(c, u, y, yNext)
  {
    assert p * y == (sig - 1.0) * yNext + (r - sig * uPrev);
    DivMul(sig - 1.0, p);
    DivMul(r - sig * uPrev, p);
    assert p * (c * yNext + u) == (sig - 1.0) * yNext + (r - sig * uPrev);
    ScaleCancels(y, c * yNext + u, p);
  }

  /** The elimination relation carries over from row i-1 to row i of any second
      derivatives that satisfy the normalised equation of interior knot i. */
  lemma EliminatedRow(xs: seq<real>, ys: seq<real>, y2s: seq<real>, i: nat)
    requires |ys| == |xs| && |y2s| == |xs| && StrictlyIncreasing(xs) && 0 < i < |xs| - 1
    requires NormalRow(Sig(xs, i), Rhs(xs, ys, i), y2s[i - 1], y2s[i], y2s[i + 1])
    requires Substitutes(Factor(xs, i - 1), Reduced(xs, ys, i - 1), y2s[i - 1], y2s[i])
    ensures Substitutes(Factor(xs, i), Reduced(xs, ys, i), y2s[i], y2s[i + 1])
  {
    var sig, r := Sig(xs, i), Rhs(xs, ys, i);
    var cPrev, uPrev := Factor(xs, i - 1), Reduced(xs, ys, i - 1);
    var p := sig * cPrev + 2.0;
    FactorStep(xs, i, sig, cPrev, p);
    ReducedStep(xs, ys, i, sig, r, uPrev, p);
    RowEliminated(sig, r, cPrev, uPrev, p, Factor(xs, i), Reduced(xs, ys, i), y2s[i - 1], y2s[i], y2s[i + 1]);
  }

  /** Every natural spline satisfies the relation the forward sweep sets up between
      neighbouring second derivatives: y2[i] = Factor(i) * y2[i+1] + Reduced(i). */
  lemma {:induction false} NaturalSplineIsEliminated(xs: seq<real>, ys: seq<real>, y2s: seq<real>, i: nat)
    requires |xs| >= 2 && |ys| == |xs| && StrictlyIncreasing(xs) && IsNaturalSpline(xs, ys, y2s)
    requires i < |xs| - 1
    ensures Substitutes(Factor(xs, i), Reduced(xs, ys, i), y2s[i], y2s[i + 1])
    decreases i
  {
    if i == 0 {
      assert Factor(xs, 0) == 0.0 && Reduced(xs, ys, 0) == 0.0 && y2s[0] == 0.0;
    } else {
      NaturalSplineIsEliminated(xs, ys, y2s, i - 1);
      assert InteriorEquation(xs, ys, y2s, i);
      RowScaled(xs, ys, y2s, i);
      EliminatedRow(xs, ys, y2s, i);
    }
  }

  /** The elimination of a row determines y2[i] from y2[i+1]. */
  lemma EliminationIsFunctional(c: real, u: real, y: real, yNext: real, y': real, yNext': real)
    requires Substitutes(c, u, y, yNext) && Substitutes(c, u, y', yNext') && yNext == yNext'
    ensures y == y'
  {
  }

  /** The back-substituted values are related by the elimination of each row. */
  lemma BackSubstitutedStep(xs: seq<real>, ys: seq<real>, k: nat)
    requires |ys| == |xs| && StrictlyIncreasing(xs) && k < |xs| - 1
    ensures Substitutes(Factor(xs, k), Reduced(xs, ys, k), BackSubstituted(xs, ys, k), BackSubstituted(xs, ys, k + 1))
  {
  }

  /** Every natural spline agrees with the back-substituted values from knot k on. */
  lemma {:induction false} NaturalSplineIsBackSubstituted(xs: seq<real>, ys: seq<real>, y2s: seq<real>, k: nat)
    requires |xs| >= 2 && |ys| == |xs| && StrictlyIncreasing(xs) && IsNaturalSpline(xs, ys, y2s)
    requires k < |xs|
    ensures y2s[k] == BackSubstituted(xs, ys, k)
    decreases |xs| - k
  {
    if k < |xs| - 1 {
      NaturalSplineIsBackSubstituted(xs, ys, y2s, k + 1);
      NaturalSplineIsEliminated(xs, ys, y2s, k);
      BackSubstitutedStep(xs, ys, k);
      EliminationIsFunctional(Factor(xs, k), Reduced(xs, ys, k), y2s[k], y2s[k + 1],
                              BackSubstituted(xs, ys, k), BackSubstituted(xs, ys, k + 1));
    }
  }

  /** The natural cubic spline through strictly increasing knots is unique, and the sweep
      computes it: second derivatives satisfy the natural boundary and every interior
      equation exactly when they are the solution of the sweep. */
  lemma NaturalSplineIsUnique(xs: seq<real>, ys: seq<real>, y2s: seq<real>)
    requires |xs| >= 2 && |ys| == |xs| && StrictlyIncreasing(xs)
    ensures IsNaturalSpline(xs, ys, y2s) <==> y2s == Solution(xs, ys)
  {
    SolutionIsNaturalSpline(xs, ys);
    if IsNaturalSpline(xs, ys, y2s) {
      forall k | 0 <= k < |xs|
        ensures y2s[k] == Solution(xs, ys)[k]
      {
        NaturalSplineIsBackSubstituted(xs, ys, y2s, k);
      }
    }
  }

  /** The body of the forward loop of the sweep for row i: the factor of row i goes to
      py2[i] and its reduced right-hand side to the scratch buffer pu[i], from the values
      of row i-1; no other element changes. */
  method EliminateRow(px: array<real>, py: array<real>, py2: array<real>, pu: array<real>, i: nat,
                      ghost xs: seq<real>, ghost ys: seq<real>)
    requires px[..] == xs && py[..] == ys && |ys| == |xs| && StrictlyIncreasing(xs) && 0 < i < |xs| - 1
    requires py2.Length == |xs| && pu.Length == |xs| - 1
    requires py2 != px && py2 != py && pu != px && pu != py && pu != py2
    requires py2[i - 1] == Factor(xs, i - 1) && pu[i - 1] == Reduced(xs, ys, i - 1)
    modifies py2, pu
    ensures py2[i] == Factor(xs, i) && pu[i] == Reduced(xs, ys, i)
    ensures forall j :: 0 <= j < py2.Length && j != i ==> py2[j] == old(py2[j])
    ensures forall j :: 0 <= j < pu.Length && j != i ==> pu[j] == old(pu[j])
  {
    RowOrder(xs, i);
    var sig := (px[i] - px[i - 1]) / (px[i + 1] - px[i - 1]);
    var p := sig * py2[i - 1] + 2.0;
    FactorRowAt(xs, px, py2, i, sig, p);
    py2[i] := (sig - 1.0) / p;
    pu[i] := (py[i + 1] - py[i]) / (px[i + 1] - px[i]) - (py[i] - py[i - 1]) / (px[i] - px[i - 1]);
    ReducedRowAt(xs, ys, px, py, pu, i, sig, p);
    pu[i] := (6.0 * pu[i] / (px[i + 1] - px[i - 1]) - sig * pu[i - 1]) / p;
  }

  /** The back-substitution loop: from the factors in py2[0..n-2], the reduced right-hand
      sides in pu and y2[n-1] = 0, it overwrites py2[k] for k = n-2 down to 0 with
      py2[k] * py2[k+1] + pu[k], leaving the solution of the sweep in py2. */
  method BackSubstitute(py2: array<real>, pu: array<real>, ghost xs: seq<real>, ghost ys: seq<real>)
    requires |ys| == |xs| && StrictlyIncreasing(xs) && |xs| >= 2
    requires py2.Length == |xs| && pu.Length == |xs| - 1 && py2 != pu
    requires forall j :: 0 <= j < |xs| - 1 ==> py2[j] == Factor(xs, j) && pu[j] == Reduced(xs, ys, j)
    requires py2[|xs| - 1] == 0.0
    modifies py2
    ensures py2[..] == Solution(xs, ys)
  {
    var k := py2.Length - 1;
    while k > 0
      invariant 0 <= k <= py2.Length - 1
      invariant forall j :: 0 <= j < k ==> py2[j] == Factor(xs, j)
      invariant forall j :: k <= j < py2.Length ==> py2[j] == BackSubstituted(xs, ys, j)
    {
      k := k - 1;
      BackRowAt(xs, ys, py2, pu, k);
      py2[k] := py2[k] * py2[k + 1] + pu[k];
    }
  }

  /** Compute the second derivatives py2 of the natural cubic spline through px, py.
      The scratch buffer of n-1 values may be unavailable (scratchAvailable is the outcome
      of the allocation): then the result is -1 and py2 is left as it was. Otherwise the
      result is 0 and py2 holds the solution of the sweep, which is zero at both ends and
      solves every interior equation. */
  method Spline(px: array<real>, py: array<real>, py2: array<real>, scratchAvailable: bool)
    returns (status: int)
    requires px.Length >= 2 && py.Length == px.Length && py2.Length == px.Length
    requires StrictlyIncreasing(px[..])
    requires py2 != px && py2 != py
    modifies py2
    ensures status == (if scratchAvailable then 0 else -1)
    ensures status == -1 ==> py2[..] == old(py2[..])
    ensures status == 0 ==> py2[..] == Solution(px[..], py[..])
    ensures status == 0 ==> IsNaturalSpline(px[..], py[..], py2[..])
  {
    var n := px.Length;
    ghost var xs, ys := px[..], py[..];
    var qn := 0.0;
    var un := 0.0;

    if !scratchAvailable {
      return -1;
    }
    var pu := new real[n - 1];

    py2[0] := 0.0;
    pu[0] := 0.0;

    var i := 1;
    while i < n - 1
      invariant 1 <= i <= n - 1
      invariant px[..] == xs && py[..] == ys
      invariant forall j :: 0 <= j < i ==> py2[j] == Factor(xs, j)
      invariant forall j :: 0 <= j < i ==> pu[j] == Reduced(xs, ys, j)
    {
      EliminateRow(px, py, py2, pu, i, xs, ys);
      i := i + 1;
    }

    py2[n - 1] := (un - qn * pu[n - 2]) / (qn * py2[n - 2] + 1.0);

    BackSubstitute(py2, pu, xs, ys);
    SolutionIsNaturalSpline(xs, ys);
    return 0;
  }
}
