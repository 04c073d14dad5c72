/** Batched evaluation of the spline (src/mnspline.c, function splint).

    Each query is resolved to a bracket, first by testing the cached bracket of an earlier
    query and otherwise by bisecting the full knot range, and the cubic piece of that bracket
    is evaluated. The C loop runs under an OpenMP parallel for in which every thread starts
    from its own copy of the cache; SplintChunk is one such share and Splint runs the shares
    of a schedule one after another.
 */
module Interpolation {
  import opened Knots
  import opened Bisection

  /** Shapes of the inputs of one evaluation: n >= 2 knots with values and second
      derivatives of the same length. */
  predicate WellFormed(xs: seq<real>, ys: seq<real>, y2s: seq<real>) {
    |xs| >= 2 && |ys| == |xs| && |y2s| == |xs| && StrictlyIncreasing(xs)
  }

  /** The cubic on one interval [xlo, xhi] at x: the weights a and b of the interval
      combine the end values ylo, yhi and the end second derivatives y2lo, y2hi. */
  function Cubic(xlo: real, xhi: real, ylo: real, yhi: real, y2lo: real, y2hi: real, x: real): real
    requires xlo < xhi
  {
    var h := xhi - xlo;
    var a := (xhi - x) / h;
    var b := (x - xlo) / h;
    a * ylo + b * yhi + ((a * a * a - a) * y2lo + (b * b * b - b) * y2hi) * (h * h) / 6.0
  }

  /** The cubic piece of the spline on [xs[klo], xs[klo+1]]. */
  function Piece(xs: seq<real>, ys: seq<real>, y2s: seq<real>, klo: nat, x: real): real
    requires WellFormed(xs, ys, y2s) && klo + 1 < |xs|
  {
    StrictlyIncreasingAt(xs, klo, klo + 1);
    Cubic(xs[klo], xs[klo + 1], ys[klo], ys[klo + 1], y2s[klo], y2s[klo + 1], x)
  }

  /** The value of the spline at x: the piece of the bracket of x. It depends on x alone. */
  function SplineAt(xs: seq<real>, ys: seq<real>, y2s: seq<real>, x: real): real
    requires WellFormed(xs, ys, y2s)
  {
    Piece(xs, ys, y2s, Bracket(xs, x), x)
  }

  /** A cubic takes its left end value at its left end (a = 1, b = 0) and its right end
      value at its right end (a = 0, b = 1), whatever the second derivatives. */
  lemma CubicAtEnds(xlo: real, xhi: real, ylo: real, yhi: real, y2lo: real, y2hi: real)
    requires xlo < xhi
    ensures Cubic(xlo, xhi, ylo, yhi, y2lo, y2hi, xlo) == ylo
    ensures Cubic(xlo, xhi, ylo, yhi, y2lo, y2hi, xhi) == yhi
  {
    var h := xhi - xlo;
    assert (xhi - xlo) / h == 1.0;
    assert (xlo - xlo) / h == 0.0;
    assert (xhi - xhi) / h == 0.0;
  }

  /** A piece takes the value of its left knot there. */
  lemma PieceAtLeftKnot(xs: seq<real>, ys: seq<real>, y2s: seq<real>, klo: nat)
    requires WellFormed(xs, ys, y2s) && klo + 1 < |xs|
    ensures Piece(xs, ys, y2s, klo, xs[klo]) == ys[klo]
  {
    StrictlyIncreasingAt(xs, klo, klo + 1);
    CubicAtEnds(xs[klo], xs[klo + 1], ys[klo], ys[klo + 1], y2s[klo], y2s[klo + 1]);
  }

  /** A piece takes the value of its right knot there. */
  lemma PieceAtRightKnot(xs: seq<real>, ys: seq<real>, y2s: seq<real>, klo: nat)
    requires WellFormed(xs, ys, y2s) && klo + 1 < |xs|
    ensures Piece(xs, ys, y2s, klo, xs[klo + 1]) == ys[klo + 1]
  {
    StrictlyIncreasingAt(xs, klo, klo + 1);
    CubicAtEnds(xs[klo], xs[klo + 1], ys[klo], ys[klo + 1], y2s[klo], y2s[klo + 1]);
  }

  /** The spline passes through its samples: at knot k it takes the value ys[k], for every
      choice of second derivatives. */
  lemma InterpolatesKnots(xs: seq<real>, ys: seq<real>, y2s: seq<real>, k: nat)
    requires WellFormed(xs, ys, y2s) && k < |xs|
    ensures SplineAt(xs, ys, y2s, xs[k]) == ys[k]
  {
    BracketAtKnot(xs, k);
    if k == |xs| - 1 {
      PieceAtRightKnot(xs, ys, y2s, k - 1);
    } else {
      PieceAtLeftKnot(xs, ys, y2s, k);
    }
  }

  /** Neighbouring pieces meet at their shared knot: the spline is continuous. */
  lemma PiecesMeetAtKnots(xs: seq<real>, ys: seq<real>, y2s: seq<real>, k: nat)
    requires WellFormed(xs, ys, y2s) && 0 < k < |xs| - 1
    ensures Piece(xs, ys, y2s, k - 1, xs[k]) == Piece(xs, ys, y2s, k, xs[k]) == ys[k]
  {
    PieceAtRightKnot(xs, ys, y2s, k - 1);
    PieceAtLeftKnot(xs, ys, y2s, k);
  }

  /** One thread's share of the parallel loop: the queries from .. to-1, processed in order
      with the thread's own copy of klo, khi and of the cache pklo, pkhi. The cache starts at
      (pklo0, pklo0+1): (0, 1) as initialised before the loop, or whatever interval the thread
      cached in an earlier share it ran. The cache always holds a one-interval bracket, klo and khi are reset
      to the full range after each query, and each output slot of the share is written once,
      with the spline value of its own query; no other slot changes. */
  method SplintChunk(xa: array<real>, ya: array<real>, y2a: array<real>, px: array<real>, py: array<real>,
                     from: nat, to: nat, pklo0: nat)
    requires WellFormed(xa[..], ya[..], y2a[..])
    requires pklo0 + 1 < xa.Length
    requires py.Length == px.Length && from <= to <= px.Length
    requires py != xa && py != ya && py != y2a && py != px
    modifies py
    ensures forall i :: from <= i < to ==> py[i] == SplineAt(xa[..], ya[..], y2a[..], px[i])
    ensures forall i :: 0 <= i < py.Length && !(from <= i < to) ==> py[i] == old(py[i])
  {
    ghost var xs, ys, y2s := xa[..], ya[..], y2a[..];
    var n := xa.Length;
    var klo: nat, khi: nat := 0, n - 1;
    var pklo: nat, pkhi: nat := pklo0, pklo0 + 1;
    var i := from;
    while i < to
      invariant from <= i <= to
      invariant klo == 0 && khi == n - 1
      invariant pkhi == pklo + 1 <= n - 1
      invariant xa[..] == xs && ya[..] == ys && y2a[..] == y2s
      invariant forall j :: from <= j < i ==> py[j] == SplineAt(xs, ys, y2s, px[j])
      invariant forall j :: 0 <= j < py.Length && !(from <= j < i) ==> py[j] == old(py[j])
    {
      if xa[pklo] <= px[i] && xa[pkhi] > px[i] {
        klo := pklo;
        khi := pkhi;
        CachedIntervalIsBracket(xa[..], px[i], klo);
      } else {
        klo, khi := Bisect(xa, px[i], klo, khi);
        pklo := klo;
        pkhi := khi;
        BracketIsUnique(xa[..], px[i], klo);
      }
      assert klo == Bracket(xs, px[i]);
      StrictlyIncreasingAt(xs, klo, khi);
      var v := Cubic(xa[klo], xa[khi], ya[klo], ya[khi], y2a[klo], y2a[khi], px[i]);
      py[i] := v;

      klo := 0;
      khi := n - 1;
      i := i + 1;
    }
  }

  /** A static schedule of the parallel loop over nx queries: chunk c covers the indices
      schedule[c] .. schedule[c+1]-1, and together the chunks cover 0 .. nx-1. */
  predicate IsSchedule(schedule: seq<nat>, nx: nat) {
    && |schedule| >= 1
    && schedule[0] == 0
    && schedule[|schedule| - 1] == nx
    && forall c, d :: 0 <= c < d < |schedule| ==> schedule[c] <= schedule[d]
  }

  /** The whole loop under a given partition into chunks, chunk c starting from the cached
      interval (caches[c], caches[c]+1): (0, 1) for a thread's first chunk, whatever that
      thread cached last for a later one. Every output slot receives the spline value of its
      own query, so the result is the same for every schedule and every cache state, a single
      chunk (sequential run) included. Like the C function, it always reports status 0. */
  method Splint(xa: array<real>, ya: array<real>, y2a: array<real>, px: array<real>, py: array<real>,
                schedule: seq<nat>, caches: seq<nat>) returns (status: int)
    requires WellFormed(xa[..], ya[..], y2a[..])
    requires py.Length == px.Length
    requires py != xa && py != ya && py != y2a && py != px
    requires IsSchedule(schedule, px.Length)
    requires |caches| == |schedule| - 1 && forall c :: 0 <= c < |caches| ==> caches[c] + 1 < xa.Length
    modifies py
    ensures status == 0
    ensures forall i :: 0 <= i < py.Length ==> py[i] == SplineAt(xa[..], ya[..], y2a[..], px[i])
  {
    var c := 0;
    while c + 1 < |schedule|
      invariant 0 <= c < |schedule|
      invariant forall i :: 0 <= i < schedule[c] ==> py[i] == SplineAt(xa[..], ya[..], y2a[..], px[i])
    {
      SplintChunk(xa, ya, y2a, px, py, schedule[c], schedule[c + 1], caches[c]);
      c := c + 1;
    }
    status := 0;
  }
}
