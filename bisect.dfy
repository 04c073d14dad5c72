/** Bisection over the knot array (src/mnspline.c, function bisect).

    The C routine narrows the bracket it receives through the pointers klo and khi; here the
    starting bracket comes in as lo, hi and the narrowed one goes out as klo, khi.
 */
module Bisection {
  import opened Knots

  /** Halve the bracket (lo, hi) until it spans one interval. Every index the loop moves khi
      to holds a knot above x and every index it moves klo to holds a knot at or below x;
      the ends of the starting bracket are the only exceptions. No ordering of the knots is
      needed for this, and from the full range (0, n-1) the result is the bracket of x. */
  method Bisect(xa: array<real>, x: real, lo: nat, hi: nat) returns (klo: nat, khi: nat)
    requires lo < hi < xa.Length
    ensures lo <= klo && khi == klo + 1 && khi <= hi
    ensures klo == lo || xa[klo] <= x
    ensures khi == hi || x < xa[khi]
    ensures lo == 0 && hi == xa.Length - 1 ==> IsBracket(xa[..], x, klo)
  {
    klo, khi := lo, hi;
    while khi - klo > 1
      invariant lo <= klo < khi <= hi
      invariant klo == lo || xa[klo] <= x
      invariant khi == hi || x < xa[khi]
      decreases khi - klo
    {
      var mid := klo + (khi - klo) / 2;
      if xa[mid] > x {
        khi := mid;
      } else {
        klo := mid;
      }
    }
  }
}
