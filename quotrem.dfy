/** The division algorithm by repeated subtraction: the quotient counts how
    often the divisor can be taken away while the remainder is still at least
    the divisor. */
module QuotRem {
  import opened NumberTheory

  /** Quotient and remainder of `a` by `b`. The loop only ends when `b` is
      positive or `a` is already below `b`, which is what callers must supply. */
  method DivisionAlgorithm(a: int, b: int) returns (q: int, r: int)
    requires b > 0 || a < b
    ensures a == q * b + r && r < b && q >= 0
    ensures a < b ==> q == 0 && r == a
    ensures a >= b ==> 0 <= r
    ensures b > 0 && a >= 0 ==> q == a / b && r == a % b
  {
    q, r := 0, a;
    while r >= b
      invariant a == q * b + r && q >= 0
      invariant b > 0 || r < b
      invariant a < b ==> q == 0 && r == a
      invariant a >= b ==> 0 <= r || q == 0
      decreases r - b
    {
      r := r - b;
      q := q + 1;
    }
    if b > 0 && a >= 0 {
      DivModUnique(a, b, q, r);
    }
  }
}
