/** Trial division: primality by odd trial factors up to the square root, the
    smallest factor, and the factor search of `uft`. The source compares a
    trial factor f with `sqrt(n)`; the model uses the exact test f*f <= n. */
module TrialDivision {
  import opened Wrappers
  import opened NumberTheory

  /** `isPrime`: 2 is handled apart, other even numbers are rejected, then odd f from 3. */
  method IsPrimeTrial(n: int) returns (r: bool)
    ensures r <==> IsPrime(n)
  {
    if n <= 1 {
      return false;
    }
    if n == 2 {
      return true;
    }
    if n % 2 == 0 {
      return false;
    }
    var f := 3;
    while f * f <= n
      invariant f >= 3 && f % 2 == 1
      invariant forall d :: 2 <= d < f ==> n % d != 0
      decreases n - f * f
    {
      if n % f == 0 {
        FactorBelowSquare(n, f);
        return false;
      }
      OddHasNoEvenDivisor(n, f + 1);
      assert (f + 2) * (f + 2) == f * f + 4 * f + 4;
      f := f + 2;
    }
    PrimeBySquareBound(n, f);
    return true;
  }

  /** A divisor f >= 2 with f*f <= n shows that n is not prime. */
  lemma FactorBelowSquare(n: int, f: int)
    requires 2 <= f && f * f <= n && n % f == 0
    ensures f < n && !IsPrime(n)
  {
    MulLeMono(f, 2, f);
  }

  /** `smallestFactor`: -1 below 2, 2 for every even n (2 itself included), otherwise
      the least odd factor up to the square root, or -1 when there is none. */
  method SmallestFactor(n: int) returns (r: int)
    ensures n <= 1 ==> r == -1
    ensures n >= 2 && n % 2 == 0 ==> r == 2
    ensures n >= 3 && n % 2 == 1 ==> (r == -1 <==> IsPrime(n))
    ensures r != -1 ==> 2 <= r && n % r == 0 && IsPrime(r)
                        && forall d :: 2 <= d < r ==> n % d != 0
  {
    if n <= 1 {
      return -1;
    }
    if n % 2 == 0 {
      LeastDivisorIsPrime(n, 2);
      return 2;
    }
    var f := 3;
    while f * f <= n
      invariant f >= 3 && f % 2 == 1
      invariant forall d :: 2 <= d < f ==> n % d != 0
      decreases n - f * f
    {
      if n % f == 0 {
        FactorBelowSquare(n, f);
        LeastDivisorIsPrime(n, f);
        return f;
      }
      OddHasNoEvenDivisor(n, f + 1);
      assert (f + 2) * (f + 2) == f * f + 4 * f + 4;
      f := f + 2;
    }
    PrimeBySquareBound(n, f);
    return -1;
  }

  /** The factor search of `uft`: the first f >= 2 with f*f <= n that divides n,
      or None, in which case `uft` reports n as prime. */
  method Uft(n: int) returns (factor: Option<int>)
    ensures factor.None? <==> n < 2 || IsPrime(n)
    ensures factor.Some? ==> 2 <= factor.value && factor.value * factor.value <= n
                             && n % factor.value == 0 && IsPrime(factor.value)
                             && forall d :: 2 <= d < factor.value ==> n % d != 0
  {
    var f := 2;
    while f * f <= n
      invariant f >= 2
      invariant forall d :: 2 <= d < f ==> n % d != 0
      decreases n - f * f
    {
      if n % f == 0 {
        FactorBelowSquare(n, f);
        LeastDivisorIsPrime(n, f);
        return Some(f);
      }
      assert (f + 1) * (f + 1) == f * f + 2 * f + 1;
      f := f + 1;
    }
    if n >= 2 {
      PrimeBySquareBound(n, f);
    }
    return None;
  }
}
