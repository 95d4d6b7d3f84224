/** The helpers around GMP integers that the prime pipeline uses, with GMP's
    arbitrary-precision values as mathematical integers and the random state
    replaced by the value `mpz_urandomm` returns. */
module BigInt {
  import opened NumberTheory

  /** `isOdd` (mpz_odd_p): x is not a multiple of 2. */
  function IsOdd(x: int): (r: bool)
    ensures r <==> forall q :: x != 2 * q
  {
    if x % 2 == 1 then
      assert forall q :: x != 2 * q by {
        forall q ensures x != 2 * q {
          ModOfMultiple(2, q);
        }
      }
      true
    else
      assert x == 2 * (x / 2);
      false
  }

  /** `isDivisibleBy` (mpz_divisible_ui_p): x == q * d for some integer q; only 0 is divisible by 0. */
  function IsDivisibleBy(x: int, d: nat): (r: bool)
    ensures r <==> exists q :: x == q * d
  {
    if d == 0 then
      assert x == 0 ==> x == 0 * d;
      x == 0
    else if x % d == 0 then
      assert x == (x / d) * d;
      true
    else
      assert forall q :: x != q * d by {
        forall q ensures x != q * d {
          ModOfMultiple(d, q);
          assert q * d == d * q;
        }
      }
      false
  }

  /** `compare` (mpz_cmp): only the sign of the result is promised. */
  function Compare(a: int, b: int): (r: int)
    ensures r < 0 <==> a < b
    ensures r == 0 <==> a == b
    ensures r > 0 <==> a > b
  {
    if a < b then -1 else if a == b then 0 else 1
  }

  /** Number of d-digit values: 10^d - 10^(d-1), the `range` handed to mpz_urandomm. */
  function DigitRange(digits: nat): (r: int)
    requires digits >= 1
    ensures r == 9 * Pow(10, digits - 1) && r > 0
  {
    PowPositive(10, digits - 1);
    (Pow(10, digits) - 1) - Pow(10, digits - 1) + 1
  }

  /** The candidate `randOddDigits` produces from the draw r: 10^(d-1) + r, moved up by one when even. */
  function OddCandidate(digits: nat, draw: int): (c: int)
    requires digits >= 1 && 0 <= draw < DigitRange(digits)
    ensures Pow(10, digits - 1) <= c <= Pow(10, digits) - 1
    ensures c % 2 == 1
    ensures c == Pow(10, digits - 1) + draw || c == Pow(10, digits - 1) + draw + 1
  {
    var c := Pow(10, digits - 1) + draw;
    PowEvenBase(10, digits);
    if c % 2 == 0 then c + 1 else c
  }

  /** `randOddDigits`: a random odd value with exactly `digits` decimal digits. */
  method RandOddDigits(digits: int, draw: int) returns (result: int)
    requires digits >= 1 && 0 <= draw < DigitRange(digits)
    ensures result == OddCandidate(digits, draw)
  {
    var min := Pow(10, digits - 1);
    var max := Pow(10, digits);
    max := max - 1;
    var range := max - min;
    range := range + 1;
    // the draw is uniform over [0, range)
    assert range == DigitRange(digits);
    result := draw;
    result := result + min;
    if result % 2 == 0 {
      result := result + 1;
    }
  }
}
