/** Mathematical definitions the routines are measured against: absolute value,
    divisibility, powers, the greatest common divisor and primality, with the
    facts about them that the proofs of the other modules use. */
module NumberTheory {

  function Abs(x: int): nat {
    if x < 0 then -x else x
  }

  /** `d` divides `x`. Zero divides only zero; a negative `d` divides what `-d` divides. */
  predicate Divides(d: int, x: int) {
    if d == 0 then x == 0 else x % Abs(d) == 0
  }

  function Pow(b: int, e: nat): int
    decreases e
  {
    if e == 0 then 1 else b * Pow(b, e - 1)
  }

  /** Greatest common divisor of two naturals (Gcd(0, 0) == 0). */
  function Gcd(a: nat, b: nat): nat
    decreases b
  {
    if b == 0 then a else Gcd(b, a % b)
  }

  predicate IsPrime(n: int) {
    n >= 2 && forall d :: 2 <= d < n ==> n % d != 0
  }

  // ---------------------------------------------------------------------------
  // Division with remainder

  /** Multiplying by a non-negative factor keeps an inequality. */
  lemma MulLeMono(a: int, b: int, c: int)
    requires 0 <= a && b <= c
    ensures a * b <= a * c
  {
    assert a * c - a * b == a * (c - b);
  }

  /** A multiple of m strictly between -m and m is zero. */
  lemma MultipleInRange(m: int, k: int)
    requires m > 0 && -m < m * k < m
    ensures k == 0
  {
    if k >= 1 {
      MulLeMono(m, 1, k);
    } else if k <= -1 {
      MulLeMono(m, k, -1);
    }
  }

  /** A quotient and remainder in range are THE quotient and remainder. */
  lemma DivModUnique(x: int, m: int, q: int, r: int)
    requires m > 0 && x == m * q + r && 0 <= r < m
    ensures x / m == q && x % m == r
  {
    var q', r' := x / m, x % m;
    assert m * (q - q') == r' - r;
    MultipleInRange(m, q - q');
  }

  lemma ModOfMultiple(m: int, k: int)
    requires m > 0
    ensures (m * k) % m == 0 && (m * k) / m == k
  {
    DivModUnique(m * k, m, k, 0);
  }

  lemma ModAddMultiple(x: int, m: int, k: int)
    requires m > 0
    ensures (x + m * k) % m == x % m
  {
    var q, r := x / m, x % m;
    assert x + m * k == m * (q + k) + r;
    DivModUnique(x + m * k, m, q + k, r);
  }

  /** Reducing a product's factors first does not change the product's residue. */
  lemma ModMulMod(x: int, y: int, m: int)
    requires m > 0
    ensures ((x % m) * (y % m)) % m == (x * y) % m
  {
    var qx, rx := x / m, x % m;
    var qy, ry := y / m, y % m;
    assert x * y == (m * qx + rx) * (m * qy + ry);
    assert x * y == rx * ry + m * (qx * (m * qy + ry) + rx * qy);
    ModAddMultiple(rx * ry, m, qx * (m * qy + ry) + rx * qy);
  }

  lemma ModMod(x: int, m: int)
    requires m > 0
    ensures (x % m) % m == x % m
  {
    DivModUnique(x % m, m, 0, x % m);
  }

  // ---------------------------------------------------------------------------
  // Divisibility

  lemma DividesSelf(x: int)
    ensures Divides(x, x) && Divides(x, 0) && Divides(1, x)
  {
    if x != 0 {
      ModOfMultiple(Abs(x), if x < 0 then -1 else 1);
      ModOfMultiple(Abs(x), 0);
    }
    ModOfMultiple(1, x);
  }

  /** A common divisor of x and y divides every x + k*y. */
  lemma DividesCombination(d: int, x: int, y: int, k: int)
    requires Divides(d, x) && Divides(d, y)
    ensures Divides(d, x + k * y)
  {
    if d != 0 {
      var m := Abs(d);
      var a, b := x / m, y / m;
      assert x == m * a && y == m * b;
      assert x + k * y == m * (a + k * b);
      ModOfMultiple(m, a + k * b);
    }
  }

  lemma DividesMultiple(d: int, x: int, k: int)
    requires Divides(d, x)
    ensures Divides(d, x * k)
  {
    DividesSelf(d);
    DividesCombination(d, 0, x, k);
    assert 0 + k * x == x * k;
  }

  lemma DividesNeg(d: int, x: int)
    ensures Divides(d, x) <==> Divides(d, -x)
  {
    if Divides(d, x) {
      DividesMultiple(d, x, -1);
    }
    if Divides(d, -x) {
      DividesMultiple(d, -x, -1);
    }
  }

  lemma DividesTrans(a: int, b: int, c: int)
    requires Divides(a, b) && Divides(b, c)
    ensures Divides(a, c)
  {
    if b == 0 {
    } else {
      var m := Abs(b);
      var k := c / m;
      assert c == m * k;
      assert Divides(a, m) by {
        if b < 0 {
          DividesMultiple(a, b, -1);
        }
      }
      DividesMultiple(a, m, k);
    }
  }

  /** A positive divisor of a positive number is not larger than it. */
  lemma DividesLe(d: int, x: int)
    requires d > 0 && x > 0 && x % d == 0
    ensures d <= x
  {
    var k := x / d;
    assert x == d * k;
    assert k >= 1;
    MulLeMono(d, 1, k);
  }

  lemma DividesAntisym(x: nat, y: nat)
    requires Divides(x, y) && Divides(y, x)
    ensures x == y
  {
    if x != 0 && y != 0 {
      DividesLe(x, y);
      DividesLe(y, x);
    }
  }

  /** A number with an even divisor is even. */
  lemma EvenDivisorMakesEven(x: int, d: int)
    requires d > 0 && d % 2 == 0 && x % d == 0
    ensures x % 2 == 0
  {
    var k, h := x / d, d / 2;
    assert x == 2 * (h * k);
    ModOfMultiple(2, h * k);
  }

  /** An odd number has no even divisor. */
  lemma OddHasNoEvenDivisor(x: int, d: int)
    requires x % 2 == 1 && d > 0 && d % 2 == 0
    ensures x % d != 0
  {
    if x % d == 0 {
      EvenDivisorMakesEven(x, d);
    }
  }

  // ---------------------------------------------------------------------------
  // The greatest common divisor

  lemma {:induction false} GcdDivides(a: nat, b: nat)
    ensures Divides(Gcd(a, b), a) && Divides(Gcd(a, b), b)
    decreases b
  {
    if b == 0 {
      DividesSelf(a);
    } else {
      var g := Gcd(a, b);
      GcdDivides(b, a % b);
      assert a == a % b + (a / b) * b;
      DividesCombination(g, a % b, b, a / b);
    }
  }

  lemma {:induction false} GcdGreatest(a: nat, b: nat, d: int)
    requires Divides(d, a) && Divides(d, b)
    ensures Divides(d, Gcd(a, b))
    decreases b
  {
    if b != 0 {
      assert a % b == a + (-(a / b)) * b;
      DividesCombination(d, a, b, -(a / b));
      GcdGreatest(b, a % b, d);
    }
  }

  /** Being a common divisor that every common divisor divides characterises Gcd. */
  lemma GcdUnique(a: nat, b: nat, g: nat)
    requires Divides(g, a) && Divides(g, b)
    requires forall d :: Divides(d, a) && Divides(d, b) ==> Divides(d, g)
    ensures g == Gcd(a, b)
  {
    GcdDivides(a, b);
    GcdGreatest(a, b, g);
    DividesAntisym(g, Gcd(a, b));
  }

  /** Two pairs with the same common divisors have the same Gcd. */
  lemma GcdSameDivisors(a: nat, b: nat, u: nat, v: nat)
    requires forall d :: Divides(d, a) && Divides(d, b) <==> Divides(d, u) && Divides(d, v)
    ensures Gcd(a, b) == Gcd(u, v)
  {
    GcdDivides(u, v);
    forall d | Divides(d, a) && Divides(d, b)
      ensures Divides(d, Gcd(u, v))
    {
      GcdGreatest(u, v, d);
    }
    GcdUnique(a, b, Gcd(u, v));
  }

  /** Gcd of the absolute values is a common divisor of signed numbers that every common divisor divides. */
  lemma GcdOfAbs(a: int, b: int)
    ensures Divides(Gcd(Abs(a), Abs(b)), a) && Divides(Gcd(Abs(a), Abs(b)), b)
    ensures forall d :: Divides(d, a) && Divides(d, b) ==> Divides(d, Gcd(Abs(a), Abs(b)))
  {
    var g := Gcd(Abs(a), Abs(b));
    GcdDivides(Abs(a), Abs(b));
    DividesNeg(g, a);
    DividesNeg(g, b);
    forall d | Divides(d, a) && Divides(d, b)
      ensures Divides(d, g)
    {
      DividesNeg(d, a);
      DividesNeg(d, b);
      GcdGreatest(Abs(a), Abs(b), d);
    }
  }

  /** `a mod m` and `|a|` have the same common divisors with m. */
  lemma ReduceSameDivisors(d: int, a: int, m: nat)
    requires m > 0
    ensures Divides(d, a % m) && Divides(d, m) <==> Divides(d, Abs(a)) && Divides(d, m)
  {
    var q := a / m;
    assert a % m == a + (-q) * m;
    assert a == a % m + q * m;
    DividesNeg(d, a);
    if Divides(d, m) {
      if Divides(d, a) {
        DividesCombination(d, a, m, -q);
      }
      if Divides(d, a % m) {
        DividesCombination(d, a % m, m, q);
      }
    }
  }

  /** Reducing the first argument modulo the second keeps the Gcd. */
  lemma GcdReduce(a: int, m: nat)
    requires m > 0
    ensures Gcd(a % m, m) == Gcd(Abs(a), m)
  {
    forall d
      ensures Divides(d, a % m) && Divides(d, m) <==> Divides(d, Abs(a)) && Divides(d, m)
    {
      ReduceSameDivisors(d, a, m);
    }
    GcdSameDivisors(a % m, m, Abs(a), m);
  }

  lemma GcdComm(a: nat, b: nat)
    ensures Gcd(a, b) == Gcd(b, a)
  {
    GcdSameDivisors(a, b, b, a);
  }

  lemma GcdPositive(a: nat, b: nat)
    requires a > 0 || b > 0
    ensures Gcd(a, b) > 0
  {
    GcdDivides(a, b);
  }

  /** A positive Gcd is at most each positive argument. */
  lemma GcdLe(a: nat, b: nat)
    requires a > 0
    ensures Gcd(a, b) <= a
  {
    GcdPositive(a, b);
    GcdDivides(a, b);
    DividesLe(Gcd(a, b), a);
  }

  /** Euclid's step on the second argument, in either order. */
  lemma GcdStep(a: nat, b: nat)
    requires b > 0
    ensures Gcd(a, b) == Gcd(b, a % b) == Gcd(a % b, b)
  {
    GcdComm(b, a % b);
  }

  /** Halving an even argument keeps the Gcd with an odd number. */
  lemma GcdHalve(a: nat, n: nat)
    requires a % 2 == 0 && n % 2 == 1
    ensures Gcd(a, n) == Gcd(a / 2, n)
  {
    forall d | Divides(d, a) && Divides(d, n)
      ensures Divides(d, a / 2)
    {
      OddDivisorOfDouble(d, a / 2, n);
    }
    forall d | Divides(d, a / 2) && Divides(d, n)
      ensures Divides(d, a)
    {
      DividesMultiple(d, a / 2, 2);
    }
    GcdSameDivisors(a, n, a / 2, n);
  }

  /** The product of two odd numbers is odd. */
  lemma OddTimesOdd(m: int, j: int)
    requires m % 2 == 1 && j % 2 == 1
    ensures (m * j) % 2 == 1
  {
    var a, b := m / 2, j / 2;
    assert m * j == 1 + 2 * (2 * a * b + a + b);
    ModAddMultiple(1, 2, 2 * a * b + a + b);
  }

  /** A divisor of an odd number that divides 2k divides k. */
  lemma OddDivisorOfDouble(d: int, k: int, n: int)
    requires n % 2 == 1 && Divides(d, n) && Divides(d, 2 * k)
    ensures Divides(d, k)
  {
    var m := Abs(d);
    if m % 2 == 0 {
      EvenDivisorMakesEven(n, m);
    }
    var j := (2 * k) / m;
    assert 2 * k == m * j;
    if j % 2 == 1 {
      OddTimesOdd(m, j);
    }
    var h := j / 2;
    assert m * j == 2 * (m * h);
    ModOfMultiple(m, h);
  }

  // ---------------------------------------------------------------------------
  // Primes

  /** The cofactor of a divisor d >= f of a number below f*f is below f. */
  lemma CofactorBelow(n: int, d: int, k: int, f: int)
    requires 0 < f <= d && n == d * k && k >= 0 && n < f * f
    ensures k < f
  {
    if k >= f {
      MulLeMono(d, f, k);
      MulLeMono(f, f, d);
    }
  }

  /** A number with no divisor in [2, f) and f*f above it is prime. */
  lemma PrimeBySquareBound(n: int, f: int)
    requires n >= 2 && f >= 2 && f * f > n
    requires forall d :: 2 <= d < f ==> n % d != 0
    ensures IsPrime(n)
  {
    forall d | f <= d < n && n % d == 0
      ensures false
    {
      var k := n / d;
      assert n == d * k;
      CofactorBelow(n, d, k, f);
      ModOfMultiple(k, d);
    }
  }

  /** A number that is not prime has a divisor e >= 2 with e*e <= n. */
  lemma SmallDivisor(n: int) returns (e: int)
    requires n >= 2 && !IsPrime(n)
    ensures 2 <= e && e * e <= n && n % e == 0
  {
    var d :| 2 <= d < n && n % d == 0;
    var k := n / d;
    assert n == d * k;
    if d * d <= n {
      e := d;
    } else {
      CofactorBelow(n, d, k, d);
      MulLeMono(k, k, d);
      ModOfMultiple(k, d);
      e := k;
    }
  }

  /** The least divisor above 1 of a positive number is prime. */
  lemma LeastDivisorIsPrime(n: int, f: int)
    requires n >= 2 && 2 <= f && n % f == 0
    requires forall d :: 2 <= d < f ==> n % d != 0
    ensures IsPrime(f)
  {
    forall d | 2 <= d < f
      ensures f % d != 0
    {
      if f % d == 0 {
        assert Divides(d, f) && Divides(f, n);
        DividesTrans(d, f, n);
      }
    }
  }

  /** A prime's Gcd with a number in [1, p) is 1. */
  lemma PrimeCoprimeBelow(p: int, a: int)
    requires IsPrime(p) && 1 <= a < p
    ensures Gcd(a, p) == 1
  {
    var g := Gcd(a, p);
    GcdDivides(a, p);
    GcdPositive(a, p);
    DividesLe(g, a);
  }

  lemma {:induction false} PowNonNegative(b: int, e: nat)
    requires b >= 0
    ensures Pow(b, e) >= 0
    decreases e
  {
    if e > 0 {
      PowNonNegative(b, e - 1);
      MulLeMono(b, 0, Pow(b, e - 1));
    }
  }

  lemma PowPositive(b: int, e: nat)
    requires b > 0
    ensures Pow(b, e) > 0
  {
  }

  lemma {:induction false} PowAdd(b: int, i: nat, j: nat)
    ensures Pow(b, i + j) == Pow(b, i) * Pow(b, j)
    decreases i
  {
    if i > 0 {
      PowAdd(b, i - 1, j);
      assert Pow(b, i + j) == b * Pow(b, i - 1 + j);
    }
  }

  lemma {:induction false} PowEvenBase(b: int, e: nat)
    requires b % 2 == 0 && e >= 1
    ensures Pow(b, e) % 2 == 0
    decreases e
  {
    var h := b / 2;
    assert Pow(b, e) == 2 * (h * Pow(b, e - 1));
    ModOfMultiple(2, h * Pow(b, e - 1));
  }
}
