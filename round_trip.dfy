/** Why the generated keys work: for keys as `genKeys` builds them, decrypting
    the encryption of any value below the modulus gives that value back. The
    proof goes through Euclid's lemma, the binomial theorem, Fermat's little
    theorem for each prime, and the step that combines the two primes
    (the Chinese remainder theorem for a product of two distinct primes). */
module RsaRoundTrip {
  import opened NumberTheory
  import opened Euclidean
  import opened ModExp
  import opened KeyGen

  // ---------------------------------------------------------------------------
  // Primes and divisibility

  /** The only positive divisors of a prime are 1 and itself. */
  lemma PrimeDivisor(p: int, g: int)
    requires IsPrime(p) && g > 0 && p % g == 0
    ensures g == 1 || g == p
  {
    DividesLe(g, p);
  }

  /** Divisibility ignores the sign of the dividend. */
  lemma DividesAbs(d: int, a: int)
    ensures Divides(d, Abs(a)) <==> Divides(d, a)
  {
    DividesNeg(d, a);
  }

  /** A prime that does not divide a is coprime to it. */
  lemma PrimeCoprime(p: int, a: int)
    requires IsPrime(p) && !Divides(p, a)
    ensures Gcd(Abs(a), p) == 1
  {
    var g := Gcd(Abs(a), p);
    GcdDivides(Abs(a), p);
    GcdPositive(Abs(a), p);
    PrimeDivisor(p, g);
    DividesAbs(p, a);
  }

  /** A prime does not divide a different prime. */
  lemma DistinctPrimesCoprime(p: int, q: int)
    requires IsPrime(p) && IsPrime(q) && p != q
    ensures !Divides(q, p)
  {
    if Divides(q, p) {
      PrimeDivisor(p, q);
    }
  }

  /** Euclid's lemma: a prime dividing a product divides one of the factors. */
  lemma EuclidLemma(p: int, a: int, b: int)
    requires IsPrime(p) && Divides(p, a * b)
    ensures Divides(p, a) || Divides(p, b)
  {
    if !Divides(p, a) {
      PrimeCoprime(p, a);
      var r := InverseMod(a, p).value;
      var x, y := a * b * r, (a * r - 1) * b;
      DividesMultiple(p, a * b, r);
      DividesMultiple(p, a * r - 1, b);
      DividesCombination(p, x, y, -1);
      InverseCancels(a, b, r);
    }
  }

  /** a·b·r − (a·r − 1)·b == b: the inverse r cancels a. */
  lemma InverseCancels(a: int, b: int, r: int)
    ensures a * b * r + (-1) * ((a * r - 1) * b) == b
  {
    assert (a * r - 1) * b == a * r * b - b;
    assert a * b * r == a * r * b;
  }

  /** Two distinct primes that both divide x divide it together. */
  lemma TwoPrimesDivide(p: int, q: int, x: int)
    requires IsPrime(p) && IsPrime(q) && p != q
    requires Divides(p, x) && Divides(q, x)
    ensures Divides(p * q, x)
  {
    var t := x / p;
    assert x == p * t;
    DistinctPrimesCoprime(p, q);
    EuclidLemma(q, p, t);
    var s := t / q;
    assert t == q * s;
    assert x == (p * q) * s;
    ModOfMultiple(p * q, s);
  }

  // ---------------------------------------------------------------------------
  // Binomial coefficients

  /** The binomial coefficient n choose k by Pascal's rule (zero outside 0..n). */
  function Binom(n: nat, k: int): nat
    decreases n
  {
    if k < 0 then 0
    else if n == 0 then (if k == 0 then 1 else 0)
    else Binom(n - 1, k - 1) + Binom(n - 1, k)
  }

  lemma {:induction false} BinomAbove(n: nat, k: int)
    requires k > n
    ensures Binom(n, k) == 0
    decreases n
  {
    if n > 0 {
      BinomAbove(n - 1, k - 1);
      BinomAbove(n - 1, k);
    }
  }

  lemma {:induction false} BinomEnds(n: nat)
    ensures Binom(n, 0) == 1 && Binom(n, n) == 1 && Binom(n, n + 1) == 0
    decreases n
  {
    BinomAbove(n, n + 1);
    if n > 0 {
      BinomEnds(n - 1);
      BinomAbove(n - 1, n);
    }
  }

  /** The absorption identity k * C(n, k) == n * C(n-1, k-1). */
  lemma {:induction false} Absorption(n: nat, k: int)
    requires n >= 1
    ensures k * Binom(n, k) == n * Binom(n - 1, k - 1)
    decreases n
  {
    if k <= 0 {
    } else if n == 1 {
      AbsorptionOne(k);
    } else {
      var a, b := Binom(n - 1, k - 1), Binom(n - 1, k);
      var c, d := Binom(n - 2, k - 2), Binom(n - 2, k - 1);
      Absorption(n - 1, k);
      Absorption(n - 1, k - 1);
      PascalStep(n - 1, k - 1);
      PascalStep(n, k);
      AbsorptionAlgebra(n, k, a, b, c, d);
    }
  }

  /** Pascal's rule, for k >= 0 and n >= 1. */
  lemma PascalStep(n: nat, k: int)
    requires n >= 1 && k >= 0
    ensures Binom(n, k) == Binom(n - 1, k - 1) + Binom(n - 1, k)
  {
  }

  lemma AbsorptionOne(k: int)
    requires k > 0
    ensures k * Binom(1, k) == Binom(0, k - 1)
  {
    if k >= 2 {
      BinomAbove(1, k);
      BinomAbove(0, k - 1);
    } else {
      assert Binom(1, 1) == Binom(0, 0) + Binom(0, 1) == 1;
    }
  }

  /** The arithmetic step of the absorption identity. */
  lemma AbsorptionAlgebra(n: int, k: int, a: int, b: int, c: int, d: int)
    requires k * b == (n - 1) * d && (k - 1) * a == (n - 1) * c && a == c + d
    ensures k * (a + b) == n * a
  {
    assert k * (a + b) == k * a + k * b;
    assert k * a == (k - 1) * a + a;
    assert (n - 1) * c + (n - 1) * d == (n - 1) * (c + d);
    assert n * a == (n - 1) * a + a;
  }

  /** A prime p divides p choose k for 0 < k < p. */
  lemma PrimeDividesBinom(p: int, k: int)
    requires IsPrime(p) && 0 < k < p
    ensures Divides(p, Binom(p, k))
  {
    Absorption(p, k);
    ModOfMultiple(p, Binom(p - 1, k - 1));
    assert Divides(p, k * Binom(p, k));
    EuclidLemma(p, k, Binom(p, k));
    if Divides(p, k) {
      DivModUnique(k, p, 0, k);
    }
  }

  /** The first m+1 terms of the binomial expansion of (a+1)^n. */
  function BinomSum(a: int, n: nat, m: int): int
    decreases m
  {
    if m < 0 then 0 else BinomSum(a, n, m - 1) + Binom(n, m) * Pow(a, m)
  }

  /** Pascal's rule lifted to the partial sums. */
  lemma {:induction false} PascalSum(a: int, n: nat, m: int)
    requires m >= -1
    ensures BinomSum(a, n + 1, m) == BinomSum(a, n, m) + a * BinomSum(a, n, m - 1)
    decreases m + 1
  {
    if m == 0 {
      assert BinomSum(a, n + 1, 0) == Binom(n + 1, 0);
      BinomEnds(n);
      BinomEnds(n + 1);
    } else if m > 0 {
      PascalSum(a, n, m - 1);
      var x, y := Binom(n, m - 1), Binom(n, m);
      assert Binom(n + 1, m) == x + y;
      PascalAlgebra(a, BinomSum(a, n, m - 1), BinomSum(a, n, m - 2), x, y, Pow(a, m), Pow(a, m - 1));
    }
  }

  /** The arithmetic step of PascalSum. */
  lemma PascalAlgebra(a: int, s1: int, s2: int, x: int, y: int, pm: int, pm1: int)
    requires pm == a * pm1
    ensures s1 + a * s2 + (x + y) * pm == (s1 + y * pm) + a * (s2 + x * pm1)
  {
    assert (x + y) * pm == x * pm + y * pm;
    assert a * (s2 + x * pm1) == a * s2 + x * (a * pm1);
  }

  /** The binomial theorem for (a + 1)^n. */
  lemma {:induction false} BinomialTheorem(a: int, n: nat)
    ensures Pow(a + 1, n) == BinomSum(a, n, n)
    decreases n
  {
    if n == 0 {
      BinomEnds(0);
    } else {
      BinomialTheorem(a, n - 1);
      PascalSum(a, n - 1, n);
      BinomEnds(n - 1);
      var s := BinomSum(a, n - 1, n - 1);
      assert Pow(a + 1, n) == (a + 1) * s;
      assert BinomSum(a, n - 1, n) == s + Binom(n - 1, n) * Pow(a, n);
      assert BinomSum(a, n - 1, n) == s;
      SuccessorTimes(a, s);
    }
  }

  /** (a + 1)·s == s + a·s, kept apart from the induction. */
  lemma SuccessorTimes(a: int, s: int)
    ensures (a + 1) * s == s + a * s
  {
  }

  /** All terms but the last of the expansion of (a + 1)^p are 1 plus multiples of p. */
  lemma {:induction false} InnerTerms(a: int, p: int, m: int)
    requires IsPrime(p) && 0 <= m < p
    ensures Divides(p, BinomSum(a, p, m) - 1)
    decreases m
  {
    if m == 0 {
      BinomEnds(p);
      assert BinomSum(a, p, 0) == 1;
      DividesSelf(p);
    } else {
      InnerTerms(a, p, m - 1);
      PrimeDividesBinom(p, m);
      DividesMultiple(p, Binom(p, m), Pow(a, m));
      var x, y := BinomSum(a, p, m - 1) - 1, Binom(p, m) * Pow(a, m);
      assert BinomSum(a, p, m) - 1 == x + 1 * y;
      DividesCombination(p, x, y, 1);
    }
  }

  /** (a + 1)^p and a^p + 1 leave the same remainder modulo a prime p. */
  lemma FreshmansDream(a: int, p: int)
    requires IsPrime(p)
    ensures Divides(p, Pow(a + 1, p) - Pow(a, p) - 1)
  {
    BinomialTheorem(a, p);
    InnerTerms(a, p, p - 1);
    BinomEnds(p);
    assert BinomSum(a, p, p) == BinomSum(a, p, p - 1) + Pow(a, p);
  }

  /** Fermat's little theorem: p divides a^p - a. */
  lemma {:induction false} FermatLittle(a: nat, p: int)
    requires IsPrime(p)
    ensures Divides(p, Pow(a, p) - a)
    decreases a
  {
    if a == 0 {
      assert Pow(0, p) == 0 * Pow(0, p - 1) == 0;
      DividesSelf(p);
    } else {
      FermatLittle(a - 1, p);
      FreshmansDream(a - 1, p);
      DividesCombination(p, Pow(a, p) - Pow(a - 1, p) - 1, Pow(a - 1, p) - (a - 1), 1);
    }
  }

  /** Raising to 1 + j*(p-1) leaves every value unchanged modulo p. */
  lemma {:induction false} FermatPower(m: nat, p: int, j: nat)
    requires IsPrime(p)
    ensures Divides(p, Pow(m, 1 + j * (p - 1)) - m)
    decreases j
  {
    if j == 0 {
      assert Pow(m, 1) == m;
      DividesSelf(p);
    } else {
      FermatPower(m, p, j - 1);
      var x := Pow(m, 1 + (j - 1) * (p - 1));
      var y := Pow(m, p - 1);
      assert 1 + j * (p - 1) == (1 + (j - 1) * (p - 1)) + (p - 1);
      PowAdd(m, 1 + (j - 1) * (p - 1), p - 1);
      assert Pow(m, p) == m * y;
      FermatLittle(m, p);
      DividesMultiple(p, x - m, y);
      DividesCombination(p, (x - m) * y, Pow(m, p) - m, 1);
      assert (x - m) * y + 1 * (Pow(m, p) - m) == x * y - m;
    }
  }

  // ---------------------------------------------------------------------------
  // Powers modulo n

  lemma {:induction false} PowMul(b: int, e: nat, d: nat)
    ensures Pow(Pow(b, e), d) == Pow(b, e * d)
    decreases d
  {
    if d > 0 {
      PowMul(b, e, d - 1);
      PowAdd(b, e, e * (d - 1));
      assert e + e * (d - 1) == e * d;
    }
  }

  lemma {:induction false} PowMod(x: int, d: nat, n: int)
    requires n > 0
    ensures Pow(x % n, d) % n == Pow(x, d) % n
    decreases d
  {
    if d > 0 {
      PowMod(x, d - 1, n);
      ModMulMod(x % n, Pow(x % n, d - 1), n);
      ModMulMod(x, Pow(x, d - 1), n);
      ModMod(x, n);
    }
  }

  /** e*d is one more than a non-negative multiple of phi. */
  lemma ExponentProduct(e: int, d: int, phi: int) returns (t: nat)
    requires e >= 1 && 0 <= d && phi >= 2 && (e * d) % phi == 1
    ensures e * d == 1 + t * phi && d >= 1
  {
    MulLeMono(e, 0, d);
    t := (e * d) / phi;
    assert e * d == phi * t + 1;
  }

  /** x raised to e*d modulo n = p*q is x again, for any x below n. */
  lemma PowerRoundTrip(x: nat, p: int, q: int, t: nat)
    requires IsPrime(p) && IsPrime(q) && p != q && x < p * q
    ensures Pow(x, 1 + t * ((p - 1) * (q - 1))) % (p * q) == x
  {
    var ed := 1 + t * ((p - 1) * (q - 1));
    var j1, j2 := t * (q - 1), t * (p - 1);
    ExponentSplit(t, p - 1, q - 1);
    MulLeMono(t, 0, q - 1);
    MulLeMono(t, 0, p - 1);
    FermatPower(x, p, j1);
    FermatPower(x, q, j2);
    TwoPrimesDivide(p, q, Pow(x, ed) - x);
    MulLeMono(p, 1, q);
    RemainderFromDivides(Pow(x, ed), x, p * q);
  }

  /** t*(a*b) regrouped around either factor. */
  lemma ExponentSplit(t: int, a: int, b: int)
    ensures t * (a * b) == (t * b) * a && t * (a * b) == (t * a) * b
  {
  }

  /** A number that differs from x in [0, m) by a multiple of m leaves the remainder x. */
  lemma RemainderFromDivides(y: int, x: int, m: int)
    requires m > 0 && 0 <= x < m && Divides(m, y - x)
    ensures y % m == x
  {
    var s := (y - x) / m;
    assert y == x + m * s;
    ModAddMultiple(x, m, s);
    DivModUnique(x, m, 0, x);
  }

  /** A textbook RSA key pair: distinct primes p and q, and exponents whose product is
      one more than a multiple of (p-1)*(q-1). */
  predicate KeyPair(p: int, q: int, e: int, d: int) {
    IsPrime(p) && IsPrime(q) && p != q && e >= 1 && d >= 0 && (e * d) % ((p - 1) * (q - 1)) == 1
  }

  /** For a key pair, decrypting the encryption of a value below n = p*q returns the value:
      modExp(modExp(v, e, n), d, n) == v. */
  lemma KeyPairRoundTrip(p: int, q: int, e: int, d: int, v: int)
    requires KeyPair(p, q, e, d) && 0 <= v < p * q
    ensures ModPow(ModPow(v, e, p * q), d, p * q) == v
  {
    var n, phi := p * q, (p - 1) * (q - 1);
    if p < q {
      MulLeMono(p - 1, 2, q - 1);
    } else {
      MulLeMono(q - 1, 2, p - 1);
    }
    var t := ExponentProduct(e, d, phi);
    MulLeMono(p, 1, q);
    var c := ModPow(v, e, n);
    assert c == Pow(v, e) % n;
    PowNonNegative(v, e);
    PowMod(Pow(v, e), d, n);
    PowMul(v, e, d);
    PowerRoundTrip(v, p, q, t);
  }

  /** Generated keys form a key pair with modulus p*q. */
  lemma ValidKeysArePair(k: Keys, maxPrime: int, minModulus: int)
    requires KeysValid(k, maxPrime, minModulus)
    ensures KeyPair(k.primeP, k.primeQ, k.pubExp, k.privExp) && k.modulus == k.primeP * k.primeQ
  {
    var phi := (k.primeP - 1) * (k.primeQ - 1);
    MulLeMono(k.primeP - 1, 2, k.primeQ - 1);
    DivModUnique(1, phi, 0, 1);
  }

  /** For keys that satisfy KeysValid, decrypting the encryption of a value below the modulus
      returns the value: modExp(modExp(v, e, n), d, n) == v. */
  lemma RoundTrip(k: Keys, maxPrime: int, minModulus: int, v: int)
    requires KeysValid(k, maxPrime, minModulus) && 0 <= v < k.modulus
    ensures ModPow(ModPow(v, k.pubExp, k.modulus), k.privExp, k.modulus) == v
  {
    ValidKeysArePair(k, maxPrime, minModulus);
    KeyPairRoundTrip(k.primeP, k.primeQ, k.pubExp, k.privExp, v);
  }

  /** The classic example key: p = 61, q = 53, n = 3233, e = 17, d = 2753. The block 65
      encrypts to 2790, and 2790 decrypts to 65. */
  lemma ClassicExample(p: int, q: int, e: int, d: int)
    requires p == 61 && q == 53 && e == 17 && d == 2753
    ensures ModPow(65, e, p * q) == 2790
    ensures ModPow(2790, d, p * q) == 65
  {
    SmallPrime(p);
    SmallPrime(q);
    assert (e * d) % ((p - 1) * (q - 1)) == 1;
    ClassicEncrypt(e, p * q);
    KeyPairRoundTrip(p, q, e, d, 65);
  }

  lemma SmallPrime(p: int)
    requires p == 53 || p == 61
    ensures IsPrime(p)
  {
    forall k | 2 <= k < p
      ensures p % k != 0
    {
    }
  }

  lemma ClassicEncrypt(e: int, n: int)
    requires e == 17 && n == 3233
    ensures ModPow(65, e, n) == 2790
  {
    assert Pow(65, 1) == 65;
    assert Pow(65, 2) == 4225;
    assert Pow(65, 3) == 274625;
    assert Pow(65, 4) == 17850625;
    assert Pow(65, 5) == 1160290625;
    assert Pow(65, 6) == 75418890625;
    assert Pow(65, 7) == 4902227890625;
    assert Pow(65, 8) == 318644812890625;
    assert Pow(65, 9) == 20711912837890625;
    assert Pow(65, 10) == 1346274334462890625;
    assert Pow(65, 11) == 87507831740087890625;
    assert Pow(65, 12) == 5688009063105712890625;
    assert Pow(65, 13) == 369720589101871337890625;
    assert Pow(65, 14) == 24031838291621636962890625;
    assert Pow(65, 15) == 1562069488955406402587890625;
    assert Pow(65, 16) == 101534516782101416168212890625;
    assert Pow(65, 17) == 6599743590836592050933837890625;
  }
}
