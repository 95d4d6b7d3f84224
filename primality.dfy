/** The Solovay-Strassen probable-prime test: each round draws a witness a,
    rejects when a shares a factor with n, and otherwise compares the Jacobi
    symbol (a/n), with -1 written as n-1, against a^((n-1)/2) mod n. */
module Primality {
  import opened NumberTheory

  /** The Jacobi symbol (a/n) for odd positive n, computed by the reciprocity
      law: pull out factors 2 of a, then flip the odd a and n. */
  function Jacobi(a: nat, n: nat): (r: int)
    requires n % 2 == 1
    ensures r == -1 || r == 0 || r == 1
    ensures r == 0 <==> Gcd(a, n) != 1
    ensures n == 1 ==> r == 1
    decreases a
  {
    if n == 1 then
      1
    else if a == 0 then
      0
    else if a % 2 == 0 then
      GcdHalve(a, n);
      var j := Jacobi(a / 2, n);
      if n % 8 == 3 || n % 8 == 5 then -j else j
    else
      GcdComm(a, n);
      GcdStep(n, a);
      var j := Jacobi(n % a, a);
      if a % 4 == 3 && n % 4 == 3 then -j else j
  }

  /** The Jacobi value as a residue modulo n: -1 becomes n - 1. */
  function JacobiResidue(a: nat, n: nat): (r: int)
    requires n % 2 == 1 && n >= 3
    ensures 0 <= r < n
    ensures r == 0 <==> Gcd(a, n) != 1
  {
    var j := Jacobi(a, n);
    if j == -1 then n - 1 else j
  }

  /** One round with witness a passes: a is coprime to n and Euler's criterion holds. */
  predicate RoundPasses(n: nat, a: nat)
    requires n % 2 == 1 && n >= 3
  {
    Gcd(a, n) == 1 && JacobiResidue(a, n) == Pow(a, (n - 1) / 2) % n
  }

  /** The draws of `mpz_urandomm(n - 3)` the rounds consume: one per round, each in [0, n - 4].
      Only an odd n >= 3 with at least one round draws anything. */
  predicate ValidDraws(n: int, iterations: int, draws: seq<int>) {
    n < 3 || n % 2 == 0 || iterations <= 0 ||
    (|draws| >= iterations && forall i :: 0 <= i < iterations ==> 0 <= draws[i] < n - 3)
  }

  /** The verdict of `solovay`: n == 2, or n odd and at least 3 with every round passing for witness draw + 2. */
  predicate Verdict(n: int, iterations: int, draws: seq<int>)
    requires ValidDraws(n, iterations, draws)
  {
    n == 2 ||
    (n >= 3 && n % 2 == 1 && forall i :: 0 <= i < iterations ==> RoundPasses(n, draws[i] + 2))
  }

  /** `solovay`: the round loop with its two early rejections. */
  method Solovay(n: int, iterations: int, draws: seq<int>) returns (probablyPrime: bool)
    requires ValidDraws(n, iterations, draws)
    ensures probablyPrime == Verdict(n, iterations, draws)
  {
    if n < 2 {
      return false;
    }
    if n == 2 {
      return true;
    }
    if n % 2 == 0 {
      return false;
    }
    probablyPrime := Rounds(n, iterations, draws);
  }

  /** The round loop of `solovay` for an odd n >= 3: stop at the first failing round. */
  method Rounds(n: int, iterations: int, draws: seq<int>) returns (allPass: bool)
    requires n >= 3 && n % 2 == 1 && ValidDraws(n, iterations, draws)
    ensures allPass <==> forall k :: 0 <= k < iterations ==> RoundPasses(n, draws[k] + 2)
  {
    var i := 0;
    while i < iterations
      invariant 0 <= i && (i <= iterations || i == 0)
      invariant forall k :: 0 <= k < i ==> RoundPasses(n, draws[k] + 2)
    {
      var passes := Round(n, draws[i]);
      if !passes {
        assert !RoundPasses(n, draws[i] + 2);
        return false;
      }
      forall k | 0 <= k < i + 1
        ensures RoundPasses(n, draws[k] + 2)
      {
        if k == i {
          assert passes;
        }
      }
      i := i + 1;
    }
    return true;
  }

  /** One round of the loop of `solovay`: witness a = draw + 2, the gcd check, then
      the Jacobi symbol (with -1 as n-1) against a^((n-1)/2) mod n. */
  method Round(n: int, draw: int) returns (passes: bool)
    requires n >= 3 && n % 2 == 1 && draw >= 0
    ensures passes == RoundPasses(n, draw + 2)
  {
    var nMinus1 := n - 1;
    var a := draw;
    a := a + 2;
    var gcd := Gcd(a, n);
    if gcd != 1 {
      return false;
    }
    var jacobi := Jacobi(a, n);
    var jacobiVal := if jacobi == -1 then nMinus1 else jacobi;
    var exponent := nMinus1 / 2;
    var eulerVal := Pow(a, exponent) % n;
    return jacobiVal == eulerVal;
  }

  /** Every witness lies in [2, n - 2]: the draw is at most n - 4. */
  lemma WitnessRange(n: int, iterations: int, draws: seq<int>, i: int)
    requires n >= 3 && n % 2 == 1 && ValidDraws(n, iterations, draws) && 0 <= i < iterations
    ensures n >= 5 && 2 <= draws[i] + 2 <= n - 2
  {
  }

  /** A rejection in the gcd step is always right: the witness exposes a proper factor. */
  lemma GcdRejectionProvesComposite(n: int, a: int)
    requires n >= 3 && 2 <= a < n && Gcd(a, n) != 1
    ensures !IsPrime(n)
  {
    if IsPrime(n) {
      PrimeCoprimeBelow(n, a);
    }
  }

  /** A prime never fails the gcd step of a round. */
  lemma PrimePassesGcdStep(n: int, a: int)
    requires IsPrime(n) && n >= 3 && 2 <= a < n
    ensures n % 2 == 1 && Gcd(a, n) == 1 && Jacobi(a, n) != 0
  {
    PrimeCoprimeBelow(n, a);
    assert n % 2 != 0;
  }

  /** The verdict in terms of the early checks: below 2 and even n > 2 are rejected,
      2 is accepted, and with no rounds every odd n >= 3 is accepted. */
  lemma VerdictEarlyCases(n: int, iterations: int, draws: seq<int>)
    requires ValidDraws(n, iterations, draws)
    ensures n < 2 ==> !Verdict(n, iterations, draws)
    ensures n == 2 ==> Verdict(n, iterations, draws)
    ensures n > 2 && n % 2 == 0 ==> !Verdict(n, iterations, draws)
    ensures n >= 3 && n % 2 == 1 && iterations <= 0 ==> Verdict(n, iterations, draws)
  {
  }
}
