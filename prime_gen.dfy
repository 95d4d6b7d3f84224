/** Random prime generation: draw odd candidates with the requested number of
    digits, discard those with a small prime factor other than themselves, and
    keep the first one the Solovay-Strassen test accepts. The random state is
    replaced by the draws of each attempt; the unbounded retry loop runs over
    the attempts supplied and reports `None` when they run out. */
module PrimeGen {
  import opened Wrappers
  import opened NumberTheory
  import opened BigInt
  import opened Primality

  /** The fifteen primes below 50 that the filter divides by, in the order it tries them. */
  const SmallPrimes: seq<int> := [2, 3, 5, 7, 11, 13, 17, 19, 23, 29, 31, 37, 41, 43, 47]

  /** The filter discards c: some small prime divides c without being c itself. */
  predicate Rejected(c: int) {
    exists i :: 0 <= i < |SmallPrimes| && IsDivisibleBy(c, SmallPrimes[i]) && c != SmallPrimes[i]
  }

  /** The `for (int p : small_primes)` loop, leaving at the first divisor other than the candidate. */
  method SmallPrimeFilter(candidate: int) returns (divisible: bool)
    ensures divisible <==> Rejected(candidate)
  {
    divisible := false;
    var i := 0;
    while i < |SmallPrimes|
      invariant 0 <= i <= |SmallPrimes|
      invariant forall k :: 0 <= k < i ==> !(IsDivisibleBy(candidate, SmallPrimes[k]) && candidate != SmallPrimes[k])
    {
      var p := SmallPrimes[i];
      if IsDivisibleBy(candidate, p) {
        if Compare(candidate, p) != 0 {
          divisible := true;
          break;
        }
      }
      i := i + 1;
    }
  }

  /** The filter never discards a prime. */
  lemma RejectedIsComposite(c: int)
    requires Rejected(c)
    ensures !IsPrime(c)
  {
    var i :| 0 <= i < |SmallPrimes| && IsDivisibleBy(c, SmallPrimes[i]) && c != SmallPrimes[i];
    var p := SmallPrimes[i];
    if c >= 2 {
      DividesLe(p, c);
      assert 2 <= p < c && c % p == 0;
    }
  }

  /** Every prime below 53 is one of the small primes. */
  lemma SmallPrimeListed(e: int)
    requires 2 <= e < 53 && e % 2 != 0 && e % 3 != 0 && e % 5 != 0 && e % 7 != 0
    ensures e in SmallPrimes[4..]
  {
    assert ListedBelow(14);
    assert ListedBelow(25);
    assert ListedBelow(36);
    assert ListedBelow(47);
    assert ListedBelow(53);
    ListedBelowHolds(53, e);
    assert SmallPrimes[4..] == [11, 13, 17, 19, 23, 29, 31, 37, 41, 43, 47];
  }

  /** The small primes from 11 on. */
  const LargerSmallPrimes: set<int> := {11, 13, 17, 19, 23, 29, 31, 37, 41, 43, 47}

  /** e has none of the factors 2, 3, 5 and 7. */
  predicate NoFactorBelow11(e: int) {
    e % 2 != 0 && e % 3 != 0 && e % 5 != 0 && e % 7 != 0
  }

  /** Every e from 2 to m - 1 without a factor below 11 is one of the small primes from 11 on. */
  predicate ListedBelow(m: int)
    decreases m
  {
    m <= 2 || (ListedBelow(m - 1) && (NoFactorBelow11(m - 1) ==> m - 1 in LargerSmallPrimes))
  }

  lemma {:induction false} ListedBelowHolds(m: int, e: int)
    requires ListedBelow(m) && 2 <= e < m && NoFactorBelow11(e)
    ensures e in LargerSmallPrimes
    decreases m
  {
    if e < m - 1 {
      ListedBelowHolds(m - 1, e);
    }
  }

  /** Every number from 2 to 52 has one of the small primes as a factor. */
  lemma ListedFactor(e: int) returns (k: int)
    requires 2 <= e < 53
    ensures 0 <= k < |SmallPrimes| && e % SmallPrimes[k] == 0
  {
    if e % 2 == 0 {
      k := 0;
    } else if e % 3 == 0 {
      k := 1;
    } else if e % 5 == 0 {
      k := 2;
    } else if e % 7 == 0 {
      k := 3;
    } else {
      SmallPrimeListed(e);
      var j :| 4 <= j < |SmallPrimes| && SmallPrimes[j] == e;
      k := j;
    }
  }

  /** A composite below 53 * 53 has a prime factor below 53, which the filter finds. */
  lemma CompositeRejected(c: int)
    requires 2 <= c < 53 * 53 && !IsPrime(c)
    ensures Rejected(c)
  {
    var e := SmallDivisor(c);
    if e >= 53 {
      MulLeMono(e, 53, e);
      MulLeMono(53, 53, e);
    }
    var k := ListedFactor(e);
    var p := SmallPrimes[k];
    assert Divides(p, e) && Divides(e, c);
    DividesTrans(p, e, c);
    MulLeMono(e, 2, e);
    assert IsDivisibleBy(c, p) && c != p;
  }

  /** Below 53 * 53 the filter alone decides primality: it discards exactly the composites. */
  lemma FilterExactBelow(c: int)
    requires 2 <= c < 53 * 53
    ensures Rejected(c) <==> !IsPrime(c)
  {
    if Rejected(c) {
      RejectedIsComposite(c);
    }
    if !IsPrime(c) {
      CompositeRejected(c);
    }
  }

  /** `genRanOdd`: the candidate of `randOddDigits`; its own parity fix never changes it. */
  method GenRanOdd(digits: int, draw: int) returns (result: int)
    requires digits >= 1 && 0 <= draw < DigitRange(digits)
    ensures result == OddCandidate(digits, draw)
  {
    result := RandOddDigits(digits, draw);
    if !IsOdd(result) {
      result := result + 1;
    }
  }

  /** The draws of every attempt fit: the candidate draw is in range, and a
      candidate that reaches the test has witness draws for all its rounds. */
  predicate AttemptsValid(digits: int, iterations: int, draws: seq<int>, witnesses: seq<seq<int>>) {
    digits >= 1 && |witnesses| == |draws| &&
    forall k :: 0 <= k < |draws| ==>
      0 <= draws[k] < DigitRange(digits) &&
      (!Rejected(OddCandidate(digits, draws[k])) ==> ValidDraws(OddCandidate(digits, draws[k]), iterations, witnesses[k]))
  }

  /** Attempt k ends the loop: its candidate passes the filter and the test. */
  predicate Accepted(digits: int, iterations: int, draws: seq<int>, witnesses: seq<seq<int>>, k: int)
    requires AttemptsValid(digits, iterations, draws, witnesses) && 0 <= k < |draws|
  {
    var c := OddCandidate(digits, draws[k]);
    !Rejected(c) && Verdict(c, iterations, witnesses[k])
  }

  /** `genPrime`: the first accepted attempt, and how many attempts were made. */
  method GenPrime(digits: int, iterations: int, draws: seq<int>, witnesses: seq<seq<int>>)
    returns (result: Option<int>, attempts: int)
    requires AttemptsValid(digits, iterations, draws, witnesses)
    ensures 0 <= attempts <= |draws|
    ensures forall k :: 0 <= k < attempts - 1 ==> !Accepted(digits, iterations, draws, witnesses, k)
    ensures result.Some? ==> attempts >= 1 && Accepted(digits, iterations, draws, witnesses, attempts - 1) &&
                             result.value == OddCandidate(digits, draws[attempts - 1])
    ensures result.None? ==> attempts == |draws| && forall k :: 0 <= k < |draws| ==> !Accepted(digits, iterations, draws, witnesses, k)
  {
    attempts := 0;
    result := None;
    var found := false;
    while !found
      invariant 0 <= attempts <= |draws|
      invariant !found ==> result.None? && forall k :: 0 <= k < attempts ==> !Accepted(digits, iterations, draws, witnesses, k)
      invariant found ==> forall k :: 0 <= k < attempts - 1 ==> !Accepted(digits, iterations, draws, witnesses, k)
      invariant found ==> result.Some? && attempts >= 1 && Accepted(digits, iterations, draws, witnesses, attempts - 1) &&
                          result.value == OddCandidate(digits, draws[attempts - 1])
      decreases |draws| - attempts, if found then 0 else 1
    {
      if attempts == |draws| {
        return;
      }
      attempts := attempts + 1;
      var candidate := GenRanOdd(digits, draws[attempts - 1]);
      var divisible := SmallPrimeFilter(candidate);
      if divisible {
        continue;
      }
      var passed := Solovay(candidate, iterations, witnesses[attempts - 1]);
      if passed {
        found := true;
        result := Some(candidate);
      }
    }
  }

  /** A generated value has the requested number of digits, is odd, has no small
      prime factor other than itself, and is at least 2; below 53 * 53 it is prime. */
  lemma AcceptedCandidate(digits: int, iterations: int, draws: seq<int>, witnesses: seq<seq<int>>, k: int)
    requires AttemptsValid(digits, iterations, draws, witnesses) && 0 <= k < |draws|
    requires Accepted(digits, iterations, draws, witnesses, k)
    ensures var c := OddCandidate(digits, draws[k]);
            Pow(10, digits - 1) <= c <= Pow(10, digits) - 1 && c % 2 == 1 && c >= 3 &&
            !Rejected(c) && (c < 53 * 53 ==> IsPrime(c))
  {
    var c := OddCandidate(digits, draws[k]);
    if c < 53 * 53 {
      FilterExactBelow(c);
    }
  }
}
