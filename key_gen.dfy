/** Key generation of the two RSA programs: two distinct odd primes picked from
    the sieve's list by random indexes, modulus n = p*q, phi = (p-1)*(q-1), the
    public exponent 65537 when it is below phi and coprime to it and otherwise
    the least odd e >= 3 coprime to phi, and the private exponent as the
    inverse of e modulo phi. The random indexes are supplied as draws; each
    draw is reduced modulo the length of the list, standing for
    `uniform_int_distribution(0, size - 1)`. */
module KeyGen {
  import opened Wrappers
  import opened NumberTheory
  import opened Euclidean
  import Sieve
  import ModExp

  datatype Keys = Keys(modulus: int, pubExp: int, privExp: int, primeP: int, primeQ: int)

  /** The preferred public exponent. */
  const DefaultPubExp: int := 65537

  /** No odd number from 3 up to (not including) e is coprime to phi. */
  predicate NoOddCoprimeBelow(e: int, phi: nat) {
    forall f :: 3 <= f < e && f % 2 == 1 ==> Gcd(f, phi) != 1
  }

  /** e is the least odd number from 3 on that is coprime to phi. */
  predicate LeastOddCoprime(e: int, phi: nat) {
    e >= 3 && e % 2 == 1 && Gcd(e, phi) == 1 && NoOddCoprimeBelow(e, phi)
  }

  /** Passing an odd e that shares a factor with phi extends the scanned range by two. */
  lemma NoOddCoprimeStep(e: int, phi: nat)
    requires e >= 3 && e % 2 == 1 && Gcd(e, phi) != 1 && NoOddCoprimeBelow(e, phi)
    ensures NoOddCoprimeBelow(e + 2, phi)
  {
    forall f | 3 <= f < e + 2 && f % 2 == 1
      ensures Gcd(f, phi) != 1
    {
      if f != e {
        assert f < e;
      }
    }
  }

  /** The public exponent rule: 65537 when it is below phi and coprime to it, else the least odd coprime e >= 3. */
  predicate PubExpRule(e: int, phi: nat) {
    if DefaultPubExp < phi && Gcd(DefaultPubExp, phi) == 1 then e == DefaultPubExp
    else LeastOddCoprime(e, phi)
  }

  /** 1 + 2*phi is odd and coprime to phi, so the scan for e stops there at the latest. */
  lemma ScanBound(phi: nat)
    requires phi >= 1
    ensures Gcd(1 + 2 * phi, phi) == 1
  {
    var a := 1 + 2 * phi;
    ModAddMultiple(1, phi, 2);
    assert a % phi == 1 % phi;
    GcdStep(a, phi);
    if phi == 1 {
      assert Gcd(phi, a % phi) == Gcd(1, 0);
    } else {
      DivModUnique(1, phi, 0, 1);
      assert Gcd(phi, 1) == Gcd(1, phi % 1);
      assert phi % 1 == 0;
    }
  }

  /** The choice of `pubExp` in `genKeys`: test 65537, else scan 3, 5, 7, ... with Euclid. */
  method ChoosePubExp(phi: nat) returns (e: int)
    requires phi >= 1
    ensures e >= 3 && Gcd(e, phi) == 1
    ensures PubExpRule(e, phi)
    ensures e == PubExp(phi)
  {
    e := DefaultPubExp;
    var g := 0;
    if e < phi {
      g := Euclid(e, phi);
    }
    if e >= phi || g != 1 {
      e := 3;
      g := Euclid(e, phi);
      ScanBound(phi);
      while g != 1
        invariant 3 <= e <= 1 + 2 * phi && e % 2 == 1
        invariant g == Gcd(e, phi)
        invariant NoOddCoprimeBelow(e, phi)
        decreases 1 + 2 * phi - e
      {
        NoOddCoprimeStep(e, phi);
        OddGap(e, phi);
        e := e + 2;
        g := Euclid(e, phi);
      }
    }
    PubExpUnique(e, PubExp(phi), phi);
  }

  /** The exponent the scan settles on when it starts at the odd e and nothing below e fits. */
  function LeastOddCoprimeFrom(e: int, phi: nat): (r: int)
    requires phi >= 1 && 3 <= e <= 1 + 2 * phi && e % 2 == 1 && NoOddCoprimeBelow(e, phi)
    ensures LeastOddCoprime(r, phi)
    decreases 1 + 2 * phi - e
  {
    if Gcd(e, phi) == 1 then e
    else
      ScanBound(phi);
      NoOddCoprimeStep(e, phi);
      OddGap(e, phi);
      LeastOddCoprimeFrom(e + 2, phi)
  }

  /** The public exponent `genKeys` settles on for a given phi. */
  function PubExp(phi: nat): (e: int)
    requires phi >= 1
    ensures e >= 3 && Gcd(e, phi) == 1 && PubExpRule(e, phi)
  {
    if DefaultPubExp < phi && Gcd(DefaultPubExp, phi) == 1 then DefaultPubExp
    else LeastOddCoprimeFrom(3, phi)
  }

  /** The rule leaves no choice: two exponents that both follow it are the same. */
  lemma PubExpUnique(e1: int, e2: int, phi: nat)
    requires PubExpRule(e1, phi) && PubExpRule(e2, phi)
    ensures e1 == e2
  {
  }

  /** An odd e below the odd bound 1 + 2*phi leaves room for e + 2, which is odd as well. */
  lemma OddGap(e: int, phi: nat)
    requires e % 2 == 1 && e < 1 + 2 * phi
    ensures e + 2 <= 1 + 2 * phi && (e + 2) % 2 == 1
  {
    var k := e / 2;
    assert e == 2 * k + 1;
    assert (e + 2) == 2 * (k + 1) + 1;
  }

  /** Two index draws: the first, and the first later one that differs from it. */
  datatype Pick = Pick(index1: int, index2: int, used: nat)

  /** `index1 = dis(gen); index2 = dis(gen); while (index1 == index2) index2 = dis(gen);`
      over the draws supplied; `None` when they run out before two indexes differ. */
  method PickDistinct(count: int, draws: seq<nat>) returns (pick: Option<Pick>)
    requires count >= 1
    ensures pick == Picked(count, draws)
  {
    if |draws| < 2 {
      return None;
    }
    var index1 := draws[0] % count;
    var index2 := draws[1] % count;
    var used := 2;
    while index1 == index2
      invariant 2 <= used <= |draws| && index2 == draws[used - 1] % count
      invariant forall j :: 1 <= j < used - 1 ==> draws[j] % count == index1
      invariant Picked(count, draws) == PickFrom(count, draws, used)
      decreases |draws| - used
    {
      if used == |draws| {
        return None;
      }
      index2 := draws[used] % count;
      used := used + 1;
    }
    pick := Some(Pick(index1, index2, used));
  }

  /** The pick made from one sequence of draws: the first draw, and the first later draw that
      lands on a different index; `None` when every later draw repeats the first index. */
  function Picked(count: int, draws: seq<nat>): (pick: Option<Pick>)
    requires count >= 1
    ensures pick.Some? ==> var k := pick.value;
              2 <= k.used <= |draws| && k.index1 == draws[0] % count && k.index2 == draws[k.used - 1] % count &&
              k.index1 != k.index2 && 0 <= k.index1 < count && 0 <= k.index2 < count &&
              forall j :: 1 <= j < k.used - 1 ==> draws[j] % count == k.index1
    ensures pick.None? <==> |draws| < 2 || forall j :: 1 <= j < |draws| ==> draws[j] % count == draws[0] % count
  {
    if |draws| < 2 then None else PickFrom(count, draws, 2)
  }

  /** The pick once the draws before position `used` have all repeated the first index. */
  function PickFrom(count: int, draws: seq<nat>, used: nat): (pick: Option<Pick>)
    requires count >= 1 && 2 <= used <= |draws|
    requires forall j :: 1 <= j < used - 1 ==> draws[j] % count == draws[0] % count
    ensures pick.Some? ==> var k := pick.value;
              used <= k.used <= |draws| && k.index1 == draws[0] % count && k.index2 == draws[k.used - 1] % count &&
              k.index1 != k.index2 && 0 <= k.index1 < count && 0 <= k.index2 < count &&
              forall j :: 1 <= j < k.used - 1 ==> draws[j] % count == k.index1
    ensures pick.None? <==> forall j :: 1 <= j < |draws| ==> draws[j] % count == draws[0] % count
    decreases |draws| - used
  {
    if draws[used - 1] % count != draws[0] % count then Some(Pick(draws[0] % count, draws[used - 1] % count, used))
    else if used == |draws| then None
    else PickFrom(count, draws, used + 1)
  }

  /** An attempt whose two primes multiply to at most the minimum modulus, so that
      `genKeys` draws again. */
  predicate TooSmall(primes: seq<int>, minModulus: int, draws: seq<nat>)
    requires |primes| >= 1
  {
    var pick := Picked(|primes|, draws);
    pick.Some? && primes[pick.value.index1] * primes[pick.value.index2] <= minModulus
  }

  /** The attempt `genKeys` keeps, scanning from attempt `from`, with its pick: the first
      attempt that is not too small, provided every attempt before it picked two indexes. */
  function Chosen(primes: seq<int>, minModulus: int, attempts: seq<seq<nat>>, from: nat): (r: Option<(nat, Pick)>)
    requires |primes| >= 1 && from <= |attempts|
    ensures r.Some? ==>
              from <= r.value.0 < |attempts| && Picked(|primes|, attempts[r.value.0]) == Some(r.value.1) &&
              primes[r.value.1.index1] * primes[r.value.1.index2] > minModulus &&
              forall i :: from <= i < r.value.0 ==> TooSmall(primes, minModulus, attempts[i])
    ensures r.None? ==>
              forall j :: from <= j < |attempts| && (forall i :: from <= i < j ==> TooSmall(primes, minModulus, attempts[i])) ==>
                TooSmall(primes, minModulus, attempts[j]) || Picked(|primes|, attempts[j]).None?
    decreases |attempts| - from
  {
    if from == |attempts| then None
    else match Picked(|primes|, attempts[from])
      case None => None
      case Some(pick) =>
        if primes[pick.index1] * primes[pick.index2] <= minModulus then Chosen(primes, minModulus, attempts, from + 1)
        else Some((from, pick))
  }

  /** The keys the rest of `genKeys` derives from p and q. */
  function KeysFor(p: int, q: int): (k: Keys)
    requires p >= 3 && q >= 3
    ensures k.modulus == p * q && k.primeP == p && k.primeQ == q
    ensures var phi := (p - 1) * (q - 1);
              phi >= 1 && PubExpRule(k.pubExp, phi) && Gcd(k.pubExp, phi) == 1 &&
              0 <= k.privExp < phi && (k.pubExp * k.privExp) % phi == 1
  {
    var phi := (p - 1) * (q - 1);
    MulLeMono(p - 1, 2, q - 1);
    var e := PubExp(phi);
    assert Abs(e) == e;
    DivModUnique(1, phi, 0, 1);
    Keys(p * q, e, ModularInv(e, phi), p, q)
  }

  /** The primes `genKeys` draws in the attempt it keeps, read off the sieve's list at the
      chosen pick's indexes; `None` when no attempt is kept. */
  function ChosenPrimes(maxPrime: int, minModulus: int, attempts: seq<seq<nat>>): (r: Option<(int, int)>)
    requires maxPrime >= 5
    ensures var primes := Sieve.OddPrimesTo(maxPrime);
              |primes| >= 2 && var c := Chosen(primes, minModulus, attempts, 0);
              (r.Some? <==> c.Some?) &&
              (r.Some? ==> r.value == (primes[c.value.1.index1], primes[c.value.1.index2]))
    ensures r.Some? ==> var (p, q) := r.value;
              IsPrime(p) && IsPrime(q) && 3 <= p <= maxPrime && 3 <= q <= maxPrime && p != q && p * q > minModulus
  {
    var primes := Sieve.OddPrimesTo(maxPrime);
    TwoPrimesListed(maxPrime);
    match Chosen(primes, minModulus, attempts, 0)
    case None => None
    case Some((_, pick)) =>
      var p, q := primes[pick.index1], primes[pick.index2];
      assert p in primes && q in primes;
      DistinctEntries(primes, pick.index1, pick.index2);
      Some((p, q))
  }

  /** The outcome of `genKeys` over the supplied attempts: the keys of the chosen primes,
      or `None` when no attempt is kept. */
  function GeneratedKeys(maxPrime: int, minModulus: int, attempts: seq<seq<nat>>): (keys: Option<Keys>)
    requires maxPrime >= 5
    ensures keys.Some? ==> KeysValid(keys.value, maxPrime, minModulus)
  {
    match ChosenPrimes(maxPrime, minModulus, attempts)
    case None => None
    case Some((p, q)) =>
      KeysForValid(p, q, maxPrime, minModulus);
      Some(KeysFor(p, q))
  }

  /** The generated keys are there exactly when an attempt is chosen, and hold the chosen primes. */
  lemma GeneratedFromChosen(maxPrime: int, minModulus: int, attempts: seq<seq<nat>>)
    requires maxPrime >= 5
    ensures var keys := GeneratedKeys(maxPrime, minModulus, attempts);
              var chosen := ChosenPrimes(maxPrime, minModulus, attempts);
              (keys.Some? <==> chosen.Some?) &&
              (keys.Some? ==> (keys.value.primeP, keys.value.primeQ) == chosen.value)
  {
  }

  /** Distinct primes in range whose product clears the minimum give valid keys. */
  lemma KeysForValid(p: int, q: int, maxPrime: int, minModulus: int)
    requires IsPrime(p) && IsPrime(q) && 3 <= p <= maxPrime && 3 <= q <= maxPrime && p != q
    requires p * q > minModulus
    ensures KeysValid(KeysFor(p, q), maxPrime, minModulus)
  {
  }

  /** What a generated key satisfies: distinct odd primes up to maxPrime, n = p*q above the
      minimum, e chosen by the rule and coprime to phi, and d the inverse of e modulo phi. */
  predicate KeysValid(k: Keys, maxPrime: int, minModulus: int) {
    var p, q := k.primeP, k.primeQ;
    IsPrime(p) && IsPrime(q) && 3 <= p <= maxPrime && 3 <= q <= maxPrime && p != q &&
    k.modulus == p * q && k.modulus > minModulus &&
    var phi := (p - 1) * (q - 1);
    phi >= 1 && PubExpRule(k.pubExp, phi) && Gcd(k.pubExp, phi) == 1 &&
    0 <= k.privExp < phi && (k.pubExp * k.privExp) % phi == 1
  }

  /** `genKeys`: maxPrime is 1000 with minimum modulus 10000 in one program (a smaller
      modulus starts over with fresh draws), 10000 with no minimum in the other.
      Each attempt consumes one sequence of index draws; `None` when they run out. */
  method GenKeys(maxPrime: int, minModulus: int, attempts: seq<seq<nat>>) returns (keys: Option<Keys>)
    requires maxPrime >= 5
    ensures keys == GeneratedKeys(maxPrime, minModulus, attempts)
  {
    var primes := Sieve.Sieve(maxPrime);
    TwoPrimesListed(maxPrime);
    var k := 0;
    while k < |attempts|
      invariant 0 <= k <= |attempts|
      invariant Chosen(primes, minModulus, attempts, 0) == Chosen(primes, minModulus, attempts, k)
    {
      var pick := PickDistinct(|primes|, attempts[k]);
      if pick.None? {
        assert Chosen(primes, minModulus, attempts, 0) == None;
        return None;
      }
      var p := primes[pick.value.index1];
      var q := primes[pick.value.index2];
      if p * q <= minModulus {
        k := k + 1;
        continue;
      }
      assert Chosen(primes, minModulus, attempts, 0) == Some((k, pick.value));
      assert ChosenPrimes(maxPrime, minModulus, attempts) == Some((p, q));
      var key := KeysFromPrimes(p, q, maxPrime, minModulus);
      return Some(key);
    }
    assert Chosen(primes, minModulus, attempts, 0) == None;
    return None;
  }

  /** The rest of `genKeys` once p and q are drawn: n, phi, the public exponent and its inverse. */
  method KeysFromPrimes(p: int, q: int, maxPrime: int, minModulus: int) returns (k: Keys)
    requires IsPrime(p) && IsPrime(q) && 3 <= p <= maxPrime && 3 <= q <= maxPrime && p != q
    requires p * q > minModulus
    ensures KeysValid(k, maxPrime, minModulus)
    ensures k == KeysFor(p, q)
  {
    var modulus := p * q;
    var phi := (p - 1) * (q - 1);
    MulLeMono(p - 1, 2, q - 1);
    assert phi >= 4;
    var e := ChoosePubExp(phi);
    assert Abs(e) == e;
    var d := ModularInv(e, phi);
    DivModUnique(1, phi, 0, 1);
    k := Keys(modulus, e, d, p, q);
  }

  /** From 5 on, the sieve's list holds 3 and 5, so there is a pair to pick from. */
  lemma TwoPrimesListed(maxPrime: int)
    requires maxPrime >= 5
    ensures |Sieve.OddPrimesTo(maxPrime)| >= 2
  {
    var primes := Sieve.OddPrimesTo(maxPrime);
    assert IsPrime(3) && 3 in primes;
    assert IsPrime(5) && 5 in primes;
    TwoMembers(primes, 3, 5);
  }

  /** A list holding two different values has at least two entries. */
  lemma TwoMembers(s: seq<int>, a: int, b: int)
    requires a in s && b in s && a != b
    ensures |s| >= 2
  {
    var i :| 0 <= i < |s| && s[i] == a;
    var j :| 0 <= j < |s| && s[j] == b;
    assert i != j;
  }

  /** Different positions of a strictly increasing list hold different values. */
  lemma DistinctEntries(s: seq<int>, i: int, j: int)
    requires forall a, b :: 0 <= a < b < |s| ==> s[a] < s[b]
    requires 0 <= i < |s| && 0 <= j < |s| && i != j
    ensures s[i] != s[j]
  {
  }

  /** For primes up to 10000 every product modExp forms fits a `long long`. */
  lemma KeysFitLongLong(k: Keys, maxPrime: int, minModulus: int)
    requires KeysValid(k, maxPrime, minModulus) && maxPrime <= 10000
    ensures 0 < k.modulus <= 100000000
    ensures ModExp.ProductBound(k.modulus) <= ModExp.CppInt.LongLongMax
  {
    MulLeMono(k.primeP, k.primeQ, 10000);
    MulLeMono(10000, k.primeP, 10000);
    ModExp.NoOverflow(k.modulus);
  }
}
