/** The odd-only Sieve of Eratosthenes: entry j of the flag array stands for
    the odd number 2j+1; for each odd p with p*p <= n whose entry is still set,
    the odd multiples p*p, p*p + 2p, ... up to n are cleared. */
module Sieve {
  import opened NumberTheory

  /** `d` is a sieving divisor of `x`: at least 3, with d*d <= x, dividing x. */
  predicate Sieves(d: int, x: int) {
    3 <= d && d * d <= x && x % d == 0
  }

  /** `x` has been cleared once every odd p below the bound has been processed. */
  ghost predicate Crossed(x: int, bound: int) {
    exists d :: d < bound && Sieves(d, x)
  }

  /** Passing the odd p and the even p+1 adds exactly the multiples that p sieves. */
  lemma CrossedStep(x: int, p: int)
    requires x % 2 == 1 && p % 2 == 1
    ensures Crossed(x, p + 2) <==> Crossed(x, p) || Sieves(p, x)
  {
    if Crossed(x, p + 2) {
      var d :| d < p + 2 && Sieves(d, x);
      if d < p {
        assert Crossed(x, p);
      } else if d == p + 1 {
        EvenDivisorMakesEven(x, d);
      }
    }
    if Crossed(x, p) {
      var d :| d < p && Sieves(d, x);
      assert d < p + 2;
    }
    if Sieves(p, x) {
      assert p < p + 2;
    }
  }

  /** A p that is itself cleared sieves nothing new: its own sieving divisor already covers its multiples. */
  lemma SkipCrossed(x: int, p: int)
    requires Crossed(p, p) && Sieves(p, x)
    ensures Crossed(x, p)
  {
    var d :| d < p && Sieves(d, p);
    assert Divides(d, p) && Divides(p, x);
    DividesTrans(d, p, x);
    MulLeMono(p, 1, p);
    assert Sieves(d, x);
  }

  /** Between two consecutive odd multiples t and t + 2p of an odd p there is no odd multiple. */
  lemma NoOddMultipleBetween(x: int, t: int, p: int)
    requires p > 0 && p % 2 == 1 && x % 2 == 1 && t % 2 == 1
    requires x % p == 0 && t % p == 0 && t < x
    ensures t + 2 * p <= x
  {
    var k := x / p - t / p;
    assert x - t == p * k;
    MulLeMono(p, 2, k);
  }

  /** Below p*p, an odd number is cleared exactly when it is composite. */
  lemma CrossedIffComposite(x: int, p: int)
    requires x % 2 == 1 && 3 <= x && p >= 3 && x < p * p
    ensures Crossed(x, p) <==> !IsPrime(x)
  {
    if !IsPrime(x) {
      var e := SmallDivisor(x);
      if e % 2 == 0 {
        EvenDivisorMakesEven(x, e);
      }
      if e >= p {
        MulLeMono(e, p, e);
        MulLeMono(p, p, e);
      }
      assert Sieves(e, x);
    }
    if Crossed(x, p) {
      var d :| d < p && Sieves(d, x);
      MulLeMono(d, 2, d);
      assert 2 <= d < x && x % d == 0;
    }
  }

  /** The flags of the odd numbers below 2*|v|+1 match the sieve state for bound p. */
  ghost predicate SievedTo(v: array<bool>, p: int)
    reads v
  {
    forall j :: 0 <= j < v.Length ==> (!v[j] <==> Crossed(2 * j + 1, p))
  }

  /** The odd primes from 3 to n, in increasing order. */
  method Sieve(n: int) returns (primes: seq<int>)
    requires n >= 0
    ensures forall i, j :: 0 <= i < j < |primes| ==> primes[i] < primes[j]
    ensures forall x :: x in primes <==> 3 <= x <= n && IsPrime(x)
    ensures primes == OddPrimesTo(n)
  {
    var v := new bool[(n + 1) / 2](_ => true);
    var p := 3;
    while p * p <= n
      invariant p >= 3 && p % 2 == 1
      invariant SievedTo(v, p)
      decreases n - p * p
    {
      if !v[(p - 1) / 2] {
        SkipStep(v, p);
      } else {
        ClearMultiples(v, p, n);
      }
      assert (p + 2) * (p + 2) == p * p + 4 * p + 4;
      p := p + 2;
    }
    primes := Collect(v);
    SievedArePrimes(v, p, n, primes);
    IncreasingUnique(primes, OddPrimesTo(n));
  }

  /** The primes from 3 to n in increasing order, listed one candidate at a time. */
  function OddPrimesTo(n: int): (s: seq<int>)
    ensures forall i, j :: 0 <= i < j < |s| ==> s[i] < s[j]
    ensures forall x :: x in s <==> 3 <= x <= n && IsPrime(x)
    decreases n
  {
    if n < 3 then []
    else
      var below := OddPrimesTo(n - 1);
      assert forall i :: 0 <= i < |below| ==> below[i] in below;
      below + (if IsPrime(n) then [n] else [])
  }

  /** Two strictly increasing lists with the same members are equal. */
  lemma {:induction false} IncreasingUnique(a: seq<int>, b: seq<int>)
    requires forall i, j :: 0 <= i < j < |a| ==> a[i] < a[j]
    requires forall i, j :: 0 <= i < j < |b| ==> b[i] < b[j]
    requires forall x :: x in a <==> x in b
    ensures a == b
    decreases |a|
  {
    SharedNonEmpty(a, b);
    SharedNonEmpty(b, a);
    if |a| > 0 {
      assert a[0] in b && b[0] in a;
      var a', b' := a[1..], b[1..];
      forall x
        ensures x in a' <==> x in b'
      {
        assert x in a' <==> x in a && x != a[0];
        assert x in b' <==> x in b && x != b[0];
      }
      IncreasingUnique(a', b');
      assert a == [a[0]] + a' && b == [b[0]] + b';
    }
  }

  lemma SharedNonEmpty(a: seq<int>, b: seq<int>)
    requires forall x :: x in a <==> x in b
    ensures |a| > 0 ==> |b| > 0
  {
    if |a| > 0 {
      var x := a[0];
      assert x in a;
      assert x in b;
    }
  }

  /** A cleared p leaves the flags as they are when moving on to p + 2. */
  lemma SkipStep(v: array<bool>, p: int)
    requires p >= 3 && p % 2 == 1 && (p - 1) / 2 < v.Length
    requires SievedTo(v, p) && !v[(p - 1) / 2]
    ensures SievedTo(v, p + 2)
  {
    var q := (p - 1) / 2;
    assert 2 * q + 1 == p;
    assert Crossed(p, p);
    forall j | 0 <= j < v.Length
      ensures !v[j] <==> Crossed(2 * j + 1, p + 2)
    {
      SkipAt(2 * j + 1, p, v[j]);
    }
  }

  /** One flag of SkipStep: for a cleared p, the flag of x stays right when moving to p + 2. */
  lemma SkipAt(x: int, p: int, flag: bool)
    requires x % 2 == 1 && p % 2 == 1 && Crossed(p, p)
    requires !flag <==> Crossed(x, p)
    ensures !flag <==> Crossed(x, p + 2)
  {
    CrossedStep(x, p);
    if Sieves(p, x) {
      SkipCrossed(x, p);
    }
  }

  /** Once p*p exceeds n, the set flags from index 1 on are exactly the odd primes up to n. */
  lemma SievedArePrimes(v: array<bool>, p: int, n: int, primes: seq<int>)
    requires n >= 0 && v.Length == (n + 1) / 2 && p >= 3 && p * p > n
    requires SievedTo(v, p)
    requires forall x :: x in primes <==> 3 <= x < 2 * v.Length + 1 && x % 2 == 1 && v[(x - 1) / 2]
    ensures forall x :: x in primes <==> 3 <= x <= n && IsPrime(x)
  {
    forall x
      ensures x in primes <==> 3 <= x <= n && IsPrime(x)
    {
      if 3 <= x <= n && x % 2 == 1 {
        CrossedIffComposite(x, p);
        assert !v[(x - 1) / 2] <==> Crossed(x, p);
      }
    }
  }

  /** The inner loop for an unmarked p: clear p*p, p*p + 2p, ... up to n. */
  method ClearMultiples(v: array<bool>, p: int, n: int)
    requires v.Length == (n + 1) / 2 && p >= 3 && p % 2 == 1
    requires SievedTo(v, p)
    modifies v
    ensures SievedTo(v, p + 2)
  {
    var t := p * p;
    ModOfMultiple(p, p);
    OddTimesOdd(p, p);
    assert ClearedBelow(v[..], p, t);
    while t <= n
      invariant t >= p * p && t % 2 == 1 && t % p == 0
      invariant ClearedBelow(v[..], p, t)
      decreases n - t
    {
      var k := (t - 1) / 2;
      ClearOne(v[..], p, t);
      v[k] := false;
      ModAddMultiple(t, p, 2);
      ModAddMultiple(t, 2, p);
      t := t + 2 * p;
    }
    ClearedAll(v[..], p, t);
    assert forall j :: 0 <= j < v.Length ==> v[..][j] == v[j];
  }

  /** The flags while p's multiples are being cleared: the state for bound p,
      plus the multiples that p sieves below t. */
  ghost predicate ClearedBelow(s: seq<bool>, p: int, t: int) {
    forall j :: 0 <= j < |s| ==>
      (!s[j] <==> Crossed(2 * j + 1, p) || (Sieves(p, 2 * j + 1) && 2 * j + 1 < t))
  }

  /** Clearing the odd multiple t moves the frontier to the next odd multiple t + 2p. */
  lemma ClearOne(s: seq<bool>, p: int, t: int)
    requires p >= 3 && p % 2 == 1 && t >= p * p && t % 2 == 1 && t % p == 0
    requires (t - 1) / 2 < |s| && ClearedBelow(s, p, t)
    ensures ClearedBelow(s[(t - 1) / 2 := false], p, t + 2 * p)
  {
    var k := (t - 1) / 2;
    var s' := s[k := false];
    assert 2 * k + 1 == t;
    assert Sieves(p, t);
    forall j | 0 <= j < |s'|
      ensures !s'[j] <==> Crossed(2 * j + 1, p) || (Sieves(p, 2 * j + 1) && 2 * j + 1 < t + 2 * p)
    {
      if j != k {
        assert s'[j] == s[j];
        ClearAt(2 * j + 1, p, t, s[j]);
      }
    }
  }

  /** One flag other than t's: clearing t leaves it right for the frontier t + 2p. */
  lemma ClearAt(x: int, p: int, t: int, flag: bool)
    requires p >= 3 && p % 2 == 1 && t % 2 == 1 && t % p == 0 && x % 2 == 1 && x != t
    requires !flag <==> Crossed(x, p) || (Sieves(p, x) && x < t)
    ensures !flag <==> Crossed(x, p) || (Sieves(p, x) && x < t + 2 * p)
  {
    if Sieves(p, x) && t < x {
      NoOddMultipleBetween(x, t, p);
    }
  }

  /** Once the frontier is past every flag, the flags are the state for bound p + 2. */
  lemma ClearedAll(s: seq<bool>, p: int, t: int)
    requires p % 2 == 1 && t > 2 * |s| - 1 && ClearedBelow(s, p, t)
    ensures forall j :: 0 <= j < |s| ==> (!s[j] <==> Crossed(2 * j + 1, p + 2))
  {
    forall j | 0 <= j < |s|
      ensures !s[j] <==> Crossed(2 * j + 1, p + 2)
    {
      CrossedStep(2 * j + 1, p);
    }
  }

  /** The final loop: the odd numbers 2i+1 (i >= 1) whose flag is still set, in order. */
  method Collect(v: array<bool>) returns (primes: seq<int>)
    ensures forall a, b :: 0 <= a < b < |primes| ==> primes[a] < primes[b]
    ensures forall x :: x in primes <==> 3 <= x < 2 * v.Length + 1 && x % 2 == 1 && v[(x - 1) / 2]
  {
    primes := [];
    var i := 1;
    while i < v.Length
      invariant 1 <= i && (i <= v.Length || i == 1)
      invariant forall a, b :: 0 <= a < b < |primes| ==> primes[a] < primes[b]
      invariant forall a :: 0 <= a < |primes| ==> primes[a] < 2 * i + 1
      invariant forall x :: x in primes <==> 3 <= x < 2 * i + 1 && x % 2 == 1 && v[(x - 1) / 2]
    {
      if v[i] {
        primes := primes + [2 * i + 1];
      }
      i := i + 1;
    }
  }
}
