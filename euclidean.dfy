/** Euclid's algorithm on C++ `long long` values, the extended algorithm's
    trace table of remainders, quotients and Bézout coefficients, and the
    modular inverse that key generation takes from it. */
module Euclidean {
  import opened Wrappers
  import opened NumberTheory
  import opened CppInt

  /** The last non-zero remainder of the A/B/R loop. C++ `%` truncates, so the
      result carries a sign for negative inputs; its magnitude is the gcd. */
  method Euclid(a: int, b: int) returns (g: int)
    requires b != 0
    ensures g != 0 && Abs(g) == Gcd(Abs(a), Abs(b))
    ensures Divides(g, a) && Divides(g, b)
    ensures forall d :: Divides(d, a) && Divides(d, b) ==> Divides(d, g)
    ensures a >= 0 && b > 0 ==> g == Gcd(a, b)
    ensures Divides(b, a) ==> g == b
  {
    var A, B := a, b;
    while true
      invariant B != 0
      invariant Gcd(Abs(A), Abs(B)) == Gcd(Abs(a), Abs(b))
      invariant a >= 0 && b > 0 ==> A >= 0 && B > 0
      invariant Divides(b, a) ==> A == a && B == b
      decreases Abs(B)
    {
      var R := CppRem(A, B);
      CppRemAbs(A, B);
      CppRemDivides(A, B);
      if R == 0 {
        LastRemainderIsGcd(a, b, A, B);
        return B;
      }
      GcdStep(Abs(A), Abs(B));
      A, B := B, R;
    }
  }

  /** When B divides A, B is (up to sign) the gcd of the original pair. */
  lemma LastRemainderIsGcd(a: int, b: int, A: int, B: int)
    requires B != 0 && Gcd(Abs(A), Abs(B)) == Gcd(Abs(a), Abs(b)) && Abs(A) % Abs(B) == 0
    ensures Abs(B) == Gcd(Abs(a), Abs(b))
    ensures Divides(B, a) && Divides(B, b)
    ensures forall d :: Divides(d, a) && Divides(d, b) ==> Divides(d, B)
  {
    var g := Gcd(Abs(a), Abs(b));
    assert Abs(B) == g by {
      assert Gcd(Abs(A), Abs(B)) == Gcd(Abs(B), 0);
    }
    GcdOfAbs(a, b);
    forall d | Divides(d, a) && Divides(d, b)
      ensures Divides(d, B)
    {
      DividesNeg(d, B);
    }
  }

  /** One row of the trace: a remainder, the quotient that produced it, and
      the coefficients x, y with remainder == a*x + b*y. The final row has
      no coefficients (the source marks them with LLONG_MIN). */
  datatype Row = Row(remainder: int, quotient: int, x: Option<int>, y: Option<int>)

  predicate Bezout(r: Row, a: int, b: int) {
    r.x.Some? && r.y.Some? && r.remainder == a * r.x.value + b * r.y.value
  }

  /** The coefficient recurrence x = x'' - q*x' keeps remainder == a*x + b*y. */
  lemma BezoutStep(prev: Row, last: Row, q: int, a: int, b: int)
    requires Bezout(prev, a, b) && Bezout(last, a, b)
    ensures Bezout(Row(prev.remainder - q * last.remainder, q,
                       Some(prev.x.value - q * last.x.value),
                       Some(prev.y.value - q * last.y.value)), a, b)
  {
    var x := prev.x.value - q * last.x.value;
    var y := prev.y.value - q * last.y.value;
    assert a * x + b * y == (a * prev.x.value + b * prev.y.value)
                            - q * (a * last.x.value + b * last.y.value);
  }

  /** Every row carries coefficients for its remainder. */
  predicate AllBezout(v: seq<Row>, a: int, b: int) {
    forall i :: 0 <= i < |v| ==> Bezout(v[i], a, b)
  }

  /** Each row from the third on divides the two remainders before it, with a smaller remainder. */
  predicate DivisionSteps(v: seq<Row>) {
    forall i :: 2 <= i < |v| ==>
      v[i - 2].remainder == v[i].quotient * v[i - 1].remainder + v[i].remainder
      && Abs(v[i].remainder) < Abs(v[i - 1].remainder)
  }

  lemma AppendStep(v: seq<Row>, row: Row)
    requires |v| >= 2 && DivisionSteps(v)
    requires v[|v| - 2].remainder == row.quotient * v[|v| - 1].remainder + row.remainder
    requires Abs(row.remainder) < Abs(v[|v| - 1].remainder)
    ensures DivisionSteps(v + [row])
  {
    var w := v + [row];
    forall i | 2 <= i < |w|
      ensures w[i - 2].remainder == w[i].quotient * w[i - 1].remainder + w[i].remainder
      ensures Abs(w[i].remainder) < Abs(w[i - 1].remainder)
    {
      if i < |v| {
        assert w[i - 2] == v[i - 2] && w[i - 1] == v[i - 1] && w[i] == v[i];
      } else {
        assert w[i - 2] == v[|v| - 2] && w[i - 1] == v[|v| - 1] && w[i] == row;
      }
    }
  }

  lemma AppendBezout(v: seq<Row>, row: Row, a: int, b: int)
    requires AllBezout(v, a, b) && Bezout(row, a, b)
    ensures AllBezout(v + [row], a, b)
  {
  }

  /** The trace table of the extended algorithm. */
  method ExtendedEuclidean(a: int, b: int) returns (v: seq<Row>)
    ensures |v| >= 2 && v[0] == Row(a, 0, Some(1), Some(0)) && v[1] == Row(b, 0, Some(0), Some(1))
    ensures b == 0 ==> |v| == 2 && AllBezout(v, a, b)
    ensures b != 0 ==> |v| >= 3 && v[|v| - 1].remainder == 0
                       && v[|v| - 1].x == None && v[|v| - 1].y == None
                       && AllBezout(v[..|v| - 1], a, b)
    ensures DivisionSteps(v)
    ensures b != 0 ==> Abs(v[|v| - 2].remainder) == Gcd(Abs(a), Abs(b))
  {
    v := [Row(a, 0, Some(1), Some(0)), Row(b, 0, Some(0), Some(1))];
    var A, B, R := a, b, b;
    while R != 0
      invariant |v| >= 2 && v[0] == Row(a, 0, Some(1), Some(0)) && v[1] == Row(b, 0, Some(0), Some(1))
      invariant R == B && v[|v| - 1].remainder == B && v[|v| - 2].remainder == A
      invariant b == 0 ==> |v| == 2 && R == 0
      invariant b != 0 ==> B != 0 && Gcd(Abs(A), Abs(B)) == Gcd(Abs(a), Abs(b))
      invariant AllBezout(v, a, b) && DivisionSteps(v)
      decreases Abs(R)
    {
      R := CppRem(A, B);
      var quotient := CppDiv(A, B);
      CppDivision(A, B);
      CppRemAbs(A, B);
      var n := |v|;
      var prev, last := v[n - 2], v[n - 1];
      if R == 0 {
        LastRemainderIsGcd(a, b, A, B);
        var row := Row(R, quotient, None, None);
        AppendStep(v, row);
        assert (v + [row])[..n] == v;
        v := v + [row];
        break;
      }
      var row := Row(R, quotient, Some(prev.x.value - quotient * last.x.value),
                     Some(prev.y.value - quotient * last.y.value));
      BezoutStep(prev, last, quotient, a, b);
      AppendStep(v, row);
      AppendBezout(v, row, a, b);
      v := v + [row];
      GcdStep(Abs(A), Abs(B));
      A, B := B, R;
    }
  }

  /** Extended Euclid on naturals: the gcd with coefficients x, y such that a*x + b*y == gcd. */
  function Egcd(a: nat, b: nat): (r: (nat, int, int))
    ensures r.0 == Gcd(a, b) && a * r.1 + b * r.2 == r.0
    decreases b
  {
    if b == 0 then (a, 1, 0)
    else
      var t := Egcd(b, a % b);
      EgcdStep(a, b, t.1, t.2);
      (t.0, t.2, t.1 - (a / b) * t.2)
  }

  /** Coefficients for (b, a mod b) give coefficients for (a, b): x' = y, y' = x - (a/b)*y. */
  lemma EgcdStep(a: int, b: int, x: int, y: int)
    requires b > 0
    ensures a * y + b * (x - (a / b) * y) == b * x + (a % b) * y
  {
    var q, r := a / b, a % b;
    assert a == b * q + r;
    assert a * y == b * q * y + r * y;
    assert b * (x - q * y) == b * x - b * q * y;
  }

  /** An inverse of `a` modulo `m`, present exactly when a and m are coprime. */
  function InverseMod(a: int, m: int): (r: Option<int>)
    requires m != 0
    ensures r.Some? <==> Gcd(Abs(a), Abs(m)) == 1
    ensures r.Some? ==> 0 <= r.value < Abs(m) && Divides(m, a * r.value - 1)
  {
    var M := Abs(m);
    var t := Egcd(a % M, M);
    GcdReduce(a, M);
    if t.0 == 1 then
      InverseModDivides(a, M, t.1, t.2);
      Some(t.1 % M)
    else None
  }

  lemma InverseModDivides(a: int, m: nat, x: int, y: int)
    requires m > 0 && (a % m) * x + m * y == 1
    ensures Divides(m, a * (x % m) - 1)
  {
    var qa, qx := a / m, x / m;
    assert a == a % m + m * qa;
    assert x % m == x - m * qx;
    assert a * (x % m) - 1 == m * (-y + qa * (x % m) - (a % m) * qx);
    ModOfMultiple(m, -y + qa * (x % m) - (a % m) * qx);
  }

  /** `modularInv(e, phi)` as key generation uses it: its body is not part of
      this model, so it is given as the inverse for a coprime pair. */
  function ModularInv(e: int, phi: int): (d: int)
    requires phi >= 1 && Gcd(Abs(e), phi) == 1
    ensures 0 <= d < phi && (e * d) % phi == 1 % phi
  {
    var d := InverseMod(e, phi).value;
    InverseCongruence(e * d, phi);
    d
  }

  /** A number one more than a multiple of `m` leaves the remainder of 1. */
  lemma InverseCongruence(x: int, m: int)
    requires m >= 1 && Divides(m, x - 1)
    ensures x % m == 1 % m
  {
    var k := (x - 1) / m;
    assert x - 1 == m * k;
    ModAddMultiple(1, m, k);
  }
}
