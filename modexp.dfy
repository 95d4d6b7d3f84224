/** Binary (square-and-multiply) modular exponentiation on C++ `long long`
    values: `%` truncates toward zero, `exp & 1` tests the low bit and
    `exp >>= 1` halves a positive exponent. */
module ModExp {
  import opened NumberTheory
  import opened CppInt

  /** What `modExp` computes: 1 for an exponent that is not positive (the loop
      never runs, so not even 1 is reduced), otherwise base^exp reduced by C++ `%`. */
  function ModPow(base: int, exp: int, mod: int): (r: int)
    requires mod != 0
    ensures exp > 0 ==> Abs(r) < Abs(mod)
    ensures exp > 0 && base >= 0 ==> r == Pow(base, exp) % Abs(mod)
  {
    if exp <= 0 then 1
    else if base >= 0 then PowNonNegative(base, exp); CppRem(Pow(base, exp), mod)
    else CppRem(Pow(base, exp), mod)
  }

  /** The largest magnitude a product of two reduced residues can reach. */
  function ProductBound(mod: int): nat {
    (Abs(mod) - 1) * (Abs(mod) - 1)
  }

  method ModExp(base: int, exp: int, mod: int) returns (result: int, ghost peak: nat)
    requires mod != 0
    ensures result == ModPow(base, exp, mod)
    ensures peak <= ProductBound(mod)
  {
    ghost var b0, e0 := base, exp;
    var b, e := base, exp;
    result := 1;
    peak := 0;
    b := CppRem(b, mod);
    if e0 > 0 {
      PowRemRight(1, b0, e0, mod);
    }
    while e > 0
      invariant e0 > 0 ==> e >= 0 && CppRem(result * Pow(b, e), mod) == CppRem(Pow(b0, e0), mod)
      invariant e0 <= 0 ==> result == 1 && e == e0
      invariant Abs(b) < Abs(mod)
      invariant Abs(result) < Abs(mod) || result == 1
      invariant e0 > 0 && e == 0 ==> Abs(result) < Abs(mod)
      invariant peak <= ProductBound(mod)
      decreases e
    {
      StepPreserves(result, b, e, mod);
      if e % 2 == 1 {
        ReducedProductBound(result, b, mod);
        peak := if Abs(result * b) > peak then Abs(result * b) else peak;
        result := CppRem(result * b, mod);
      }
      ReducedProductBound(b, b, mod);
      peak := if Abs(b * b) > peak then Abs(b * b) else peak;
      b := CppRem(b * b, mod);
      e := e / 2;
    }
    if e0 > 0 {
      assert result * Pow(b, e) == result;
      CppRemSmall(result, mod);
    }
  }

  /** Two residues below |mod| (or the initial 1) multiply to at most (|mod|-1)^2. */
  lemma ReducedProductBound(x: int, y: int, mod: int)
    requires mod != 0 && (Abs(x) < Abs(mod) || x == 1) && Abs(y) < Abs(mod)
    ensures Abs(x * y) <= ProductBound(mod)
  {
    var m := Abs(mod);
    assert Abs(x * y) == Abs(x) * Abs(y);
    if Abs(x) < m {
      MulLeMono(Abs(x), Abs(y), m - 1);
      MulLeMono(m - 1, Abs(x), m - 1);
    }
  }

  /** With a 64-bit modulus below 3037000500 no product overflows `long long`. */
  lemma NoOverflow(mod: int)
    requires 0 < Abs(mod) <= 3037000500
    ensures ProductBound(mod) <= LongLongMax
  {
    MulLeMono(Abs(mod) - 1, Abs(mod) - 1, 3037000499);
    MulLeMono(3037000499, Abs(mod) - 1, 3037000499);
  }

  lemma CppRemNegMod(x: int, mod: int)
    requires mod != 0
    ensures CppRem(x, mod) == CppRem(x, Abs(mod))
  {
  }

  /** Reducing the left factor first keeps the remainder of a product. */
  lemma CppRemMulLeft(x: int, y: int, mod: int)
    requires mod != 0
    ensures CppRem(CppRem(x, mod) * y, mod) == CppRem(x * y, mod)
  {
    var m := Abs(mod);
    CppRemMul(CppRem(x, m), y, m);
    CppRemMul(x, y, m);
    CppRemSigned(CppRem(x, m), m);
    CppRemSigned(x, m);
    ModMod(Abs(x), m);
  }

  /** Reducing the base of a power first keeps the power's remainder. */
  lemma {:induction false} PowCppRem(b: int, e: nat, mod: int)
    requires mod != 0
    ensures CppRem(Pow(CppRem(b, mod), e), mod) == CppRem(Pow(b, e), mod)
    decreases e
  {
    if e > 0 {
      var c := CppRem(b, mod);
      PowCppRem(b, e - 1, mod);
      CppRemMulLeft(Pow(c, e - 1), c, mod);
      CppRemMulLeft(Pow(b, e - 1), c, mod);
      CppRemMulLeft(b, Pow(b, e - 1), mod);
      assert Pow(c, e) == Pow(c, e - 1) * c;
      assert Pow(b, e - 1) * c == c * Pow(b, e - 1);
    }
  }

  /** A reduced base can stand for the original one in x * base^k. */
  lemma PowRemRight(x: int, b: int, k: nat, mod: int)
    requires mod != 0
    ensures CppRem(x * Pow(CppRem(b, mod), k), mod) == CppRem(x * Pow(b, k), mod)
  {
    CppRemMulLeft(Pow(CppRem(b, mod), k), x, mod);
    CppRemMulLeft(Pow(b, k), x, mod);
    PowCppRem(b, k, mod);
    assert x * Pow(CppRem(b, mod), k) == Pow(CppRem(b, mod), k) * x;
    assert x * Pow(b, k) == Pow(b, k) * x;
  }

  /** Squaring the base halves the exponent. */
  lemma {:induction false} PowSquare(b: int, k: nat)
    ensures Pow(b, 2 * k) == Pow(b * b, k)
    decreases k
  {
    if k > 0 {
      PowSquare(b, k - 1);
      assert Pow(b, 2 * k) == b * (b * Pow(b, 2 * (k - 1)));
    }
  }

  /** One round of the loop keeps result * base^exp's remainder. */
  lemma StepPreserves(result: int, b: int, e: nat, mod: int)
    requires mod != 0 && e > 0
    ensures var r' := if e % 2 == 1 then CppRem(result * b, mod) else result;
            CppRem(r' * Pow(CppRem(b * b, mod), e / 2), mod) == CppRem(result * Pow(b, e), mod)
  {
    var k := e / 2;
    PowSquare(b, k);
    if e % 2 == 1 {
      var r' := CppRem(result * b, mod);
      PowRemRight(r', b * b, k, mod);
      CppRemMulLeft(result * b, Pow(b * b, k), mod);
      assert Pow(b, e) == b * Pow(b, 2 * k);
      assert result * b * Pow(b * b, k) == result * Pow(b, e);
    } else {
      PowRemRight(result, b * b, k, mod);
      assert e == 2 * k;
    }
  }
}
