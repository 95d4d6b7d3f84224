/** The C++ integer and character operations the routines rely on, written out
    over unbounded integers: truncating division and remainder, the `(int)`
    cast, and `char` as a signed 8-bit code. */
module CppInt {
  import opened NumberTheory

  const Int32Modulus: int := 0x1_0000_0000
  const Int32Max: int := 0x7FFF_FFFF
  const LongLongMax: int := 0x7FFF_FFFF_FFFF_FFFF

  function Sgn(x: int): int {
    if x < 0 then -1 else if x == 0 then 0 else 1
  }

  /** C++ `x % y`: the remainder truncates toward zero, so it takes the sign of `x`. */
  function CppRem(x: int, y: int): (r: int)
    requires y != 0
    ensures Abs(r) < Abs(y)
    ensures x >= 0 ==> r >= 0
    ensures x <= 0 ==> r <= 0
  {
    if x >= 0 then x % Abs(y) else -((-x) % Abs(y))
  }

  /** C++ `x / y`: the quotient truncates toward zero. */
  function CppDiv(x: int, y: int): int
    requires y != 0
  {
    if (x >= 0) == (y > 0) then Abs(x) / Abs(y) else -(Abs(x) / Abs(y))
  }

  /** Truncating quotient and remainder recombine to the dividend, as C++ guarantees. */
  lemma CppDivision(x: int, y: int)
    requires y != 0
    ensures x == CppDiv(x, y) * y + CppRem(x, y)
  {
    var q, r := Abs(x) / Abs(y), Abs(x) % Abs(y);
    assert Abs(x) == q * Abs(y) + r;
    if y < 0 {
      assert q * Abs(y) == -q * y;
    }
  }

  /** On non-negative operands the C++ operators agree with Euclidean ones. */
  lemma CppNonNegative(x: int, y: int)
    requires x >= 0 && y > 0
    ensures CppRem(x, y) == x % y && CppDiv(x, y) == x / y
  {
  }

  /** The remainder is zero exactly when `y` divides `x`, and `y` always divides `x - x % y`. */
  lemma CppRemDivides(x: int, y: int)
    requires y != 0
    ensures CppRem(x, y) == 0 <==> Divides(y, x)
    ensures Divides(y, x - CppRem(x, y))
  {
    CppDivision(x, y);
    ModOfMultiple(Abs(y), CppDiv(x, y) * Sgn(y));
    assert x - CppRem(x, y) == Abs(y) * (CppDiv(x, y) * Sgn(y));
    DividesNeg(y, x);
  }

  /** The magnitude of the remainder is the Euclidean remainder of the magnitudes. */
  lemma CppRemAbs(x: int, y: int)
    requires y != 0
    ensures Abs(CppRem(x, y)) == Abs(x) % Abs(y)
  {
  }

  /** A value already smaller in magnitude than the divisor is its own remainder. */
  lemma CppRemSmall(x: int, y: int)
    requires y != 0 && Abs(x) < Abs(y)
    ensures CppRem(x, y) == x
  {
    DivModUnique(Abs(x), Abs(y), 0, Abs(x));
  }

  /** For a positive modulus the remainder is the sign of `x` times `|x| mod m`. */
  lemma CppRemSigned(x: int, m: int)
    requires m > 0
    ensures CppRem(x, m) == Sgn(x) * (Abs(x) % m)
  {
  }

  /** Reducing both factors first keeps the remainder of a product, as `modExp` relies on. */
  lemma CppRemMul(x: int, y: int, m: int)
    requires m > 0
    ensures CppRem(CppRem(x, m) * CppRem(y, m), m) == CppRem(x * y, m)
  {
    var ax, ay := Abs(x), Abs(y);
    var rx, ry := ax % m, ay % m;
    ModMulMod(ax, ay, m);
    NonNegativeProduct(rx, ry);
    NonNegativeProduct(ax, ay);
    CppRemNeg(rx * ry, m);
    CppRemNeg(ax * ay, m);
    var cx, cy := CppRem(x, m), CppRem(y, m);
    assert cx == (if x >= 0 then rx else -rx);
    assert cy == (if y >= 0 then ry else -ry);
    SignedProduct(x >= 0, y >= 0, rx, ry);
    SignedProduct(x >= 0, y >= 0, ax, ay);
    assert x == (if x >= 0 then ax else -ax);
    assert y == (if y >= 0 then ay else -ay);
  }

  lemma NonNegativeProduct(a: nat, b: nat)
    ensures a * b >= 0
  {
  }

  /** The product of two signed magnitudes is the product of the magnitudes, negated when the signs differ. */
  lemma SignedProduct(pa: bool, pb: bool, a: int, b: int)
    ensures (if pa then a else -a) * (if pb then b else -b) == (if pa == pb then a * b else -(a * b))
  {
  }

  /** Negating the dividend negates the truncating remainder. */
  lemma CppRemNeg(z: int, m: int)
    requires m > 0
    ensures CppRem(-z, m) == -CppRem(z, m)
  {
  }

  /** The C++ `(int)` conversion of a `long long`: the low 32 bits, read as signed. */
  function ToInt32(x: int): (r: int)
    ensures -Int32Max - 1 <= r <= Int32Max
    ensures (r - x) % Int32Modulus == 0
    ensures -Int32Max - 1 <= x <= Int32Max ==> r == x
  {
    var low := x % Int32Modulus;
    if low > Int32Max then low - Int32Modulus else low
  }

  /** A C++ `char`, held as its byte 0..255. */
  type CChar = c: char | c as int < 256

  /** The value of `(long long)c` for a signed 8-bit `char`. */
  function Code(c: CChar): (r: int)
    ensures -128 <= r < 128
    ensures (r - c as int) % 256 == 0
  {
    if c as int < 128 then c as int else c as int - 256
  }

  /** The `char` that `(char)num` yields: the low byte of `num`. */
  function ToCChar(num: int): (c: CChar)
    ensures (c as int - num) % 256 == 0
  {
    (num % 256) as char
  }

  /** Converting a char to its code and back gives the char. */
  lemma CodeRoundTrip(c: CChar)
    ensures ToCChar(Code(c)) == c
  {
  }

  /** Converting a code in the signed range to a char and back gives the code. */
  lemma ToCCharRoundTrip(num: int)
    requires -128 <= num < 128
    ensures Code(ToCChar(num)) == num
  {
  }

  /** `toupper` in the C locale: only 'a'..'z' change. */
  function ToUpper(c: CChar): (u: CChar)
    ensures 'a' <= c <= 'z' ==> 'A' <= u <= 'Z' && u as int == c as int - 32
    ensures !('a' <= c <= 'z') ==> u == c
  {
    if 'a' <= c <= 'z' then (c as int - 32) as char else c
  }
}
