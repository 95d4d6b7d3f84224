/** Fermat factorization: starting from x = ceil(sqrt(n)), look for an x with
    x*x - n a perfect square y*y, so that n == (x + y) * (x - y). Each tried x
    is recorded as a row (x, floor(sqrt(x*x - n))). Two variants exist: the
    original never tests its first row; the later one does. Square roots are
    exact integer square roots here, where the source goes through `double`. */
module Fermat {
  import opened NumberTheory

  /** The integer square root, rounded down. */
  function FloorSqrt(m: nat): (r: nat)
    ensures r * r <= m < (r + 1) * (r + 1)
  {
    if m == 0 then 0
    else
      var s := FloorSqrt(m - 1);
      if (s + 1) * (s + 1) <= m then s + 1 else s
  }

  /** Only one natural number brackets m between its square and the next square. */
  lemma FloorSqrtUnique(m: nat, r: nat)
    requires r * r <= m < (r + 1) * (r + 1)
    ensures FloorSqrt(m) == r
  {
    var s := FloorSqrt(m);
    if s < r {
      MulLeMono(s + 1, s + 1, r);
      MulLeMono(r, s + 1, r);
    } else if r < s {
      MulLeMono(r + 1, r + 1, s);
      MulLeMono(s, r + 1, s);
    }
  }

  /** The integer square root, rounded up. */
  function CeilSqrt(n: nat): (x: nat)
    ensures n == 0 ==> x == 0
    ensures n >= 1 ==> 1 <= x && (x - 1) * (x - 1) < n <= x * x
  {
    var r := FloorSqrt(n);
    if r * r == n then r else r + 1
  }

  lemma SquareGrows(x: nat)
    ensures (x + 1) * (x + 1) >= x * x
  {
  }

  datatype FermatRow = FermatRow(x: nat, y: nat)

  /** The row recorded for a tried x. */
  function RowAt(n: nat, x: nat): (row: FermatRow)
    requires x * x >= n
    ensures row.x == x && row.y * row.y <= x * x - n < (row.y + 1) * (row.y + 1)
  {
    FermatRow(x, FloorSqrt(x * x - n))
  }

  /** x*x - n is a perfect square. */
  predicate Hit(n: nat, x: nat)
    requires x * x >= n
  {
    var y := FloorSqrt(x * x - n);
    y * y == x * x - n
  }

  /** The tested part of the search: rows for x, x+1, ... up to (n+1)/2, stopping at the first hit. */
  function SearchFrom(n: nat, x: nat): seq<FermatRow>
    requires x * x >= n
    decreases (n + 1) / 2 + 1 - x
  {
    if x > (n + 1) / 2 then []
    else if Hit(n, x) then [RowAt(n, x)]
    else
      SquareGrows(x);
      [RowAt(n, x)] + SearchFrom(n, x + 1)
  }

  /** One step of the tested search. */
  lemma SearchUnfold(n: nat, x: nat)
    requires x * x >= n && x <= (n + 1) / 2
    ensures Hit(n, x) ==> SearchFrom(n, x) == [RowAt(n, x)]
    ensures !Hit(n, x) ==> (x + 1) * (x + 1) >= n
                           && SearchFrom(n, x) == [RowAt(n, x)] + SearchFrom(n, x + 1)
  {
    SquareGrows(x);
  }

  /** The rows the original variant returns: the first row is pushed untested. */
  function OriginalTrace(n: nat): seq<FermatRow> {
    var x := CeilSqrt(n);
    if x * x == n then []
    else
      SquareGrows(x);
      [RowAt(n, x)] + SearchFrom(n, x + 1)
  }

  /** The rows the corrected variant returns: the first row is tested like the others. */
  function CorrectedTrace(n: nat): seq<FermatRow> {
    var x := CeilSqrt(n);
    if x * x == n then []
    else SearchFromFirst(n, x)
  }

  /** The search including its first row: a hit on x ends it at once. */
  function SearchFromFirst(n: nat, x: nat): seq<FermatRow>
    requires x * x >= n
  {
    if Hit(n, x) then [RowAt(n, x)]
    else
      SquareGrows(x);
      [RowAt(n, x)] + SearchFrom(n, x + 1)
  }

  /** The corrected trace starts with the first row, and stops there on a hit. */
  lemma CorrectedStart(n: nat)
    requires CeilSqrt(n) * CeilSqrt(n) != n
    ensures var x := CeilSqrt(n);
            x * x >= n && (x + 1) * (x + 1) >= n
            && (Hit(n, x) ==> CorrectedTrace(n) == [RowAt(n, x)])
            && (!Hit(n, x) ==> CorrectedTrace(n) == [RowAt(n, x)] + SearchFrom(n, x + 1))
  {
    SquareGrows(CeilSqrt(n));
  }

  /** fermatFactorization in fermatFactorization/fermat.cpp. */
  method FermatOriginal(n: int) returns (rows: seq<FermatRow>)
    requires n >= 0
    ensures rows == OriginalTrace(n)
  {
    rows := [];
    var x := CeilSqrt(n);
    if n == x * x {
      return;
    }
    var y := FloorSqrt(x * x - n);
    rows := rows + [FermatRow(x, y)];
    SquareGrows(x);
    var later := SearchLoop(n, x + 1);
    rows := rows + later;
  }

  /** fermatFactorization in RSA-Class/fermatFactorization/fermat.cpp. */
  method FermatCorrected(n: int) returns (rows: seq<FermatRow>)
    requires n >= 0
    ensures rows == CorrectedTrace(n)
  {
    rows := [];
    var x := CeilSqrt(n);
    if n == x * x {
      return;
    }
    var ySquared := x * x - n;
    var y := FloorSqrt(ySquared);
    rows := rows + [FermatRow(x, y)];
    CorrectedStart(n);
    if y * y == ySquared {
      return;
    }
    var later := SearchLoop(n, x + 1);
    rows := rows + later;
  }

  /** The `while (x <= (n+1)/2)` loop both variants share: push the row for x,
      stop on a hit, otherwise move to x + 1. */
  method SearchLoop(n: nat, start: nat) returns (rows: seq<FermatRow>)
    requires start * start >= n
    ensures rows == SearchFrom(n, start)
  {
    rows := [];
    var x := start;
    while x <= (n + 1) / 2
      invariant x * x >= n
      invariant rows + SearchFrom(n, x) == SearchFrom(n, start)
      decreases (n + 1) / 2 + 1 - x
    {
      var ySquared := x * x - n;
      var y := FloorSqrt(ySquared);
      ghost var before := rows;
      rows := rows + [FermatRow(x, y)];
      SearchUnfold(n, x);
      assert FermatRow(x, y) == RowAt(n, x);
      if y * y == ySquared {
        assert SearchFrom(n, x) == [FermatRow(x, y)];
        return;
      }
      assert (x + 1) * (x + 1) >= n;
      ghost var rest := SearchFrom(n, x + 1);
      assert SearchFrom(n, x) == [FermatRow(x, y)] + rest;
      assert before + ([FermatRow(x, y)] + rest) == rows + rest;
      x := x + 1;
    }
    assert SearchFrom(n, x) == [];
  }

  /** A hit gives the split n == (x + y) * (x - y). */
  lemma HitFactors(n: nat, x: nat)
    requires x * x >= n && Hit(n, x)
    ensures var y := RowAt(n, x).y; (x + y) * (x - y) == n
  {
    var y := RowAt(n, x).y;
    assert (x + y) * (x - y) == x * x - y * y;
  }

  /** The tested search records consecutive x from its start, all misses but the
      last row, which is a hit or the bound (n+1)/2. */
  lemma {:induction false} SearchFromShape(n: nat, x: nat)
    requires x * x >= n
    ensures var s := SearchFrom(n, x);
            (forall i :: 0 <= i < |s| ==> s[i].x == x + i)
            && (forall i :: 0 <= i < |s| - 1 ==> s[i].x * s[i].x >= n && !Hit(n, s[i].x))
            && (|s| > 0 ==>
                  s[|s| - 1].x <= (n + 1) / 2 && s[|s| - 1].x * s[|s| - 1].x >= n
                  && (Hit(n, s[|s| - 1].x) || s[|s| - 1].x == (n + 1) / 2))
            && (|s| == 0 <==> x > (n + 1) / 2)
    decreases (n + 1) / 2 + 1 - x
  {
    if x <= (n + 1) / 2 && !Hit(n, x) {
      SquareGrows(x);
      SearchFromShape(n, x + 1);
      var s := SearchFrom(n, x);
      var t := SearchFrom(n, x + 1);
      assert s == [RowAt(n, x)] + t;
      assert forall i :: 1 <= i < |s| ==> s[i] == t[i - 1];
    }
  }

  /** For odd n the middle x = (n+1)/2 is always a hit, with y = (n-1)/2: the trivial split n * 1. */
  lemma MiddleIsHit(n: nat)
    requires n % 2 == 1
    ensures var h := (n + 1) / 2; h * h >= n && Hit(n, h) && RowAt(n, h).y == (n - 1) / 2
  {
    var h := (n + 1) / 2;
    assert n == 2 * h - 1;
    assert h * h - n == (h - 1) * (h - 1);
    FloorSqrtUnique(h * h - n, h - 1);
  }

  /** The first x is never past the middle for odd n. */
  lemma CeilSqrtBelowMiddle(n: nat)
    requires n % 2 == 1
    ensures CeilSqrt(n) <= (n + 1) / 2
  {
    var h := (n + 1) / 2;
    var x := CeilSqrt(n);
    assert h * h >= n by {
      MiddleIsHit(n);
    }
    if x > h {
      MulLeMono(h, h, x - 1);
      MulLeMono(x - 1, h, x - 1);
    }
  }

  /** The trace is non-empty and its last row is the row of a hit. */
  predicate EndsOnHit(n: nat, s: seq<FermatRow>) {
    |s| > 0 && s[|s| - 1].x * s[|s| - 1].x >= n
    && Hit(n, s[|s| - 1].x) && s[|s| - 1] == RowAt(n, s[|s| - 1].x)
  }

  /** A tested search that starts no later than the middle of an odd n ends with a hit. */
  lemma {:induction false} SearchEndsOnHit(n: nat, x: nat)
    requires n % 2 == 1 && x * x >= n && x <= (n + 1) / 2
    ensures EndsOnHit(n, SearchFrom(n, x))
    decreases (n + 1) / 2 - x
  {
    MiddleIsHit(n);
    SearchUnfold(n, x);
    if !Hit(n, x) {
      SearchEndsOnHit(n, x + 1);
      var t := SearchFrom(n, x + 1);
      assert SearchFrom(n, x)[|SearchFrom(n, x)| - 1] == t[|t| - 1];
    }
  }

  /** For an odd n that is not a perfect square, the corrected search always ends
      on a hit (at the latest the trivial split at the middle), so its last row
      factors n; "is prime" is printed only for even n. */
  lemma CorrectedEndsOnHit(n: nat)
    requires n % 2 == 1 && CeilSqrt(n) * CeilSqrt(n) != n
    ensures EndsOnHit(n, CorrectedTrace(n))
    ensures var last := CorrectedTrace(n)[|CorrectedTrace(n)| - 1];
            (last.x + last.y) * (last.x - last.y) == n
  {
    CorrectedTraceEndsOnHit(n);
    LastRowFactors(n, CorrectedTrace(n));
  }

  /** The case analysis of CorrectedEndsOnHit: a hit on the first row, or the tested search from the next x. */
  lemma CorrectedTraceEndsOnHit(n: nat)
    requires n % 2 == 1 && CeilSqrt(n) * CeilSqrt(n) != n
    ensures EndsOnHit(n, CorrectedTrace(n))
  {
    var x := CeilSqrt(n);
    CorrectedStart(n);
    if Hit(n, x) {
      assert CorrectedTrace(n) == [RowAt(n, x)];
    } else {
      FirstMissEndsOnHit(n, x);
    }
  }

  /** After a miss on the first row, the tested search from the next x ends on a hit. */
  lemma FirstMissEndsOnHit(n: nat, x: nat)
    requires n % 2 == 1 && x == CeilSqrt(n) && x * x >= n && (x + 1) * (x + 1) >= n && !Hit(n, x)
    ensures EndsOnHit(n, [RowAt(n, x)] + SearchFrom(n, x + 1))
  {
    CeilSqrtBelowMiddle(n);
    MiddleIsHit(n);
    assert x != (n + 1) / 2;
    SearchEndsOnHit(n, x + 1);
    PrefixEndsOnHit(n, RowAt(n, x), SearchFrom(n, x + 1));
  }

  /** A row in front of a trace that ends on a hit leaves it ending on that hit. */
  lemma PrefixEndsOnHit(n: nat, r: FermatRow, t: seq<FermatRow>)
    requires EndsOnHit(n, t)
    ensures EndsOnHit(n, [r] + t)
  {
    assert ([r] + t)[|t|] == t[|t| - 1];
  }

  /** The last row of a trace that ends on a hit factors n. */
  lemma LastRowFactors(n: nat, s: seq<FermatRow>)
    requires EndsOnHit(n, s)
    ensures var last := s[|s| - 1]; (last.x + last.y) * (last.x - last.y) == n
  {
    var last := s[|s| - 1];
    HitFactors(n, last.x);
  }

  /** When the first row is not a hit the two variants record the same rows. */
  lemma VariantsAgreeWithoutFirstHit(n: nat)
    requires CeilSqrt(n) * CeilSqrt(n) > n && !Hit(n, CeilSqrt(n))
    ensures OriginalTrace(n) == CorrectedTrace(n)
  {
    CorrectedStart(n);
  }

  /** A tried x whose x*x - n lies strictly between y*y and (y+1)*(y+1) is a miss recorded as (x, y). */
  lemma MissAt(n: nat, x: nat, y: nat)
    requires x * x >= n && x <= (n + 1) / 2
    requires y * y < x * x - n < (y + 1) * (y + 1)
    ensures (x + 1) * (x + 1) >= n
    ensures SearchFrom(n, x) == [FermatRow(x, y)] + SearchFrom(n, x + 1)
  {
    FloorSqrtUnique(x * x - n, y);
    SearchUnfold(n, x);
  }

  /** A tried x with x*x - n == y*y is a hit recorded as (x, y). */
  lemma HitAt(n: nat, x: nat, y: nat)
    requires x * x >= n && x <= (n + 1) / 2 && y * y == x * x - n
    ensures Hit(n, x) && RowAt(n, x) == FermatRow(x, y)
    ensures SearchFrom(n, x) == [FermatRow(x, y)]
  {
    FloorSqrtUnique(x * x - n, y);
    SearchUnfold(n, x);
  }

  /** n = 15, as written: the first row (4, 1) is the split 5 * 3, but it is not
      tested; the search runs on to x = 8, y = 7, the trivial split 15 * 1.
      (n is a parameter fixed to 15 so that the trace is unfolded step by step.) */
  lemma OriginalMissesFirstSplit(n: nat)
    requires n == 15
    ensures CeilSqrt(n) == 4 && Hit(n, 4) && RowAt(n, 4) == FermatRow(4, 1)
    ensures OriginalTrace(n)
            == [FermatRow(4, 1), FermatRow(5, 3), FermatRow(6, 4), FermatRow(7, 5), FermatRow(8, 7)]
  {
    FloorSqrtUnique(n, 3);
    HitAt(n, 4, 1);
    LaterRows15(n);
    assert OriginalTrace(n) == [FermatRow(4, 1)] + SearchFrom(n, 5);
    PrependRow(FermatRow(4, 1), SearchFrom(n, 5), FermatRow(5, 3), FermatRow(6, 4), FermatRow(7, 5), FermatRow(8, 7));
  }

  /** One row before four rows. */
  lemma PrependRow(a: FermatRow, t: seq<FermatRow>, b: FermatRow, c: FermatRow, d: FermatRow, e: FermatRow)
    requires t == [b, c, d, e]
    ensures [a] + t == [a, b, c, d, e]
  {
  }

  /** n = 15: the tested search from x = 5 misses at 5, 6 and 7 and hits at 8. */
  lemma LaterRows15(n: nat)
    requires n == 15
    ensures SearchFrom(n, 5) == [FermatRow(5, 3), FermatRow(6, 4), FermatRow(7, 5), FermatRow(8, 7)]
  {
    HitAt(n, 8, 7);
    MissAt(n, 7, 5);
    MissAt(n, 6, 4);
    MissAt(n, 5, 3);
    FourRows(SearchFrom(n, 5), SearchFrom(n, 6), SearchFrom(n, 7), SearchFrom(n, 8),
             FermatRow(5, 3), FermatRow(6, 4), FermatRow(7, 5), FermatRow(8, 7));
  }

  /** Four rows, each put in front of the rest. */
  lemma FourRows(s5: seq<FermatRow>, s6: seq<FermatRow>, s7: seq<FermatRow>, s8: seq<FermatRow>,
                 a: FermatRow, b: FermatRow, c: FermatRow, d: FermatRow)
    requires s5 == [a] + s6 && s6 == [b] + s7 && s7 == [c] + s8 && s8 == [d]
    ensures s5 == [a, b, c, d]
  {
  }

  /** n = 15, corrected: the first row is tested and the search stops at 5 * 3. */
  lemma CorrectedFindsFirstSplit()
    ensures CorrectedTrace(15) == [FermatRow(4, 1)]
  {
    FloorSqrtUnique(15, 3);
    FloorSqrtUnique(1, 1);
    CorrectedStart(15);
  }
}
