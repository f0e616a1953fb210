/** The 16.16 fixed-point arithmetic of m_fixed.c. */
module FixedPoint {
  import opened Common

  type fixed = x: int | -0x8000_0000 <= x < 0x8000_0000

  /** The 64-bit product shifted right, which rounds down, and converted to `int`. */
  function FixedMul(a: fixed, b: fixed): fixed {
    ToInt32(a * b / 0x1_0000)
  }

  predicate Saturates(a: fixed, b: fixed) {
    Abs(a) / 0x4000 >= Abs(b)
  }

  /** The guard decides exactly whether the exact quotient reaches 2^30 in magnitude; a zero divisor
      always saturates. */
  lemma SaturatesIff(a: fixed, b: fixed)
    ensures Saturates(a, b) <==> Abs(a) * 0x1_0000 >= 0x4000_0000 * Abs(b)
    ensures b == 0 ==> Saturates(a, b)
  {
  }

  lemma QuotientFits(a: fixed, b: fixed)
    requires !Saturates(a, b)
    ensures b != 0 && Abs(Quot(a * 0x1_0000, b)) < 0x4000_0000
  {
    SaturatesIff(a, b);
    QuotBelow(a * 0x1_0000, b, 0x4000_0000);
  }

  /** The quotient, or the largest value of its sign when that is judged not to fit. `abs` is
      undefined on INT_MIN in C, so neither argument may be that. */
  function FixedDiv(a: fixed, b: fixed): fixed
    requires a != -0x8000_0000 && b != -0x8000_0000
  {
    if Saturates(a, b) then (if (a < 0) != (b < 0) then -0x8000_0000 else 0x7FFF_FFFF)
    else
      QuotientFits(a, b);
      Quot(a * 0x1_0000, b)
  }

  /** Either the exact quotient has magnitude 2^30 or more and the result is the extreme value of its
      sign, or the result is the quotient truncated toward zero. */
  lemma FixedDivMeaning(a: fixed, b: fixed)
    requires a != -0x8000_0000 && b != -0x8000_0000
    ensures var q := FixedDiv(a, b);
            if Abs(a) * 0x1_0000 >= 0x4000_0000 * Abs(b)
            then q == if (a < 0) != (b < 0) then -0x8000_0000 else 0x7FFF_FFFF
            else
              var r := a * 0x1_0000 - q * b;
              && Abs(q) < 0x4000_0000
              && Abs(r) < Abs(b) && Abs(r) <= Abs(a) * 0x1_0000 && (r == 0 || (r < 0) == (a < 0))
  {
    SaturatesIff(a, b);
    if !Saturates(a, b) {
      QuotientFits(a, b);
      QuotRemainder(a * 0x1_0000, b);
    }
  }

  lemma RoundedBack(a: fixed, b: fixed, p: int, r: int)
    requires p == a * 0x1_0000 - r
    requires Abs(r) < Abs(b) && (r == 0 || (r < 0) == (a < 0))
    requires Abs(r) <= Abs(a) * 0x1_0000
    ensures ToInt32(p / 0x1_0000) == p / 0x1_0000
    ensures Abs(p / 0x1_0000 - a) <= Abs(b) / 0x1_0000 + 1
  {
    assert p / 0x1_0000 == a + (-r) / 0x1_0000;
  }

  /** Multiplying an unsaturated quotient back loses at most the truncation of each operation, and
      the product never overflows. */
  lemma DivThenMul(a: fixed, b: fixed)
    requires a != -0x8000_0000 && b != -0x8000_0000 && !Saturates(a, b)
    ensures FixedMul(FixedDiv(a, b), b) == FixedDiv(a, b) * b / 0x1_0000
    ensures Abs(FixedMul(FixedDiv(a, b), b) - a) <= Abs(b) / 0x1_0000 + 1
  {
    FixedDivMeaning(a, b);
    SaturatesIff(a, b);
    var q := FixedDiv(a, b);
    var p := q * b;
    RoundedBack(a, b, p, a * 0x1_0000 - p);
  }
}
