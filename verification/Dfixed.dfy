/** The u32 20.12 fixed-point operations of include/drm/drm_fixed.h. */
module Dfixed {
  import opened Words
  import opened FixedPoint
  import opened FixedDivide

  const ONE_12: int := 0x1000

  predicate InU32(x: int) {
    0 <= x < TWO_32
  }

  // ((u64)A * B + 2048) >> 12
  function Times(a: int, b: int): int {
    WrapU64(WrapU64(a * b) + ONE_12 / 2) / ONE_12
  }

  // The quotient of dfixed_div before its low 32 bits are taken.
  function Quotient(a: int, b: int): int
    requires b > 0
  {
    (a * (2 * ONE_12) / b + 1) / 2
  }

  method DfixedDiv(a: int, b: int) returns (r: Outcome)
    requires InU32(a) && InU32(b)
    ensures r == if b == 0 then DivideByZero else Value(Quotient(a, b) % TWO_32)
  {
    var tmp := WrapU64(a * (2 * ONE_12));
    assert tmp == a * (2 * ONE_12) by { ModUnique(a * (2 * ONE_12), 0, a * (2 * ONE_12), TWO_64); }
    if b == 0 {
      return DivideByZero;
    }
    tmp := tmp / b;
    tmp := tmp + 1;
    tmp := tmp / 2;
    return Value(tmp % TWO_32);
  }

  // Multiplication never overflows u64 and rounds to nearest, ties up.
  lemma TimesIsNearest(a: int, b: int)
    requires InU32(a) && InU32(b)
    ensures 2 * Abs(Times(a, b) * ONE_12 - a * b) <= ONE_12
    ensures 2 * Abs(Times(a, b) * ONE_12 - a * b) == ONE_12 ==> Times(a, b) * ONE_12 > a * b
  {
    assert 0 <= a * b <= (TWO_32 - 1) * (TWO_32 - 1) by {
      MulMonotone(a, b, TWO_32 - 1);
      MulMonotone(TWO_32 - 1, a, TWO_32 - 1);
    }
    ModUnique(a * b, 0, a * b, TWO_64);
    ModUnique(a * b + ONE_12 / 2, 0, a * b + ONE_12 / 2, TWO_64);
  }

  // The quotient is rounded to nearest, ties up.
  lemma QuotientIsNearest(a: nat, b: int)
    requires b > 0
    ensures 0 <= Quotient(a, b) && 2 * Abs(Quotient(a, b) * b - a * ONE_12) <= b
    ensures 2 * Abs(Quotient(a, b) * b - a * ONE_12) == b ==> Quotient(a, b) * b > a * ONE_12
  {
    var n := a * (2 * ONE_12);
    var q := n / b;
    DivBounds(n, b);
    DivIsGreatest(n, b, 0);
    var h := (q + 1) / 2;
    assert h * 2 * b == 2 * (h * b);
    assert q == 2 * h || q + 1 == 2 * h;
    assert q == 2 * h ==> 2 * (h * b) == q * b;
    assert q + 1 == 2 * h ==> 2 * (h * b) == q * b + b;
  }

  // Dividing and multiplying back: off by at most half a unit and half a divisor, so for divisors
  // below 1.0 the numerator comes back unchanged.
  lemma DivideMultiplyBack(a: int, b: int)
    requires InU32(a) && InU32(b) && b > 0 && Quotient(a, b) < TWO_32
    ensures 2 * ONE_12 * Abs(Times(Quotient(a, b), b) - a) <= b + ONE_12
    ensures b < ONE_12 ==> Times(Quotient(a, b), b) == a
  {
    QuotientIsNearest(a, b);
    TimesIsNearest(Quotient(a, b), b);
  }
}
