/** Division of 32.32 fixed-point numbers and of integers into them: drm_fixp_div and
    drm_fixp_from_fraction of include/drm/drm_fixed.h.
  */
module FixedDivide {
  import opened Words
  import opened FixedPoint

  // A zero divisor stops the machine, and so does the one signed quotient that does not fit.
  datatype Outcome = Value(v: int) | DivideByZero | QuotientOverflow

  // div64_s64 rounds toward zero.
  function TruncDiv(a: int, b: int): int
    requires b != 0
  {
    if a >= 0 then (if b > 0 then a / b else -(a / -b))
    else (if b > 0 then -(-a / b) else -a / -b)
  }

  /* ---------- drm_fixp_div ---------- */

  // How far the numerator is shifted up, and by how much the divisor is shifted down.
  function Up(a: int): nat {
    if Msb(a) <= 62 then 62 - Msb(a) else 0
  }

  function Down(a: int): nat {
    if Up(a) < 32 then 32 - Up(a) else 0
  }

  function Div(a: int, b: int): Outcome {
    var num, den := WrapS64(a * Pow2(Up(a))), b / Pow2(Down(a));
    if den == 0 then DivideByZero
    else if num == -TWO_63 && den == -1 then QuotientOverflow
    else
      var result := TruncDiv(num, den);
      Value(if Up(a) > 32 then result / Pow2(Up(a) - 32) else result)
  }

  method FixpDiv(a0: S64, b0: S64) returns (r: Outcome)
    ensures r == Div(a0, b0)
  {
    var m := MsbSet(a0);
    var shift := 62 - m;
    var a, b := WrapS64(a0 * Pow2(shift)), b0;
    if shift < 32 {
      b := b / Pow2(32 - shift);
    } else {
      assert b / Pow2(0) == b;
    }
    if b == 0 {
      return DivideByZero;
    }
    if a == -TWO_63 && b == -1 {
      return QuotientOverflow;
    }
    var result := TruncDiv(a, b);
    if shift > 32 {
      return Value(result / Pow2(shift - 32));
    }
    return Value(result);
  }

  lemma ScaledRange(a: int, x: int, p: int)
    requires -x <= a < x && p > 0
    ensures -(x * p) <= a * p < x * p
  {
    CancelMul(a, x, p);
    MulMonotone(p, -x, a);
    assert p * -x == -(x * p);
  }

  // Shifting the numerator to the top never leaves s64, whatever its sign.
  lemma NumeratorFits(a: S64)
    ensures InS64(a * Pow2(Up(a)))
  {
    MsbOfS64(a);
    MsbIsMsb(a);
    var m := Msb(a);
    ScaledRange(a, Pow2(m + 1), Pow2(62 - m));
    assert Pow2(m + 1) * Pow2(62 - m) == TWO_63 by { Pow2Add(m + 1, 62 - m); Pow2Values(); }
  }

  // For positive divisors the quotient is a floor, and it stays inside s64.
  lemma DivOfNonNegative(a: S64, b: S64)
    requires a >= 0 && b > 0 && b / Pow2(Down(a)) > 0
    ensures var num, den := a * Pow2(Up(a)), b / Pow2(Down(a));
      && InS64(num) && 0 <= num / den && InS64(num / den)
      && Div(a, b) == Value(if Up(a) > 32 then (num / den) / Pow2(Up(a) - 32) else num / den)
  {
    var num, den := a * Pow2(Up(a)), b / Pow2(Down(a));
    NumeratorFits(a);
    WrapS64Id(num);
    MulMonotone(Pow2(Up(a)), 0, a);
    DivInS64(num, den);
    WrapS64Id(num / den);
    DivIsGreatest(num, den, 0);
  }

  // Scaling up before a division and down after it changes nothing.
  lemma ScaledQuotient(n: int, p: int, b: int)
    requires p > 0 && b > 0
    ensures (n * p) / b / p == n / b
  {
    DivDiv(n * p, b, p);
    DivDiv(n * p, p, b);
    assert b * p == p * b;
    ModUnique(n * p, n, 0, p);
  }

  // A numerator below 2^31 loses nothing: the result is the floor of the true quotient.
  lemma DivExact(a: S64, b: S64)
    requires a >= 0 && b > 0 && Msb(a) <= 30
    ensures Div(a, b) == Value(a * ONE / b)
  {
    assert b / Pow2(0) == b;
    DivOfNonNegative(a, b);
    NumeratorScaled(a);
    ScaledQuotient(a * ONE, Pow2(Up(a) - 32), b);
  }

  /* Any signs: the quotient is cut toward zero and then floored. */

  // The numerator is minus a power of two, so that it fills s64, and the divisor shifts to -1.
  predicate DivOverflows(a: int, b: int) {
    a == -Pow2(Msb(a) + 1) && -Pow2(Down(a)) <= b < 0
  }

  // The numerator fills s64 from below exactly when it is minus a power of two.
  lemma FillsS64Iff(a: S64)
    ensures a * Pow2(Up(a)) == -TWO_63 <==> a == -Pow2(Msb(a) + 1)
  {
    MsbOfS64(a);
    var x, p := Pow2(Msb(a) + 1), Pow2(62 - Msb(a));
    assert x * p == TWO_63 by { Pow2Add(Msb(a) + 1, 62 - Msb(a)); Pow2Values(); }
    ScaledEqual(a, x, p);
  }

  lemma ScaledEqual(a: int, x: int, p: int)
    requires p > 0
    ensures a * p == -(x * p) <==> a == -x
  {
    CancelMul(a, -x, p);
    CancelMul(-x, a, p);
  }

  // What a division comes to, for all operands: a fault exactly when the divisor shifts to zero, an
  // overflow exactly in that corner, and else a value, which is an s64.
  lemma DivYields(a: S64, b: S64)
    ensures Div(a, b) == DivideByZero <==> 0 <= b < Pow2(Down(a))
    ensures Div(a, b) == QuotientOverflow <==> DivOverflows(a, b)
    ensures Div(a, b).Value? ==> InS64(Div(a, b).v)
  {
    var p := Pow2(Down(a));
    assert (0 <= b / p <==> 0 <= b) && (1 <= b / p <==> p <= b) && (-1 <= b / p <==> -p <= b) by {
      DivIsGreatest(b, p, 1);
      DivIsGreatest(b, p, 0);
      DivIsGreatest(b, p, -1);
    }
    var num := a * Pow2(Up(a));
    assert InS64(num) by { NumeratorFits(a); }
    WrapS64Id(num);
    FillsS64Iff(a);
    if Div(a, b).Value? {
      TruncDivFits(num, b / p);
      DivInS64(TruncDiv(num, b / p), Pow2(if Up(a) > 32 then Up(a) - 32 else 0));
    }
  }

  // -1.0 by 3.0, which no 32.32 number is, comes out nearer to zero.
  lemma MinusOneByThree()
    ensures Div(-ONE, 3 * ONE) == Value(-1431655765)
    ensures -1431655766 * 3 < -ONE < -1431655765 * 3
  {
    MsbOfMinusOne();
    assert Pow2(1) == 2;
    Pow2Values();
    WrapS64Id(-ONE * Pow2(31));
  }

  // The corner is reached, once where the quotient would fit and once where it would not.
  lemma MinusTwoByMinusOneUnit()
    ensures Div(-2, -1) == QuotientOverflow && InS64(-2 * ONE / -1)
    ensures Div(-ONE, -2) == QuotientOverflow && !InS64(-ONE * ONE / -2)
  {
    assert Pow2(1) == 2;
    assert Msb(-2) == 0 by { MsbUnique(-2, 0); }
    MsbOfMinusOne();
    assert Pow2(32) == ONE by { Pow2Values(); }
    DivYields(-2, -1);
    DivYields(-ONE, -2);
  }

  lemma TruncDivBounds(n: int, b: int)
    requires b != 0
    ensures Abs(n - TruncDiv(n, b) * b) < Abs(b)
  {
    DivBounds(Abs(n), Abs(b));
    var q := Abs(n) / Abs(b);
    assert TruncDiv(n, b) * b == if n >= 0 then q * Abs(b) else -(q * Abs(b));
  }

  lemma MultipleOf(r: int, b: int)
    requires b != 0
    ensures r == 0 ==> r * b == 0
    ensures r != 0 ==> Abs(r * b) >= Abs(b)
  {
    MulMonotone(Abs(b), if r == 0 then 0 else 1, Abs(r));
    assert Abs(r * b) == Abs(b) * Abs(r);
  }

  lemma TruncDivTowardZero(n: int, b: int)
    requires b != 0
    ensures Abs(TruncDiv(n, b) * b) <= Abs(n)
  {
    var q := Abs(n) / Abs(b);
    DivBounds(Abs(n), Abs(b));
    DivIsGreatest(Abs(n), Abs(b), 0);
    assert 0 <= q * Abs(b) by { MulMonotone(Abs(b), 0, q); }
    assert TruncDiv(n, b) * b == if n >= 0 then q * Abs(b) else -(q * Abs(b));
  }

  // Two numbers within d of n and no farther from zero are less than d apart.
  lemma WithinOneDivisor(n: int, d: int, x: int, y: int)
    requires Abs(x) <= Abs(n) && Abs(y) <= Abs(n) && Abs(n - x) < d && Abs(n - y) < d
    ensures Abs(x - y) < d
  {
  }

  lemma SameMultiple(q: int, t: int, b: int)
    requires b != 0 && Abs(q * b - t * b) < Abs(b)
    ensures q == t
  {
    MultipleOf(q - t, b);
    assert (q - t) * b == q * b - t * b;
  }

  // Rounding is toward zero, and nothing else is: the quotient is the one number whose product with
  // the divisor does not exceed the numerator in magnitude and is less than a divisor off it.
  lemma TruncDivIff(n: int, b: int, q: int)
    requires b != 0
    ensures q == TruncDiv(n, b) <==> Abs(q * b) <= Abs(n) && Abs(n - q * b) < Abs(b)
  {
    var t := TruncDiv(n, b);
    assert Abs(n - t * b) < Abs(b) by { TruncDivBounds(n, b); }
    assert Abs(t * b) <= Abs(n) by { TruncDivTowardZero(n, b); }
    if Abs(q * b) <= Abs(n) && Abs(n - q * b) < Abs(b) {
      WithinOneDivisor(n, Abs(b), q * b, t * b);
      SameMultiple(q, t, b);
    }
  }

  lemma TruncDivFits(n: S64, b: int)
    requires b != 0
    ensures InS64(TruncDiv(n, b)) <==> !(n == -TWO_63 && b == -1)
  {
    var q := Abs(n) / Abs(b);
    assert TruncDiv(n, b) == if n >= 0 <==> b > 0 then q else -q;
    DivIsGreatest(Abs(n), Abs(b), 0);
    assert InS64(n);
    if Abs(b) >= 2 {
      assert 0 <= 2 * q <= TWO_63 by {
        DivBounds(Abs(n), Abs(b));
        MulMonotone(q, 2, Abs(b));
        assert q * 2 <= q * Abs(b) <= Abs(n);
      }
    } else {
      assert q == Abs(n);
    }
  }

  lemma ScaledRemainder(r: nat, b: int, p: int)
    requires r < p
    ensures Abs(r * b) <= p * Abs(b) - Abs(b)
  {
    MulMonotone(Abs(b), r, p - 1);
    MulMonotone(Abs(b), 0, r);
  }

  // x = m - n, scaled by p.
  lemma ScaledDifference(n: int, m: int, y: int, p: int, c: int)
    requires p > 0 && Abs(n * p - (m * p + y)) < c && Abs(y) <= p * c - c
    ensures Abs(m - n) < c
  {
    assert (m - n) * p == m * p - n * p;
    CancelMul(m - n, c, p);
    CancelMul(-c, m - n, p);
    assert -c * p == -(p * c);
  }

  lemma Distribute(v: int, p: int, r: int, b: int)
    ensures (v * p + r) * b == (v * b) * p + r * b
  {
    MulAssoc(v, p, b);
    MulAssoc(v, b, p);
  }

  // The shifted numerator, when the shift is at least 32.
  lemma NumeratorScaled(a: S64)
    requires Msb(a) <= 30
    ensures a * Pow2(Up(a)) == (a * ONE) * Pow2(Up(a) - 32)
  {
    assert Pow2(32) == ONE by { Pow2Values(); }
    Pow2Add(32, Up(a) - 32);
    MulAssoc(a, ONE, Pow2(Up(a) - 32));
  }

  lemma DivValue(a: S64, b: S64)
    requires b != 0 && Msb(a) <= 30 && !DivOverflows(a, b)
    ensures Div(a, b) == Value(TruncDiv(a * Pow2(Up(a)), b) / Pow2(Up(a) - 32))
  {
    DivYields(a, b);
    NumeratorFits(a);
    WrapS64Id(a * Pow2(Up(a)));
    assert b / Pow2(0) == b;
  }

  // The scaled error: m is the floored quotient times b, and y what the floor drops.
  lemma ScaledError(n: int, p: int, b: int) returns (m: int, y: int)
    requires p > 0 && b != 0
    ensures m == TruncDiv(n * p, b) / p * b
    ensures Abs(n * p - (m * p + y)) < Abs(b) && Abs(y) <= p * Abs(b) - Abs(b)
  {
    var q := TruncDiv(n * p, b);
    m, y := q / p * b, q % p * b;
    assert q * b == m * p + y by {
      assert q == q / p * p + q % p;
      Distribute(q / p, p, q % p, b);
    }
    TruncDivBounds(n * p, b);
    ScaledRemainder(q % p, b, p);
  }

  lemma InRangeQuotient(n: int, p: int, b: int)
    requires p > 0 && b != 0
    ensures Abs(TruncDiv(n * p, b) / p * b - n) < Abs(b)
  {
    var m, y := ScaledError(n, p, b);
    ScaledDifference(n, m, y, p, Abs(b));
  }

  // For a numerator below 2^31 in magnitude there is a result less than one unit off the true
  // quotient, whatever the signs, exactly when the division does not overflow.
  lemma DivWithinOneIff(a: S64, b: S64)
    requires b != 0 && Msb(a) <= 30
    ensures Div(a, b).Value? && Abs(Div(a, b).v * b - a * ONE) < Abs(b) <==> !DivOverflows(a, b)
  {
    if DivOverflows(a, b) {
      DivYields(a, b);
    } else {
      NumeratorScaled(a);
      DivValue(a, b);
      InRangeQuotient(a * ONE, Pow2(Up(a) - 32), b);
    }
  }

  // A larger numerator costs the divisor its low k bits. The result is then at least the true
  // floor, and at most the quotient by the smallest divisor that has the same upper bits.
  lemma DivApprox(a: S64, b: S64)
    requires a >= 0 && b > 0 && Msb(a) > 30 && b >= Pow2(Msb(a) - 30)
    ensures Div(a, b).Value?
    ensures var r := Div(a, b).v;
      && 0 <= r && InS64(r) && a * ONE / b <= r
      && r * (b - Pow2(Msb(a) - 30) + 1) <= a * ONE
  {
    MsbOfS64(a);
    var k := Msb(a) - 30;
    var p, u := Pow2(k), Pow2(32 - k);
    assert p * u == ONE by { Pow2Add(k, 32 - k); Pow2Values(); }
    DivIsGreatest(b, p, 1);
    DivOfNonNegative(a, b);
    CoarseQuotient(a, b, p, u, ONE);
  }

  lemma ExpandError(num: int, p: int, den: int, rest: int, r: int)
    ensures r * (den * p + rest) - num * p == (r * den - num) * p + r * rest
  {
  }

  lemma AddErrors(x: int, p: nat, r: int, rest: nat, c: nat)
    requires Abs(x) < c && rest < p
    ensures Abs(x * p + r * rest) <= Abs(r) * (p - 1) + c * p
  {
    assert Abs(r * rest) <= Abs(r) * (p - 1) by { AbsProduct(r, rest, p - 1); }
    assert Abs(x * p) <= c * p by {
      AbsProduct(x, p, p);
      MulMonotone(p, Abs(x), c);
    }
  }

  lemma CoarseErrorOf(num: int, p: int, b: int, den: int, rest: nat, r: int)
    requires rest < p && b == den * p + rest && Abs(num - r * den) < Abs(den)
    ensures Abs(r * b - num * p) <= Abs(r) * (p - 1) + Abs(den) * p
  {
    AddErrors(r * den - num, p, r, rest, Abs(den));
    ExpandError(num, p, den, rest, r);
  }

  lemma Parts(b: int, p: int)
    requires p > 0
    ensures b == b / p * p + b % p && 0 <= b % p < p
  {
  }

  // The error of dividing num * p by b as num by b / p.
  lemma CoarseError(num: int, p: int, b: int, den: int, r: int)
    requires p > 0 && den == b / p != 0 && Abs(num - r * den) < Abs(den)
    ensures Abs(r * b - num * p) <= Abs(r) * (p - 1) + Abs(den) * p
  {
    Parts(b, p);
    CoarseErrorOf(num, p, b, den, b % p, r);
  }

  // The same for any signs, whenever there is a value: the error is what the low bits of the divisor
  // are worth, and one shifted divisor.
  lemma DivSignedApprox(a: S64, b: S64)
    requires Msb(a) > 30 && Div(a, b).Value?
    ensures var r, p := Div(a, b).v, Pow2(Msb(a) - 30);
      Abs(r * b - a * ONE) <= Abs(r) * (p - 1) + Abs(b / p) * p
  {
    MsbOfS64(a);
    var k := Msb(a) - 30;
    var p, num := Pow2(k), a * Pow2(32 - k);
    assert num * p == a * ONE by {
      assert Pow2(32 - k) * p == ONE by { Pow2Add(32 - k, k); Pow2Values(); }
      MulAssoc(a, Pow2(32 - k), p);
    }
    NumeratorFits(a);
    WrapS64Id(num);
    TruncDivBounds(num, b / p);
    CoarseError(num, p, b, b / p, Div(a, b).v);
  }

  lemma CoarseQuotient(a: nat, b: int, p: int, u: int, one: int)
    requires p > 0 && u > 0 && p * u == one && b / p > 0 && b > 0
    ensures var r := (a * u) / (b / p); 0 <= r && r * (b - p + 1) <= a * one
    ensures a * one / b <= (a * u) / (b / p)
  {
    MulAssoc(a, u, p);
    MulMonotone(u, 0, a);
    DivBounds(b, p);
    CoarseAbove(a * u, b, p, b / p);
    CoarseBelow(a * u, b, p, b / p);
  }

  // b - p + 1 <= den * p and r * den <= n.
  lemma CoarseAbove(n: nat, b: int, p: int, den: int)
    requires p > 0 && den > 0 && b < den * p + p
    ensures var r := n / den; 0 <= r && r * (b - p + 1) <= n * p
  {
    var r := n / den;
    DivBounds(n, den);
    DivIsGreatest(n, den, 0);
    MulMonotone(r, b - p + 1, den * p);
    MulMonotone(p, r * den, n);
    assert p * (r * den) == r * (den * p);
  }

  // t * den * p <= t * b <= n * p, hence t * den <= n.
  lemma CoarseBelow(n: nat, b: int, p: int, den: int)
    requires p > 0 && den > 0 && den * p <= b
    ensures (n * p) / b <= n / den
  {
    MulMonotone(den, 1, p);
    var t := (n * p) / b;
    DivBounds(n * p, b);
    MulMonotone(n, 0, p);
    DivIsGreatest(n * p, b, 0);
    MulMonotone(t, den * p, b);
    MulAssoc(t, den, p);
    CancelMul(n, t * den, p);
    DivIsGreatest(n, den, t);
  }

  /* ---------- drm_fixp_from_fraction ---------- */

  // r is a / b in units of 2^-32, rounded to nearest, ties away from zero.
  predicate IsNearest(a: int, b: int, r: int) {
    var err := r * b - a * ONE;
    && 2 * Abs(err) <= Abs(b)
    && (2 * Abs(err) == Abs(b) ==> Abs(r * b) > Abs(a * ONE))
  }

  function Nearest(a: int, b: int): int
    requires b != 0
  {
    var q := (2 * (Abs(a) * ONE) + Abs(b)) / (2 * Abs(b));
    if (a < 0) == (b < 0) then q else -q
  }

  // Rounding the magnitudes, and fixing the sign afterwards.
  lemma NearestMagnitude(n: nat, d: int, q: int)
    requires d > 0 && q == (2 * n + d) / (2 * d)
    ensures q >= 0 && 2 * Abs(q * d - n) <= d
    ensures 2 * Abs(q * d - n) == d ==> q * d > n
  {
    DivBounds(2 * n + d, 2 * d);
    DivIsGreatest(2 * n + d, 2 * d, 0);
    assert q * (2 * d) == 2 * (q * d);
  }

  lemma SignedProduct(q: int, negative: bool, b: int)
    ensures (if negative == (b < 0) then q else -q) * b == if negative then -(q * Abs(b)) else q * Abs(b)
  {
  }

  lemma NearestIsNearest(a: int, b: int)
    requires b != 0
    ensures IsNearest(a, b, Nearest(a, b))
  {
    var n, d := Abs(a) * ONE, Abs(b);
    var q := (2 * n + d) / (2 * d);
    NearestMagnitude(n, d, q);
    SignedProduct(q, a < 0, b);
    assert 0 <= q * d by { MulMonotone(d, 0, q); }
  }

  lemma NearestUnique(a: int, b: int, r: int, s: int)
    requires b != 0 && IsNearest(a, b, r) && IsNearest(a, b, s)
    ensures r == s
  {
    MultipleOf(r, b);
    MultipleOf(s, b);
    MultipleOf(r - s, b);
    assert (r - s) * b == r * b - s * b;
  }

  // The nearest quotient changes sign with either argument.
  lemma NearestOdd(a: int, b: int)
    requires b != 0
    ensures Nearest(-a, b) == -Nearest(a, b) == Nearest(a, -b)
  {
    if a == 0 {
      ModUnique(Abs(b), 0, Abs(b), 2 * Abs(b));
    }
  }

  // The magnitude as the source computes it: -a wraps at -2^63, and the cast to u64 undoes that.
  function Magnitude(a: int): nat {
    WrapU64(if a < 0 then WrapS64(-a) else a)
  }

  lemma MagnitudeIsAbs(a: int)
    requires InS64(a)
    ensures Magnitude(a) == Abs(a) <= TWO_63
  {
    if a < 0 {
      if a == -TWO_63 {
        ModUnique(-a + TWO_63, 1, 0, TWO_64);
        ModUnique(-TWO_63, -1, TWO_63, TWO_64);
      } else {
        WrapS64Id(-a);
        ModUnique(-a, 0, -a, TWO_64);
      }
    } else {
      ModUnique(a, 0, a, TWO_64);
    }
  }

  lemma RoundUp(n: nat, d: int, q: int, rem: int)
    requires d > 0 && 0 <= rem < d && q * d + rem == n
    ensures (2 * n + d) / (2 * d) == q + if 2 * rem >= d then 1 else 0
  {
    if 2 * rem >= d {
      assert (q + 1) * (2 * d) == 2 * (q * d) + 2 * d;
      ModUnique(2 * n + d, q + 1, 2 * rem - d, 2 * d);
    } else {
      assert q * (2 * d) == 2 * (q * d);
      ModUnique(2 * n + d, q, 2 * rem + d, 2 * d);
    }
  }

  // The registers of the long division of n by d: q is the quotient before truncation.
  predicate Dividing(n: int, d: int, q: int, rem: int, resAbs: int) {
    0 <= rem < d <= TWO_63 && resAbs == WrapU64(q) && q * d + rem == n
  }

  lemma StartDividing(n: int, d: int)
    requires 0 <= n <= TWO_63 && 0 < d <= TWO_63
    ensures Dividing(n, d, n / d, n % d, n / d)
  {
    DivIsGreatest(n, d, 0);
    MulMonotone(TWO_64, 1, d);
    DivIsGreatest(n, d, TWO_64);
    ModUnique(n / d, 0, n / d, TWO_64);
  }

  // One pass of the bit loop.
  lemma BitStep(n: int, d: int, q: int, rem: int, resAbs: int)
    requires Dividing(n, d, q, rem, resAbs)
    ensures WrapU64(rem * 2) == rem * 2
    ensures if rem * 2 >= d
      then Dividing(2 * n, d, 2 * q + 1, rem * 2 - d, WrapU64(WrapU64(resAbs * 2) + 1))
      else Dividing(2 * n, d, 2 * q, rem * 2, WrapU64(resAbs * 2))
  {
    assert (2 * q) * d == 2 * (q * d) && (2 * q + 1) * d == 2 * (q * d) + d;
    ModUnique(rem * 2, 0, rem * 2, TWO_64);
    WrapU64Twice(q);
    WrapU64Twice(q * 2);
  }

  // The last bit is rounded up, and the cast to s64 gives the wrapped quotient.
  lemma RoundLast(n: int, d: int, q: int, rem: int, resAbs: int)
    requires Dividing(n, d, q, rem, resAbs) && n >= 0
    ensures WrapU64(rem * 2) == rem * 2
    ensures var summand, nearest := if rem * 2 >= d then 1 else 0, (2 * n + d) / (2 * d);
      && WrapS64(WrapU64(resAbs + summand)) == WrapS64(nearest)
      && WrapS64(-WrapS64(WrapU64(resAbs + summand))) == WrapS64(-nearest)
  {
    ModUnique(rem * 2, 0, rem * 2, TWO_64);
    RoundUp(n, d, q, rem);
    WrapU64Twice(q);
    ModUnique(resAbs, 0, resAbs, TWO_64);
    WrapOfWrapU64((2 * n + d) / (2 * d));
  }

  lemma DoublePow2(x: int, k: nat)
    ensures x * Pow2(k + 1) == 2 * (x * Pow2(k))
  {
    MulAssoc(x, Pow2(k), 2);
  }

  // The bit loop: 32 steps of long division.
  method FractionBits(aAbs: nat, bAbs: nat, resAbs0: nat, rem0: nat)
    returns (resAbs: nat, rem: nat)
    requires Dividing(aAbs, bAbs, resAbs0, rem0, resAbs0)
    ensures Dividing(aAbs * ONE, bAbs, aAbs * ONE / bAbs, rem, resAbs)
  {
    resAbs, rem := resAbs0, rem0;
    ghost var n, q := aAbs, resAbs;
    var i := 32;
    while i != 0
      invariant 0 <= i <= 32 && n == aAbs * Pow2(32 - i)
      invariant Dividing(n, bAbs, q, rem, resAbs)
    {
      BitStep(n, bAbs, q, rem, resAbs);
      rem := WrapU64(rem * 2);
      resAbs := WrapU64(resAbs * 2);
      n, q := 2 * n, 2 * q;
      if rem >= bAbs {
        resAbs := WrapU64(resAbs + 1);
        rem := rem - bAbs;
        q := q + 1;
      }
      DoublePow2(aAbs, 32 - i);
      i := i - 1;
    }
    assert Pow2(32) == ONE by { Pow2Values(); }
    ModUnique(n, q, rem, bAbs);
  }

  // The magnitude of the result, as 64 bits.
  method FractionAbs(aAbs: nat, bAbs: nat) returns (resAbs: nat)
    requires aAbs <= TWO_63 && 0 < bAbs <= TWO_63
    ensures var nearest := (2 * (aAbs * ONE) + bAbs) / (2 * bAbs);
      WrapS64(resAbs) == WrapS64(nearest) && WrapS64(-WrapS64(resAbs)) == WrapS64(-nearest)
  {
    // integer part
    var rem := aAbs % bAbs;
    resAbs := aAbs / bAbs;
    StartDividing(aAbs, bAbs);

    // fractional part
    resAbs, rem := FractionBits(aAbs, bAbs, resAbs, rem);

    // round up the last bit
    RoundLast(aAbs * ONE, bAbs, aAbs * ONE / bAbs, rem, resAbs);
    var summand := if WrapU64(rem * 2) >= bAbs then 1 else 0;
    resAbs := WrapU64(resAbs + summand);
  }

  method FixpFromFraction(a: S64, b: S64) returns (r: Outcome)
    ensures r == if b == 0 then DivideByZero else Value(WrapS64(Nearest(a, b)))
  {
    var aNeg, bNeg := a < 0, b < 0;
    var aAbs, bAbs := Magnitude(a), Magnitude(b);
    MagnitudeIsAbs(a);
    MagnitudeIsAbs(b);
    if bAbs == 0 {
      return DivideByZero;
    }
    var resAbs := FractionAbs(aAbs, bAbs);
    var res := WrapS64(resAbs);
    if aNeg != bNeg {
      res := WrapS64(-res);
    }
    return Value(res);
  }

  // The conversion is correctly rounded exactly when the rounded quotient fits in s64.
  lemma FromFractionCorrectIff(a: S64, b: S64)
    requires b != 0
    ensures IsNearest(a, b, WrapS64(Nearest(a, b))) <==> InS64(Nearest(a, b))
  {
    NearestIsNearest(a, b);
    if InS64(Nearest(a, b)) {
      WrapS64Id(Nearest(a, b));
    } else if IsNearest(a, b, WrapS64(Nearest(a, b))) {
      NearestUnique(a, b, Nearest(a, b), WrapS64(Nearest(a, b)));
    }
  }
}
