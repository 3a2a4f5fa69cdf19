/** The s64 32.32 fixed-point arithmetic of include/drm/drm_fixed.h.

    Numbers are unbounded integers; every place where the source truncates to 64 bits goes through
    `WrapS64` or `WrapU64`, so that the absence of overflow is something to prove.
  */
module FixedPoint {
  import opened Words

  const ONE: int := TWO_32

  /* ---------- drm_fixp_msbset ---------- */

  // The highest bit, 0 excepted, that differs from the sign bit.
  function Msb(a: int): nat
    decreases if a < 0 then -a else a, a < 0
  {
    if a < 0 then Msb(-a - 1) else if a < 2 then 0 else 1 + Msb(a / 2)
  }

  // a fits in m + 1 bits and a sign, and m is the least such number.
  predicate IsMsb(a: int, m: nat) {
    && -Pow2(m + 1) <= a < Pow2(m + 1)
    && (m > 0 ==> a < -Pow2(m) || Pow2(m) <= a)
  }

  lemma {:induction false} MsbIsMsb(a: int)
    ensures IsMsb(a, Msb(a))
    decreases if a < 0 then -a else a, a < 0
  {
    if a < 0 {
      MsbIsMsb(-a - 1);
    } else if a >= 2 {
      MsbIsMsb(a / 2);
    }
  }

  lemma MsbUnique(a: int, m: nat)
    requires IsMsb(a, m)
    ensures m == Msb(a)
  {
    MsbIsMsb(a);
    var n := Msb(a);
    if m < n {
      Pow2Monotone(m + 1, n);
    } else if n < m {
      Pow2Monotone(n + 1, m);
    }
  }

  lemma MsbOfS64(a: S64)
    ensures Msb(a) <= 62
  {
    MsbIsMsb(a);
    assert InS64(a);
    if Msb(a) >= 63 {
      Pow2Values();
      Pow2Monotone(63, Msb(a));
    }
  }

  lemma MsbMonotone(a: nat, m: nat)
    requires a < Pow2(m + 1)
    ensures Msb(a) <= m
  {
    MsbIsMsb(a);
    if Msb(a) > m {
      Pow2Monotone(m + 1, Msb(a));
    }
  }

  // (a >> k) & 1
  function Bit(a: int, k: nat): int {
    (a / Pow2(k)) % 2
  }

  lemma ScanStart(a: S64)
    ensures a / Pow2(63) == if a < 0 then -1 else 0
    ensures Bit(a, 63) == if a < 0 then 1 else 0
  {
    Pow2Values();
    assert InS64(a);
    ModUnique(a, if a < 0 then -1 else 0, if a < 0 then a + TWO_63 else a, TWO_63);
  }

  lemma ScanEnd(a: int)
    requires a / Pow2(1) == if a < 0 then -1 else 0
    ensures IsMsb(a, 0)
  {
    DivBounds(a, Pow2(1));
  }

  // One step of the scan: all bits above `shift` equal the sign.
  lemma ScanStep(a: int, shift: nat)
    requires a / Pow2(shift + 1) == if a < 0 then -1 else 0
    ensures Bit(a, shift) == (if a < 0 then 1 else 0) ==> a / Pow2(shift) == if a < 0 then -1 else 0
    ensures Bit(a, shift) != (if a < 0 then 1 else 0) ==> IsMsb(a, shift)
  {
    var p := Pow2(shift);
    var q := a / p;
    assert q / 2 == if a < 0 then -1 else 0 by { DivDiv(a, p, 2); }
    ScanQuotient(a, p, q);
  }

  lemma ScanQuotient(a: int, p: int, q: int)
    requires p > 0 && q == a / p && q / 2 == if a < 0 then -1 else 0
    ensures if q % 2 == (if a < 0 then 1 else 0) then q == (if a < 0 then -1 else 0)
      else if a < 0 then -2 * p <= a < -p else p <= a < 2 * p
  {
    DivBounds(a, p);
    assert q == -2 ==> q * p == -2 * p;
    assert q == 1 ==> q * p == p;
  }

  // drm_fixp_msbset scans down for the first bit that differs from the sign.
  method MsbSet(a: S64) returns (m: nat)
    ensures m == Msb(a) <= 62
  {
    MsbOfS64(a);
    ScanStart(a);
    var sign := Bit(a, 63);
    var shift := 62;
    while shift > 0
      invariant 0 <= shift <= 62
      invariant a / Pow2(shift + 1) == if a < 0 then -1 else 0
    {
      ScanStep(a, shift);
      if Bit(a, shift) != sign {
        MsbUnique(a, shift);
        return shift;
      }
      shift := shift - 1;
    }
    ScanEnd(a);
    MsbUnique(a, 0);
    return 0;
  }

  /* ---------- drm_fixp_mul ---------- */

  function MulShift(a: int, b: int): nat {
    if Msb(a) + Msb(b) > 61 then Msb(a) + Msb(b) - 61 else 0
  }

  // The shifts of the two operands: half each, the odd bit goes to the first.
  function ShiftA(a: int, b: int): nat { MulShift(a, b) / 2 + MulShift(a, b) % 2 }
  function ShiftB(a: int, b: int): nat { MulShift(a, b) / 2 }

  // The product before truncation to 64 bits.
  function Product(a: int, b: int): int {
    (a / Pow2(ShiftA(a, b))) * (b / Pow2(ShiftB(a, b)))
  }

  // The final shift, which makes up for the pre-shifts.
  function Rescale(result: int, shift: nat): (r: int)
    requires InS64(result)
    ensures InS64(r)
  {
    if shift > 32 then WrapS64(result * Pow2(shift - 32))
    else if shift < 32 then DivInS64(result, Pow2(32 - shift)); result / Pow2(32 - shift)
    else result
  }

  function Mul(a: int, b: int): (r: int)
    ensures InS64(r)
  {
    Rescale(WrapS64(Product(a, b)), MulShift(a, b))
  }

  lemma DivInS64(x: int, d: int)
    requires InS64(x) && d > 0
    ensures InS64(x / d)
  {
    MulMonotone(TWO_63, 1, d);
    DivIsGreatest(x, d, TWO_63);
    DivIsGreatest(x, d, -TWO_63);
  }

  // The pre-shifts.
  method ShiftOperands(a0: S64, b0: S64) returns (a: int, b: int, shift: nat)
    ensures shift == MulShift(a0, b0)
    ensures a == a0 / Pow2(ShiftA(a0, b0)) && b == b0 / Pow2(ShiftB(a0, b0))
    // what the msb values exceed 61 by is split between the operands, the odd bit goes to the first
    ensures var excess := Msb(a0) + Msb(b0) - 61;
      if excess <= 0 then a == a0 && b == b0 && shift == 0
      else a == a0 / Pow2((excess + 1) / 2) && b == b0 / Pow2(excess / 2) && shift == excess
  {
    a, b := a0, b0;
    var ma := MsbSet(a0);
    var mb := MsbSet(b0);
    shift := ma + mb;
    if shift > 61 {
      shift := shift - 61;
      a := a / Pow2(shift / 2 + shift % 2);
      b := b / Pow2(shift / 2);
    } else {
      shift := 0;
      assert a / Pow2(0) == a && b / Pow2(0) == b;
    }
  }

  // The shift of the result.
  method ShiftResult(result: int, shift: nat) returns (r: int)
    requires InS64(result)
    ensures r == Rescale(result, shift)
  {
    if shift > 32 {
      return WrapS64(result * Pow2(shift - 32));
    }
    if shift < 32 {
      return result / Pow2(32 - shift);
    }
    return result;
  }

  method FixpMul(a0: S64, b0: S64) returns (r: S64)
    ensures r == Mul(a0, b0)
  {
    var a, b, shift := ShiftOperands(a0, b0);
    r := ShiftResult(WrapS64(a * b), shift);
  }

  lemma QuotientBounds(a: int, p: int, x: int)
    requires p > 0 && x > 0 && -(x * p) <= a < x * p
    ensures -x <= a / p < x
    ensures a / p < 0 <==> a < 0
    ensures a / p == -x <==> a < -(x * p) + p
  {
    DivIsGreatest(a, p, x);
    assert (-x) * p == -(x * p);
    DivIsGreatest(a, p, -x);
    assert (-x + 1) * p == -(x * p) + p;
    DivIsGreatest(a, p, -x + 1);
    DivIsGreatest(a, p, 0);
  }

  lemma ShiftedBounds(a: int, m: nat, s: nat)
    requires IsMsb(a, m) && s <= m + 1
    ensures var x := a / Pow2(s);
      && -Pow2(m + 1 - s) <= x < Pow2(m + 1 - s)
      && (x < 0 <==> a < 0)
      && (x == -Pow2(m + 1 - s) <==> a < -Pow2(m + 1) + Pow2(s))
  {
    Pow2Add(m + 1 - s, s);
    QuotientBounds(a, Pow2(s), Pow2(m + 1 - s));
  }

  lemma ProductOfBounded(a: nat, b: nat, x: int, y: int)
    requires a <= x && b <= y && x > 0 && y > 0
    ensures 0 <= a * b <= x * y
    ensures a * b == x * y ==> a == x && b == y
  {
    MulMonotone(a, b, y);
    MulMonotone(y, a, x);
    if a < x {
      MulMonotone(y, a, x - 1);
      assert y * (x - 1) == x * y - y;
    } else if b < y {
      MulMonotone(x, b, y - 1);
      assert x * (y - 1) == x * y - x;
    }
  }

  // The product of two operands bounded by x and y reaches x * y only at the two lower ends.
  lemma ExtremeProduct(a: int, b: int, x: int, y: int)
    requires -x <= a < x && -y <= b < y
    ensures -(x * y) <= a * b <= x * y
    ensures a * b == x * y <==> a == -x && b == -y
  {
    var u, v := if a < 0 then -a else a, if b < 0 then -b else b;
    ProductOfBounded(u, v, x, y);
    assert a * b == if (a < 0) == (b < 0) then u * v else -(u * v);
    assert x * y > 0;
  }

  lemma ShiftRoom(a: S64, b: S64)
    ensures ShiftA(a, b) <= Msb(a) + 1 && ShiftB(a, b) <= Msb(b) + 1
  {
    MsbOfS64(a);
    MsbOfS64(b);
  }

  // Both operands are negative and so close below a power of two that the shifted ones are the
  // two most negative numbers of their widths.
  predicate MulOverflows(a: int, b: int) {
    && a < 0 && b < 0 && Msb(a) + Msb(b) >= 61
    && a < -Pow2(Msb(a) + 1) + Pow2(ShiftA(a, b))
    && b < -Pow2(Msb(b) + 1) + Pow2(ShiftB(a, b))
  }

  // The pre-shifts keep the product inside s64, except at that one corner.
  lemma ProductFitsIff(a: S64, b: S64)
    ensures InS64(Product(a, b)) <==> !MulOverflows(a, b)
  {
    var ma, mb, sa, sb := Msb(a), Msb(b), ShiftA(a, b), ShiftB(a, b);
    MsbIsMsb(a);
    MsbIsMsb(b);
    ShiftRoom(a, b);
    ShiftedBounds(a, ma, sa);
    ShiftedBounds(b, mb, sb);
    var x, y := Pow2(ma + 1 - sa), Pow2(mb + 1 - sb);
    ExtremeProduct(a / Pow2(sa), b / Pow2(sb), x, y);
    WidthOfProduct(ma, mb, sa, sb);
  }

  // The widths of the shifted operands add up to at most 63 bits, and to less without a pre-shift.
  lemma WidthOfProduct(ma: nat, mb: nat, sa: nat, sb: nat)
    requires sa <= ma + 1 && sb <= mb + 1 && sa + sb == if ma + mb > 61 then ma + mb - 61 else 0
    ensures Pow2(ma + 1 - sa) * Pow2(mb + 1 - sb) <= TWO_63
    ensures Pow2(ma + 1 - sa) * Pow2(mb + 1 - sb) == TWO_63 <==> ma + mb >= 61
  {
    var w := ma + 1 - sa + (mb + 1 - sb);
    Pow2Add(ma + 1 - sa, mb + 1 - sb);
    Pow2Values();
    if ma + mb < 61 {
      Pow2Monotone(w, 62);
    } else {
      assert w == 63;
    }
  }

  lemma ProductFits(a: S64, b: S64)
    requires a >= 0 || b >= 0
    ensures InS64(Product(a, b))
  {
    ProductFitsIff(a, b);
  }

  lemma MsbOfMinusOne()
    ensures Msb(-ONE) == 31 && Msb(-ONE / 2) == 30
  {
    assert Pow2(30) == TWO_31 / 2 && Pow2(31) == TWO_31 && Pow2(32) == ONE by { Pow2Values(); }
    MsbUnique(-ONE, 31);
    MsbUnique(-ONE / 2, 30);
  }

  // The corner is reached: -1.0 times -0.5 comes out as -0.5.
  lemma MinusOneTimesMinusHalf()
    ensures MulOverflows(-ONE, -ONE / 2)
    ensures Mul(-ONE, -ONE / 2) == -ONE / 2
  {
    MsbOfMinusOne();
    assert ShiftA(-ONE, -ONE / 2) == 0 && ShiftB(-ONE, -ONE / 2) == 0;
    assert Product(-ONE, -ONE / 2) == TWO_63 by { assert Pow2(0) == 1; }
    assert Pow2(31) == TWO_31 && Pow2(32) == ONE by { Pow2Values(); }
    assert WrapS64(TWO_63) / ONE == -ONE / 2;
  }

  // Without pre-shift the product is exact and the result its floor, whatever the signs.
  lemma MulExact(a: S64, b: S64)
    requires Msb(a) + Msb(b) <= 61 && !MulOverflows(a, b)
    ensures Mul(a, b) == a * b / ONE
  {
    assert Product(a, b) == a * b by { assert a / Pow2(0) == a && b / Pow2(0) == b; }
    assert InS64(Product(a, b)) by { ProductFitsIff(a, b); }
    WrapS64Id(a * b);
    assert Pow2(32) == ONE by { Pow2Values(); }
  }

  lemma Regroup(x: int, y: int, p: int, q: int)
    ensures (x * y) * (p * q) == (x * p) * (y * q)
  {
    MulAssoc(x * y, p, q);
    MulAssoc(x * p, y, q);
    assert (x * y) * p == (x * p) * y;
  }

  // What is lost of a product when its factors lose at most m and n.
  lemma ProductLoss(u: nat, c: nat, v: nat, d: nat, m: nat, n: nat)
    requires c <= m && d <= n
    ensures u * v <= (u + c) * (v + d) <= u * v + (v + d) * m + (u + c) * n
  {
    var a, b := u + c, v + d;
    assert a * b == u * v + u * d + b * c;
    MulMonotone(b, 0, c);
    MulMonotone(b, c, m);
    MulMonotone(u, 0, d);
    MulMonotone(u, d, n);
    MulMonotone(n, u, a);
  }

  // What two floor shifts lose of a product.
  lemma ShiftLoss(a: nat, b: nat, p: int, q: int)
    requires p > 0 && q > 0
    ensures 0 <= (a / p) * (b / q)
    ensures 0 <= (a / p) * (b / q) * (p * q) <= a * b
    ensures a * b - (a / p) * (b / q) * (p * q) <= b * (p - 1) + a * (q - 1)
  {
    var x, y := a / p, b / q;
    DivBounds(a, p);
    DivBounds(b, q);
    DivIsGreatest(a, p, 0);
    DivIsGreatest(b, q, 0);
    ShiftLossOf(a, b, p, q, x, y);
  }

  lemma ShiftLossOf(a: nat, b: nat, p: int, q: int, x: nat, y: nat)
    requires p > 0 && q > 0 && x * p <= a < x * p + p && y * q <= b < y * q + q
    ensures 0 <= x * y && 0 <= (x * y) * (p * q) <= a * b
    ensures a * b - (x * y) * (p * q) <= b * (p - 1) + a * (q - 1)
  {
    var u, v := x * p, y * q;
    assert 0 <= u && 0 <= v;
    assert (x * y) * (p * q) == u * v by { Regroup(x, y, p, q); }
    assert 0 <= x * y;
    assert 0 <= u * v;
    ProductLoss(u, a - u, v, b - v, p - 1, q - 1);
  }

  lemma CancelMul(x: int, y: int, d: int)
    requires d > 0
    ensures x * d < y * d <==> x < y
  {
    if x >= y {
      MulMonotone(d, y, x);
    } else {
      MulMonotone(d, x + 1, y);
    }
  }

  lemma MulAssoc(x: int, y: int, z: int)
    ensures x * (y * z) == (x * y) * z
  {
  }

  lemma ShiftUp(prod: int, shift: nat)
    requires InS64(prod) && shift >= 32
    requires -TWO_63 * ONE <= prod * Pow2(shift - 32) * ONE < TWO_63 * ONE
    ensures Rescale(prod, shift) == prod * Pow2(shift - 32)
  {
    var x := prod * Pow2(shift - 32);
    WrapS64Id(x);
    assert shift == 32 ==> x == prod * Pow2(0) == prod;
  }

  // A final shift to the left is exact.
  lemma RescaleUp(prod: int, shift: nat)
    requires InS64(prod) && shift >= 32 && -TWO_63 * ONE <= prod * Pow2(shift) < TWO_63 * ONE
    ensures Rescale(prod, shift) * ONE == prod * Pow2(shift)
  {
    var k := Pow2(shift - 32);
    assert prod * Pow2(shift) == prod * k * ONE by {
      assert Pow2(32) == ONE by { Pow2Values(); }
      Pow2Add(shift - 32, 32);
      MulAssoc(prod, k, ONE);
    }
    ShiftUp(prod, shift);
  }

  // The final shift scales the product back and floors it.
  lemma RescaleBounds(prod: int, shift: nat)
    requires InS64(prod) && -TWO_63 * ONE <= prod * Pow2(shift) < TWO_63 * ONE
    ensures var r := Rescale(prod, shift); r * ONE <= prod * Pow2(shift) < r * ONE + ONE
  {
    if shift >= 32 {
      RescaleUp(prod, shift);
    } else {
      assert Pow2(32 - shift) * Pow2(shift) == ONE by {
        Pow2Add(32 - shift, shift);
        Pow2Values();
      }
      ScaleFloor(prod, Pow2(32 - shift), Pow2(shift), ONE);
    }
  }

  lemma ScaleFloor(x: int, d: int, p: int, one: int)
    requires d > 0 && p > 0 && d * p == one
    ensures (x / d) * one <= x * p < (x / d) * one + one
  {
    var q := x / d;
    DivBounds(x, d);
    MulMonotone(p, q * d, x);
    MulMonotone(p, x + 1, q * d + d);
    assert p * (q * d) == q * one;
    assert p * (q * d + d) == q * one + one;
  }

  // What is lost when the operands are shifted by sa and sb.
  lemma PreShiftLoss(a: nat, b: nat, sa: nat, sb: nat)
    ensures var scaled := (a / Pow2(sa)) * (b / Pow2(sb)) * Pow2(sa + sb);
      && 0 <= (a / Pow2(sa)) * (b / Pow2(sb)) && scaled <= a * b
      && a * b - scaled <= b * (Pow2(sa) - 1) + a * (Pow2(sb) - 1)
  {
    Pow2Add(sa, sb);
    ShiftLoss(a, b, Pow2(sa), Pow2(sb));
  }

  lemma RescaleLoss(prod: int, shift: nat, exact: int, loss: int)
    requires 0 <= prod && InS64(prod) && exact < TWO_63 * ONE
    requires prod * Pow2(shift) <= exact <= prod * Pow2(shift) + loss
    ensures var r := Rescale(prod, shift); 0 <= r && r * ONE <= exact < r * ONE + loss + ONE
  {
    assert 0 <= prod * Pow2(shift) by { MulMonotone(Pow2(shift), 0, prod); }
    RescaleBounds(prod, shift);
  }

  // What the pre-shifts can drop.
  function Loss(a: int, b: int): int {
    b * (Pow2(ShiftA(a, b)) - 1) + a * (Pow2(ShiftB(a, b)) - 1)
  }

  lemma MulLoss(a: S64, b: S64)
    requires a >= 0 && b >= 0 && a * b < TWO_63 * ONE
    ensures 0 <= Mul(a, b) && Mul(a, b) * ONE <= a * b < Mul(a, b) * ONE + Loss(a, b) + ONE
  {
    var shift, prod := ShiftA(a, b) + ShiftB(a, b), Product(a, b);
    assert 0 <= prod && prod * Pow2(shift) <= a * b <= prod * Pow2(shift) + Loss(a, b) by {
      PreShiftLoss(a, b, ShiftA(a, b), ShiftB(a, b));
    }
    assert InS64(prod) && Mul(a, b) == Rescale(prod, shift) by {
      ProductFits(a, b);
      WrapS64Id(prod);
    }
    RescaleLoss(prod, shift, a * b, Loss(a, b));
  }

  lemma MulAtMostFloor(a: S64, b: S64)
    requires a >= 0 && b >= 0 && a * b < TWO_63 * ONE
    ensures Mul(a, b) <= a * b / ONE
  {
    assert Mul(a, b) * ONE <= a * b by { MulLoss(a, b); }
    DivIsGreatest(a * b, ONE, Mul(a, b));
  }

  // For non-negative operands whose product is representable, the result never exceeds the true
  // one, and what it falls short of it is what the two pre-shifts and the final one can drop.
  lemma MulApprox(a: S64, b: S64)
    requires a >= 0 && b >= 0 && a * b < TWO_63 * ONE
    ensures 0 <= Mul(a, b) && Mul(a, b) * ONE <= a * b < Mul(a, b) * ONE + Loss(a, b) + ONE
    ensures Mul(a, b) <= a * b / ONE
    ensures Msb(a) + Msb(b) <= 61 ==> Mul(a, b) == a * b / ONE
  {
    MulAtMostFloor(a, b);
    assert Msb(a) + Msb(b) <= 61 ==> Mul(a, b) == a * b / ONE by {
      if Msb(a) + Msb(b) <= 61 {
        MulExact(a, b);
      }
    }
    MulLoss(a, b);
  }

  /* Any signs. */

  lemma AbsProduct(x: int, y: nat, m: nat)
    requires y <= m
    ensures Abs(x * y) <= Abs(x) * m
  {
    MulMonotone(Abs(x), y, m);
    MulMonotone(Abs(x), 0, y);
  }

  // What is lost of a product when its factors lose c and d.
  lemma SignedProductLoss(a: int, c: nat, b: int, d: nat, m: nat, n: nat)
    requires c <= m && d <= n
    ensures Abs(a * b - (a - c) * (b - d)) <= Abs(b) * m + Abs(a) * n + m * n
  {
    assert a * b - (a - c) * (b - d) == b * c + a * d - c * d;
    assert Abs(b * c) <= Abs(b) * m by { AbsProduct(b, c, m); }
    assert Abs(a * d) <= Abs(a) * n by { AbsProduct(a, d, n); }
    assert 0 <= c * d <= m * n by {
      MulMonotone(c, 0, d);
      MulMonotone(c, d, n);
      MulMonotone(n, c, m);
    }
  }

  // What the pre-shifts can change, for any signs.
  function SignedLoss(a: int, b: int): int {
    var m, n := Pow2(ShiftA(a, b)) - 1, Pow2(ShiftB(a, b)) - 1;
    Abs(b) * m + Abs(a) * n + m * n
  }

  lemma SignedShiftLoss(a: int, b: int, p: int, q: int)
    requires p > 0 && q > 0
    ensures Abs(a * b - (a / p) * (b / q) * (p * q)) <= Abs(b) * (p - 1) + Abs(a) * (q - 1) + (p - 1) * (q - 1)
  {
    var c, d := a % p, b % q;
    assert (a / p) * (b / q) * (p * q) == (a - c) * (b - d) by {
      assert a - c == a / p * p && b - d == b / q * q;
      Regroup(a / p, b / q, p, q);
    }
    SignedProductLoss(a, c, b, d, p - 1, q - 1);
  }

  lemma SignedPreShiftLoss(a: int, b: int)
    ensures Abs(a * b - Product(a, b) * Pow2(MulShift(a, b))) <= SignedLoss(a, b)
  {
    Pow2Add(ShiftA(a, b), ShiftB(a, b));
    SignedShiftLoss(a, b, Pow2(ShiftA(a, b)), Pow2(ShiftB(a, b)));
  }

  // The product of the shifted operands, shifted back, is a 32.32 number.
  predicate ShiftsBack(a: int, b: int) {
    -TWO_63 * ONE <= Product(a, b) * Pow2(MulShift(a, b)) < TWO_63 * ONE
  }

  // For operands of any signs the result is off by less than what the shifts can change and one unit,
  // as long as neither the product nor the final shift overflows.
  lemma MulSignedApprox(a: S64, b: S64)
    requires !MulOverflows(a, b) && ShiftsBack(a, b)
    ensures Abs(Mul(a, b) * ONE - a * b) < SignedLoss(a, b) + ONE
  {
    var shift, prod := MulShift(a, b), Product(a, b);
    assert InS64(prod) && Mul(a, b) == Rescale(prod, shift) by {
      ProductFitsIff(a, b);
      WrapS64Id(prod);
    }
    SignedPreShiftLoss(a, b);
    RescaleBounds(prod, shift);
  }
}
