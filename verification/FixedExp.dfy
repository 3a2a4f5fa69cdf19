/** The power-series exponential drm_fixp_exp of include/drm/drm_fixed.h. */
module FixedExp {
  import opened Words
  import opened FixedPoint
  import opened FixedDivide

  // div64_s64(DRM_FIXED_ONE, 1000000)
  const TOLERANCE: int := ONE / 1000000

  // The registers when the loop ends, unless a sum or product leaves 64 bits.
  datatype ExpResult = Result(sum: int, term: int, count: nat) | Overflow

  // The final shift of drm_fixp_mul stays inside s64.
  predicate MulFits(a: int, b: int) {
    MulShift(a, b) > 32 ==> InS64(Product(a, b) * Pow2(MulShift(a, b) - 32))
  }

  lemma MulFitsNonNegative(a: S64, b: S64)
    requires a >= 0 && b >= 0 && MulFits(a, b)
    ensures Mul(a, b) >= 0
  {
    var shift, prod := MulShift(a, b), Product(a, b);
    ProductFits(a, b);
    WrapS64Id(prod);
    assert prod >= 0 by { ShiftLoss(a, b, Pow2(ShiftA(a, b)), Pow2(ShiftB(a, b))); }
    if shift > 32 {
      MulMonotone(prod, 0, Pow2(shift - 32));
      WrapS64Id(prod * Pow2(shift - 32));
    } else if shift < 32 {
      DivIsGreatest(prod, Pow2(32 - shift), 0);
    }
  }

  lemma SmallMulFits(a: S64, b: S64)
    requires a >= 0 && b >= 0 && a * b < TWO_63 * ONE
    ensures MulFits(a, b)
  {
    var shift, prod := MulShift(a, b), Product(a, b);
    if shift > 32 {
      ShiftLoss(a, b, Pow2(ShiftA(a, b)), Pow2(ShiftB(a, b)));
      Pow2Add(ShiftA(a, b), ShiftB(a, b));
      assert Pow2(shift) == Pow2(shift - 32) * ONE by { Pow2Add(shift - 32, 32); Pow2Values(); }
      MulAssoc(prod, Pow2(shift - 32), ONE);
      CancelMul(prod * Pow2(shift - 32), TWO_63, ONE);
      MulMonotone(prod, 0, Pow2(shift - 32));
    }
  }

  // The next term of the series, once count has reached 2 * y.
  lemma TermHalves(y: S64, term: S64, count: nat)
    requires 0 <= y && 0 <= term && count >= 1 && 2 * y <= count * ONE
    ensures y / (count + 1) < ONE && MulFits(term, y / (count + 1))
    ensures 0 <= 2 * Mul(term, y / (count + 1)) <= term
  {
    var d := y / (count + 1);
    DivBounds(y, count + 1);
    DivIsGreatest(y, count + 1, 0);
    assert 2 * d <= ONE by {
      assert (2 * d) * (count + 1) <= 2 * y <= count * ONE;
      CancelMul(ONE, 2 * d, count + 1);
      assert ONE * (count + 1) == count * ONE + ONE;
    }
    MulMonotone(term, 2 * d, ONE);
    assert term * (2 * d) == 2 * (term * d);
    assert term * d < TWO_63 * ONE by {
      assert InS64(term);
      CancelMul(term, TWO_63, ONE);
      MulMonotone(term, 0, d);
    }
    SmallMulFits(term, d);
    MulApprox(term, d);
    var r := Mul(term, d);
    assert (2 * r) * ONE <= term * ONE;
    CancelMul(term, 2 * r, ONE);
  }

  // The loop without overflow. It ends for every magnitude: count rises until it has passed 2 * y, and
  // from then on every term is at most half the one before.
  function Series(y: S64, sum: S64, term: S64, count: nat): (r: ExpResult)
    requires 0 <= y && 0 <= term && count >= 1
    ensures r.Result? ==> InS64(r.sum) && sum <= r.sum
    decreases if count * ONE < 2 * y then 2 * y - count * ONE else 0, term
  {
    if term < TOLERANCE then Result(sum, term, count)
    else if !InS64(sum + term) then Overflow
    else
      var d := y / (count + 1);
      SmallQuotient(y, count + 1);
      if !MulFits(term, d) then Overflow
      else
        MulFitsNonNegative(term, d);
        if 2 * y <= count * ONE then TermHalves(y, term, count); Series(y, sum + term, Mul(term, d), count + 1)
        else Series(y, sum + term, Mul(term, d), count + 1)
  }

  lemma SmallQuotient(y: S64, c: int)
    requires y >= 0 && c > 0
    ensures 0 <= y / c && InS64(y / c)
  {
    DivIsGreatest(y, c, 0);
    DivInS64(y, c);
  }

  // The reciprocal of a sum of at least 1.0 is well defined and lies in (0, 1.0].
  lemma Reciprocal(sum: S64)
    requires sum >= ONE
    ensures Div(ONE, sum) == Value(TWO_63 / 2 / (sum / 4))
    ensures ONE * ONE / sum <= TWO_63 / 2 / (sum / 4) <= ONE
    ensures TWO_63 / 2 / (sum / 4) * (sum - 3) <= ONE * ONE
  {
    Pow2Values();
    assert IsMsb(ONE, 32);
    MsbUnique(ONE, 32);
    assert Pow2(2) == 4 && Pow2(30) == TWO_31 / 2;
    DivApprox(ONE, sum);
    DivOfNonNegative(ONE, sum);
    assert sum / 4 >= ONE / 4;
    MulMonotone(ONE + 1, ONE / 4, sum / 4);
    DivIsGreatest(TWO_63 / 2, sum / 4, ONE + 1);
  }

  function Exp(x: S64): ExpResult {
    var y: int := if x < 0 then -1 * x else x;
    if !InS64(y) then Overflow
    else
      match Series(y, ONE, y, 1)
      case Overflow => Overflow
      case Result(sum, term, count) =>
        if x >= 0 then Result(sum, term, count)
        else Reciprocal(sum); Result(Div(ONE, sum).v, term, count)
  }

  // The loop as the machine runs it: sums and products are cut to 64 bits, and it ends all the same.
  function Turns(y: S64, sum: S64, term: S64, count: nat): (r: int)
    requires count >= 1 && (term >= TOLERANCE ==> 0 <= y)
    ensures InS64(r)
    decreases if count * ONE < 2 * y then 2 * y - count * ONE else 0, if term < 0 then 0 else term
  {
    if term < TOLERANCE then sum
    else
      SmallQuotient(y, count + 1);
      var next := Mul(term, y / (count + 1));
      if 2 * y <= count * ONE then TermHalves(y, term, count); Turns(y, WrapS64(sum + term), next, count + 1)
      else Turns(y, WrapS64(sum + term), next, count + 1)
  }

  // The value returned, for all arguments.
  function ExpValue(x: S64): Outcome {
    var y := if x < 0 then WrapS64(-1 * x) else x;
    var sum := Turns(y, ONE, y, 1);
    if x < 0 then Div(ONE, sum) else Value(sum)
  }

  method FixpExp(x: S64) returns (r: Outcome)
    ensures r == ExpValue(x)
  {
    var y: S64 := x;
    if x < 0 {
      y := WrapS64(-1 * x);
    }
    var sum: S64, term: S64, count: nat := ONE, y, 1;
    while term >= TOLERANCE
      invariant count >= 1 && (term >= TOLERANCE ==> 0 <= y)
      invariant Turns(y, sum, term, count) == Turns(y, ONE, y, 1)
      decreases if count * ONE < 2 * y then 2 * y - count * ONE else 0, if term < 0 then 0 else term
    {
      SmallQuotient(y, count + 1);
      if 2 * y <= count * ONE {
        TermHalves(y, term, count);
      }
      sum := WrapS64(sum + term);
      count := count + 1;
      term := FixpMul(term, y / count);
    }
    if x < 0 {
      r := FixpDiv(ONE, sum);
      return;
    }
    return Value(sum);
  }

  lemma {:induction false} SeriesAgrees(y: S64, sum: S64, term: S64, count: nat)
    requires 0 <= y && 0 <= term && count >= 1
    ensures var r := Series(y, sum, term, count); r.Result? ==> Turns(y, sum, term, count) == r.sum
    decreases if count * ONE < 2 * y then 2 * y - count * ONE else 0, term
  {
    if term >= TOLERANCE && Series(y, sum, term, count).Result? {
      WrapS64Id(sum + term);
      var d := y / (count + 1);
      SmallQuotient(y, count + 1);
      MulFitsNonNegative(term, d);
      if 2 * y <= count * ONE {
        TermHalves(y, term, count);
      }
      SeriesAgrees(y, sum + term, Mul(term, d), count + 1);
    }
  }

  // Without overflow the value returned is the sum, or its reciprocal, that the source means.
  lemma ExpAgrees(x: S64)
    ensures Exp(x).Result? ==> ExpValue(x) == Value(Exp(x).sum)
  {
    if Exp(x).Result? {
      var y: S64 := if x < 0 then -1 * x else x;
      WrapS64Id(y);
      SeriesAgrees(y, ONE, y, 1);
      if x < 0 {
        Reciprocal(Series(y, ONE, y, 1).sum);
      }
    }
  }

  /* ---------- what the loop adds up ---------- */

  // The k-th term the machine computes, and the sum of 1.0 and the terms before it, as an integer.
  function NthTerm(y: int, k: nat): int {
    if k <= 1 then y else Mul(NthTerm(y, k - 1), y / k)
  }

  function SumBelow(y: int, k: nat): int {
    if k <= 1 then ONE else SumBelow(y, k - 1) + NthTerm(y, k - 1)
  }

  // The c-th term is the first below a millionth, which is 4294 units of 2^-32.
  ghost predicate StopsAt(y: int, c: nat) {
    c >= 1 && NthTerm(y, c) < 4294 && forall j :: 1 <= j < c ==> NthTerm(y, j) >= 4294
  }

  lemma WrapSum(x: int, y: int)
    ensures WrapS64(WrapS64(x) + y) == WrapS64(x + y)
  {
    var q := (x + TWO_63) / TWO_64;
    assert WrapS64(x) == x - q * TWO_64;
    var z := WrapS64(x) + y + TWO_63;
    ModUnique(x + y + TWO_63, q + z / TWO_64, z % TWO_64, TWO_64);
  }

  // The registers when all terms before the count-th have been added.
  ghost predicate AddedUp(y: int, sum: int, term: int, count: nat) {
    && count >= 1 && term == NthTerm(y, count) && sum == WrapS64(SumBelow(y, count))
    && forall j :: 1 <= j < count ==> NthTerm(y, j) >= 4294
  }

  lemma AddsNext(y: int, sum: int, term: int, count: nat)
    requires AddedUp(y, sum, term, count) && term >= 4294
    ensures AddedUp(y, WrapS64(sum + term), Mul(term, y / (count + 1)), count + 1)
  {
    WrapSum(SumBelow(y, count), term);
  }

  // How far count is from 2 * y.
  function Ahead(y: int, count: nat): nat {
    if count * ONE < 2 * y then 2 * y - count * ONE else 0
  }

  lemma TurnsNext(y: S64, sum: S64, term: S64, count: nat)
    requires count >= 1 && 0 <= y && term >= TOLERANCE
    ensures var next := Mul(term, y / (count + 1));
      && Turns(y, sum, term, count) == Turns(y, WrapS64(sum + term), next, count + 1)
      && (Ahead(y, count + 1) < Ahead(y, count) || (Ahead(y, count + 1) == Ahead(y, count) && next < term))
  {
    SmallQuotient(y, count + 1);
    if 2 * y <= count * ONE {
      TermHalves(y, term, count);
    }
  }

  lemma {:induction false} TurnsIsSum(y: S64, sum: S64, term: S64, count: nat) returns (c: nat)
    requires AddedUp(y, sum, term, count) && (term >= TOLERANCE ==> 0 <= y)
    ensures StopsAt(y, c) && Turns(y, sum, term, count) == WrapS64(SumBelow(y, c))
    decreases Ahead(y, count), if term < 0 then 0 else term
  {
    if term < TOLERANCE {
      c := count;
    } else {
      var sum', term' := WrapS64(sum + term), Mul(term, y / (count + 1));
      TurnsNext(y, sum, term, count);
      AddsNext(y, sum, term, count);
      c := TurnsIsSum(y, sum', term', count + 1);
    }
  }

  // For every argument the value is the sum, cut to 64 bits, of 1.0 and the terms before the first
  // that is below a millionth; or 1.0 divided by that, for negative arguments.
  lemma ExpIsSum(x: S64) returns (c: nat)
    ensures var y := if x < 0 then WrapS64(-1 * x) else x;
      && StopsAt(y, c)
      && ExpValue(x) == if x < 0 then Div(ONE, WrapS64(SumBelow(y, c))) else Value(WrapS64(SumBelow(y, c)))
  {
    var y: S64 := if x < 0 then WrapS64(-1 * x) else x;
    WrapS64Id(ONE);
    c := TurnsIsSum(y, ONE, y, 1);
  }

  lemma TinyProduct()
    ensures Mul(4294, 2147) == 0
  {
    assert 4294 * 2147 < ONE && 4294 * 2147 < TWO_63 * ONE;
    MulApprox(4294, 2147);
  }

  lemma TurnOnce()
    ensures Turns(4294, ONE, 4294, 1) == ONE + 4294
  {
    TurnsNext(4294, ONE, 4294, 1);
    assert 4294 / 2 == 2147;
    TinyProduct();
    WrapS64Id(ONE + 4294);
  }

  // The smallest argument that makes a difference.
  lemma ExpAroundMillionth()
    ensures ExpValue(4293) == Value(ONE) && ExpValue(4294) == Value(ONE + 4294)
  {
    TurnOnce();
    assert Turns(4293, ONE, 4293, 1) == ONE;
  }

  /* ---------- arguments of magnitude at most 1.0 ---------- */

  function Factorial(n: nat): (r: int)
    ensures r > 0
  {
    if n == 0 then 1 else n * Factorial(n - 1)
  }

  lemma FactorialTen()
    ensures Factorial(10) == 3628800
  {
    assert Factorial(5) == 120;
    assert Factorial(8) == 8 * (7 * (6 * Factorial(5)));
  }

  // Each step divides the term by the new count at least, and costs it less than four units.
  lemma SmallStep(y: S64, term: S64, count: nat)
    requires 0 <= y <= ONE && 0 <= term <= ONE && count >= 1
    ensures var d, c := y / (count + 1), count + 1;
      && 0 <= d <= ONE / 2 && MulFits(term, d)
      && 0 <= Mul(term, d) && Mul(term, d) * c <= term
      && term * d - Mul(term, d) * ONE < 3 * ONE
  {
    var d, c := y / (count + 1), count + 1;
    DivBounds(y, c);
    DivIsGreatest(y, c, 0);
    DivIsGreatest(y, c, ONE / 2 + 1);
    MulMonotone(ONE / 2 + 1, 2, c);
    assert 0 <= d <= ONE / 2;
    assert term * d <= term * ONE <= ONE * ONE by { MulMonotone(term, d, ONE); }
    SmallMulFits(term, d);
    MulApprox(term, d);
    SmallShifts(term, d);
    var r := Mul(term, d);
    DividedTerm(r, c, term, d, ONE);
  }

  lemma DividedTerm(r: int, c: nat, term: nat, d: int, one: int)
    requires one > 0 && r * one <= term * d && d * c <= one
    ensures r * c <= term
  {
    MulMonotone(c, r * one, term * d);
    MulMonotone(term, d * c, one);
    assert (r * c) * one == c * (r * one);
    assert c * (term * d) == term * (d * c);
    CancelMul(term, r * c, one);
  }

  // The pre-shifts are at most one bit each, so they drop less than 2.0 of the product.
  lemma SmallShifts(term: S64, d: S64)
    requires 0 <= term <= ONE && 0 <= d <= ONE / 2
    ensures d * (Pow2(ShiftA(term, d)) - 1) + term * (Pow2(ShiftB(term, d)) - 1) <= 2 * ONE
  {
    assert Msb(term) <= 32 && Msb(d) <= 31 by {
      Pow2Values();
      assert Pow2(33) == 2 * ONE;
      MsbMonotone(term, 32);
      MsbMonotone(d, 31);
    }
    var p, q := Pow2(ShiftA(term, d)), Pow2(ShiftB(term, d));
    assert (p == 1 || p == 2) && (q == 1 || q == 2) by { assert Pow2(0) == 1 && Pow2(1) == 2; }
    assert d * (p - 1) <= d && term * (q - 1) <= term;
  }

  lemma TermTooSmall(term: int, count: nat)
    requires term >= TOLERANCE && term * Factorial(count) <= ONE && count <= 10
    ensures count < 10
  {
    FactorialTen();
    MulMonotone(Factorial(count), TOLERANCE, term);
  }

  lemma NextFactorial(next: int, term: int, count: nat)
    requires next * (count + 1) <= term
    ensures next * Factorial(count + 1) <= term * Factorial(count)
  {
    var f := Factorial(count);
    MulAssoc(next, count + 1, f);
    MulMonotone(f, next * (count + 1), term);
  }

  // Ten terms are enough, nothing overflows, and the sum stays below 3.0.
  lemma {:induction false} SeriesRange(y: S64, sum: S64, term: S64, count: nat)
    requires 0 <= y <= ONE && 0 <= term <= ONE && 1 <= count <= 10
    requires term * Factorial(count) <= ONE
    requires ONE <= sum && sum + 2 * term <= 3 * ONE
    ensures var r := Series(y, sum, term, count); r.Result? && sum <= r.sum <= 3 * ONE && r.count <= 10
    decreases 10 - count
  {
    if term >= TOLERANCE {
      SmallStep(y, term, count);
      var d := y / (count + 1);
      var next := Mul(term, d);
      TermTooSmall(term, count);
      NextFactorial(next, term, count);
      MulMonotone(next, 2, count + 1);
      SeriesRange(y, sum + term, next, count + 1);
    }
  }

  // For |x| <= 1.0 the loop runs at most nine times without overflow; the result is between 1 and 3
  // for x >= 0 and between 1/3 and 1 for x < 0.
  lemma ExpRange(x: S64)
    requires -ONE <= x <= ONE
    ensures Exp(x).Result? && Exp(x).count <= 10
    ensures if x >= 0 then ONE <= Exp(x).sum <= 3 * ONE else ONE / 3 <= Exp(x).sum <= ONE
    ensures ExpValue(x) == Value(Exp(x).sum)
  {
    var y: int := if x < 0 then -1 * x else x;
    assert Factorial(1) == 1;
    SeriesRange(y, ONE, y, 1);
    var sum := Series(y, ONE, y, 1).sum;
    Reciprocal(sum);
    MulMonotone(ONE / 3, sum, 3 * ONE);
    DivIsGreatest(ONE * ONE, sum, ONE / 3);
    ExpAgrees(x);
  }

  /* ---------- arguments of magnitude at most 21.0 ---------- */

  const WIDE: int := 21 * ONE

  // An upper bound on the rest of the series from the k-th term on, in units of that term: it is
  // one more than that of the next term times 21.0 / (k + 1).
  const ROOMS: seq<nat> := [
    95440497, 9089571, 1298510, 247335, 58889, 16825, 5608, 2136, 915, 435, 227, 129, 79, 52, 36, 26, 20, 16, 13,
    11, 10, 9, 8, 7, 6, 5, 4, 4, 4, 4, 3, 3, 3, 3, 3, 3, 3, 3, 3, 3, 2]

  function Room(k: nat): nat
    requires k >= 1
  {
    if k < 42 then ROOMS[k - 1] else 2
  }

  lemma RoomNext(k: nat)
    requires k >= 1
    ensures Room(k + 1) >= 1 && 21 * Room(k + 1) <= (Room(k) - 1) * (k + 1)
  {
  }

  // The product of the next step is bounded by the room.
  lemma ProductRoom(term: nat, d: nat, c: int, x: nat, x': nat)
    requires c > 0 && d * c <= WIDE && 21 * x' <= x * c && x' >= 1
    ensures term * d <= term * x * ONE
  {
    assert d * c <= x * ONE * c;
    CancelMul(x * ONE, d, c);
    MulMonotone(term, d, x * ONE);
  }

  // So is what follows.
  lemma RestRoom(term: nat, next: nat, d: nat, c: int, x: nat, x': nat)
    requires c > 0 && d * c <= WIDE && 21 * x' <= x * c && next * ONE <= term * d
    ensures next * x' <= term * x
  {
    assert next * c <= 21 * term by {
      MulMonotone(c, next * ONE, term * d);
      MulMonotone(term, d * c, WIDE);
      assert c * (term * d) == term * (d * c);
    }
    assert next * x' * c <= term * x * c by {
      MulMonotone(x', next * c, 21 * term);
      MulMonotone(term, 21 * x', x * c);
    }
    CancelMul(term * x, next * x', c);
  }

  lemma NextTerm(term: S64, d: S64)
    requires 0 <= term && 0 <= d && term * d < TWO_63 * ONE
    ensures MulFits(term, d) && 0 <= Mul(term, d) && Mul(term, d) * ONE <= term * d
  {
    SmallMulFits(term, d);
    MulApprox(term, d);
  }

  lemma StepRoomOf(sum: nat, term: S64, d: S64, c: int, x: nat, x': nat)
    requires 0 <= term && 0 <= d && c > 0 && d * c <= WIDE && 21 * x' <= x * c && x' >= 1
    requires sum + term + term * x < TWO_63
    ensures MulFits(term, d) && 0 <= Mul(term, d) && InS64(sum + term) && sum + term + Mul(term, d) * x' < TWO_63
  {
    assert 0 <= term * x by { MulMonotone(term, 0, x); }
    assert term * d < TWO_63 * ONE by { ProductRoom(term, d, c, x, x'); }
    NextTerm(term, d);
    RestRoom(term, Mul(term, d), d, c, x, x');
  }

  lemma StepRoom(y: S64, sum: S64, term: S64, count: nat)
    requires 0 <= y <= WIDE && 0 <= term && 0 <= sum && count >= 1
    requires sum + term * Room(count) < TWO_63
    ensures var d := y / (count + 1);
      && 0 <= d && InS64(d) && MulFits(term, d) && 0 <= Mul(term, d)
      && InS64(sum + term) && sum + term + Mul(term, d) * Room(count + 1) < TWO_63
  {
    SmallQuotient(y, count + 1);
    DivBounds(y, count + 1);
    RoomNext(count);
    assert term * Room(count) == term * (Room(count) - 1) + term;
    StepRoomOf(sum, term, y / (count + 1), count + 1, Room(count) - 1, Room(count + 1));
  }

  // While there is room nothing overflows.
  lemma {:induction false} SeriesRoom(y: S64, sum: S64, term: S64, count: nat)
    requires 0 <= y <= WIDE && 0 <= term && 0 <= sum && count >= 1
    requires sum + term * Room(count) < TWO_63
    ensures Series(y, sum, term, count).Result?
    decreases if count * ONE < 2 * y then 2 * y - count * ONE else 0, term
  {
    if term >= TOLERANCE {
      StepRoom(y, sum, term, count);
      if 2 * y <= count * ONE {
        TermHalves(y, term, count);
      }
      SeriesRoom(y, sum + term, Mul(term, y / (count + 1)), count + 1);
    }
  }

  // No argument of magnitude up to 21.0 overflows.
  lemma ExpWideRange(x: S64)
    requires -WIDE <= x <= WIDE
    ensures Exp(x).Result? && ExpValue(x) == Value(Exp(x).sum)
  {
    var y: S64 := if x < 0 then -1 * x else x;
    assert Room(1) == 95440497;
    SeriesRoom(y, ONE, y, 1);
    ExpAgrees(x);
  }

  /* ---------- arguments of magnitude at least 22.0 ---------- */

  const FAR: int := 22 * ONE

  // Without overflow of the final shift the product shifted back is a 32.32 number.
  lemma FitsShiftsBack(a: S64, b: S64)
    requires a >= 0 && b >= 0 && MulFits(a, b)
    ensures !MulOverflows(a, b) && ShiftsBack(a, b)
  {
    var shift, prod := MulShift(a, b), Product(a, b);
    ProductFits(a, b);
    ProductFitsIff(a, b);
    assert prod >= 0 by { ShiftLoss(a, b, Pow2(ShiftA(a, b)), Pow2(ShiftB(a, b))); }
    assert Pow2(32) == ONE by { Pow2Values(); }
    MulMonotone(prod, 0, Pow2(shift));
    if shift > 32 {
      Pow2Add(shift - 32, 32);
      MulAssoc(prod, Pow2(shift - 32), ONE);
    } else {
      Pow2Monotone(shift, 32);
      MulMonotone(prod, Pow2(shift), ONE);
    }
  }

  lemma LargeMsb(a: S64)
    requires a >= TWO_31
    ensures 31 <= Msb(a) <= 62 && Pow2(Msb(a)) <= a
  {
    MsbOfS64(a);
    MsbIsMsb(a);
    Pow2Values();
    if Msb(a) < 31 {
      Pow2Monotone(Msb(a) + 1, 31);
    }
  }

  // A shift of at most m - 14 bits is small against a number of m bits.
  lemma SmallShift(x: int, m: nat, shift: nat)
    requires Pow2(m) <= x && 14 + shift <= m
    ensures 0x4000 * Pow2(shift) <= x
  {
    assert Pow2(14) == 0x4000;
    Pow2Add(14, shift);
    Pow2Monotone(14 + shift, m);
  }

  // The pre-shifts are small against operands of some size.
  lemma SmallAgainst(a: S64, b: S64)
    requires a >= TWO_31 && b >= TWO_31
    ensures 0x4000 * Pow2(ShiftA(a, b)) <= a && 0x4000 * Pow2(ShiftB(a, b)) <= b
  {
    LargeMsb(a);
    LargeMsb(b);
    SmallShift(a, Msb(a), ShiftA(a, b));
    SmallShift(b, Msb(b), ShiftB(a, b));
  }

  lemma RelativeLoss(a: int, b: int, p: int, q: int)
    requires p > 0 && q > 0 && 0x4000 * p <= a && 0x4000 * q <= b
    ensures 0x1000 * (b * (p - 1) + a * (q - 1) + (p - 1) * (q - 1)) <= a * b
  {
    assert 0x4000 * (b * (p - 1)) <= a * b by { MulMonotone(b, 0x4000 * (p - 1), a); }
    assert 0x4000 * (a * (q - 1)) <= a * b by { MulMonotone(a, 0x4000 * (q - 1), b); }
    assert (p - 1) * (q - 1) <= a * (q - 1) by { MulMonotone(q - 1, p - 1, a); }
  }

  // A product of such operands loses at most one part in 4096, and a unit.
  lemma MulLower(a: S64, b: S64)
    requires a >= TWO_31 && b >= TWO_31 && MulFits(a, b)
    ensures 0x1000 * (Mul(a, b) * ONE + ONE) >= 0xfff * (a * b)
  {
    FitsShiftsBack(a, b);
    MulSignedApprox(a, b);
    assert 0x1000 * SignedLoss(a, b) <= a * b by {
      SmallAgainst(a, b);
      RelativeLoss(a, b, Pow2(ShiftA(a, b)), Pow2(ShiftB(a, b)));
    }
    LowerFrom(Mul(a, b) * ONE, a * b, SignedLoss(a, b), ONE);
  }

  lemma LowerFrom(x: int, exact: int, loss: int, one: int)
    requires Abs(x - exact) < loss + one && 0x1000 * loss <= exact
    ensures 0x1000 * (x + one) >= 0xfff * exact
  {
  }

  // For an argument of at least 22.0 the k-th term is at least LOW_TERMS[k - 1] times 1.0, and the sum
  // of those before at least LOW_SUMS[k - 1] times; with the 23rd term the sum leaves 64 bits.
  const LOW_TERMS: seq<nat> := [
    22, 241, 1766, 9708, 42694, 156468, 491516, 1351009, 3300853, 7258330, 14509571, 26587891, 44972922, 70637226,
    103550678, 142312659, 184079396, 224876072, 260255680, 286141462, 299620875, 299474575, 286314071]

  const LOW_SUMS: seq<nat> := [
    1, 23, 264, 2030, 11738, 54432, 210900, 702416, 2053425, 5354278, 12612608, 27122179, 53710070, 98682992,
    169320218, 272870896, 415183555, 599262951, 824139023, 1084394703, 1370536165, 1670157040, 1969631615]

  lemma LowNext(k: nat)
    requires 1 <= k <= 22
    ensures LOW_TERMS[k - 1] >= 1 && LOW_SUMS[k] == LOW_SUMS[k - 1] + LOW_TERMS[k - 1]
    ensures 4096 * ((k + 1) * LOW_TERMS[k]) <= 4094 * 22 * LOW_TERMS[k - 1]
  {
  }

  // c * d is y up to less than c.
  lemma ScaledGrowth(term: int, t: nat, d: int, c: nat, z: nat, one: nat)
    requires term >= t * one && c * d >= z
    ensures (t * z) * one <= (term * d) * c
  {
    MulMonotone(z, t * one, term);
    MulMonotone(term, z, c * d);
    assert z * (t * one) == (t * z) * one;
    assert term * (c * d) == (term * d) * c;
  }

  lemma CancelGrowth(u: int, td: int, tz: int, c: nat, one: int)
    requires one > 0 && 0x1000 * (u * one) >= 0xfff * td && tz * one <= td * c
    ensures 0x1000 * (u * c) >= 0xfff * tz
  {
    MulMonotone(c, 0xfff * td, 0x1000 * (u * one));
    assert (0x1000 * (u * c)) * one == c * (0x1000 * (u * one));
    CancelMul(0x1000 * (u * c), 0xfff * tz, one);
  }

  lemma GrowthAtLeast(r: int, t: nat, c: nat, n: nat, one: int)
    requires one > 0xffff && t >= 1 && 4096 * (c * n) <= 4094 * 22 * t
    requires 0x1000 * ((r + 1) * c) >= 0xfff * (t * (22 * one - 31))
    ensures r >= n * one
  {
    var to, cno := t * one, c * n * one;
    assert t * (22 * one - 31) == 22 * to - 31 * t;
    assert to >= 0x1_0000 * t by { MulMonotone(t, 0x1_0000, one); }
    assert 4096 * cno <= 4094 * 22 * to by { MulMonotone(one, 4096 * (c * n), 4094 * 22 * t); }
    if r < n * one {
      assert (r + 1) * c <= cno by { MulMonotone(c, r + 1, n * one); }
    }
  }

  lemma TermGrows(y: S64, term: S64, count: nat, t: nat, n: nat)
    requires y >= FAR && 1 <= count <= 22 && t >= 1 && term >= t * ONE && MulFits(term, y / (count + 1))
    requires 4096 * ((count + 1) * n) <= 4094 * 22 * t
    ensures InS64(y / (count + 1)) && Mul(term, y / (count + 1)) >= n * ONE
  {
    var c, d := count + 1, y / (count + 1);
    SmallQuotient(y, c);
    DivBounds(y, c);
    MulMonotone(TWO_31, c, 23);
    DivIsGreatest(y, c, TWO_31);
    MulMonotone(ONE, 1, t);
    MulLower(term, d);
    var r := Mul(term, d);
    assert r * ONE + ONE == (r + 1) * ONE;
    ScaledGrowth(term, t, d, c, 22 * ONE - 31, ONE);
    CancelGrowth(r + 1, term * d, t * (22 * ONE - 31), c, ONE);
    GrowthAtLeast(r, t, c, n, ONE);
  }

  lemma {:induction false} SeriesOverflows(y: S64, sum: S64, term: S64, count: nat)
    requires y >= FAR && 1 <= count <= 23
    requires term >= LOW_TERMS[count - 1] * ONE && sum >= LOW_SUMS[count - 1] * ONE
    ensures Series(y, sum, term, count) == Overflow
    decreases 23 - count
  {
    if count < 23 {
      LowNext(count);
      if InS64(sum + term) && MulFits(term, y / (count + 1)) {
        TermGrows(y, term, count, LOW_TERMS[count - 1], LOW_TERMS[count]);
        SeriesOverflows(y, sum + term, Mul(term, y / (count + 1)), count + 1);
      }
    }
  }

  // All arguments of magnitude 22.0 or more overflow.
  lemma LargeExpOverflows(x: S64)
    requires x <= -FAR || FAR <= x
    ensures Exp(x) == Overflow
  {
    if x > -TWO_63 {
      var y: S64 := if x < 0 then -1 * x else x;
      SeriesOverflows(y, ONE, y, 1);
    }
  }

  // The most negative argument has no magnitude, and comes out as 1.0.
  lemma MostNegativeExp()
    ensures Exp(-TWO_63) == Overflow && ExpValue(-TWO_63) == Value(ONE)
  {
    ModUnique(-1 * -TWO_63 + TWO_63, 1, 0, TWO_64);
    Reciprocal(ONE);
  }

  /* ---------- the exponential series itself ---------- */

  function Power(y: int, k: nat): int {
    if k == 0 then 1 else Power(y, k - 1) * y
  }

  // ONE^k * k!
  function Denominator(k: nat): (d: int)
    ensures d > 0
  {
    if k == 0 then 1 else Denominator(k - 1) * (ONE * k)
  }

  // With t = y / ONE, the k-th term t^k / k! of the exponential series, in units of 2^-32.
  function ExactTerm(y: int, k: nat): real {
    (Power(y, k) * ONE) as real / Denominator(k) as real
  }

  // The partial sum of the exponential series up to t^n / n!, in units of 2^-32.
  function Taylor(y: int, n: nat): real {
    if n == 0 then ONE as real else Taylor(y, n - 1) + ExactTerm(y, n)
  }

  lemma {:induction false} PowerNonNegative(y: nat, k: nat)
    ensures Power(y, k) >= 0
  {
    if k > 0 {
      PowerNonNegative(y, k - 1);
    }
  }

  // Comparing a fraction with integers, and two fractions with each other.
  lemma FractionBounds(n: int, d: int, x: int, z: int)
    requires d > 0 && x * d <= n <= z * d
    ensures x as real <= n as real / d as real <= z as real
  {
    var q := n as real / d as real;
    assert q * d as real == n as real;
    RealCancel(x as real, q, d as real);
    RealCancel(q, z as real, d as real);
  }

  lemma RealCancel(x: real, y: real, d: real)
    requires d > 0.0 && x * d <= y * d
    ensures x <= y
  {
    assert x > y ==> (x - y) * d > 0.0;
    assert (x - y) * d == x * d - y * d;
  }

  lemma HalfFraction(n: int, d: int, m: int, w: int)
    requires d > 0 && w > 0 && 2 * m <= n * w
    ensures 2.0 * (m as real / (d * w) as real) <= n as real / d as real
  {
    var q, r := n as real / d as real, m as real / (d * w) as real;
    assert q * d as real == n as real && r * (d * w) as real == m as real;
    assert (r * d as real) * w as real == m as real;
    RealCancel(2.0 * (r * d as real), n as real, w as real);
    RealCancel(2.0 * r, q, d as real);
  }

  lemma TermNonNegative(y: nat, k: nat)
    ensures 0.0 <= ExactTerm(y, k)
  {
    PowerNonNegative(y, k);
    FractionNonNegative(Power(y, k) * ONE, Denominator(k));
  }

  lemma FractionNonNegative(n: nat, d: int)
    requires d > 0
    ensures 0.0 <= n as real / d as real
  {
    RealCancel(0.0, n as real / d as real, d as real);
  }

  // From the second term on, each is at most half the one before.
  lemma ExactTermHalves(y: nat, k: nat)
    requires y <= ONE && k >= 1
    ensures 2.0 * ExactTerm(y, k + 1) <= ExactTerm(y, k)
  {
    var n, w := Power(y, k) * ONE, ONE * (k + 1);
    PowerNonNegative(y, k);
    NextNumerator(y, k);
    assert 2 * (n * y) <= n * w by {
      MulMonotone(n, 2 * y, w);
      assert n * (2 * y) == 2 * (n * y);
    }
    HalfFraction(n, Denominator(k), n * y, w);
  }

  lemma NextNumerator(y: int, k: nat)
    ensures Power(y, k + 1) * ONE == (Power(y, k) * ONE) * y
    ensures Denominator(k + 1) == Denominator(k) * (ONE * (k + 1))
  {
  }

  // The tail of the series is at most twice its first term.
  lemma {:induction false} TailBound(y: int, n: nat, m: nat)
    requires 0 <= y <= ONE && n <= m
    ensures 0.0 <= Taylor(y, m) - Taylor(y, n)
    ensures Taylor(y, m) - Taylor(y, n) + 2.0 * ExactTerm(y, m + 1) <= 2.0 * ExactTerm(y, n + 1)
    decreases m
  {
    if n < m {
      TailBound(y, n, m - 1);
      ExactTermHalves(y, m);
      TermNonNegative(y, m);
    }
  }

  // The step from one computed term to the next, against the exact step.
  lemma StepSandwich(y: S64, term: S64, count: nat)
    requires 0 <= y <= ONE && 0 <= term <= ONE && count >= 1
    ensures var w, r := ONE * (count + 1), Mul(term, y / (count + 1));
      r * w <= term * y <= r * w + 4 * w
  {
    var c, d := count + 1, y / (count + 1);
    var r := Mul(term, d);
    SmallStep(y, term, count);
    SmallQuotient(y, c);
    assert term * d < TWO_63 * ONE by { MulMonotone(term, d, ONE); }
    MulApprox(term, d);
    DivBounds(y, c);
    SandwichFrom(y, term, c, d, r, ONE);
  }

  lemma SandwichFrom(y: nat, term: nat, c: nat, d: nat, r: nat, one: int)
    requires c > 0 && 0 <= term <= one
    requires d * c <= y < d * c + c
    requires r * one <= term * d && term * d - r * one < 3 * one
    ensures r * (one * c) <= term * y <= r * (one * c) + 4 * (one * c)
  {
    assert r * (one * c) == (r * one) * c by { MulAssoc(r, one, c); }
    ScaledTerm(term * d, r * one, c, one);
    TermOfQuotient(y, term, c, d, one);
  }

  lemma ScaledTerm(td: int, x: int, c: nat, one: int)
    requires x <= td < x + 3 * one
    ensures x * c <= td * c <= x * c + 3 * (one * c)
  {
    MulMonotone(c, x, td);
    MulMonotone(c, td, x + 3 * one);
    assert c * (x + 3 * one) == x * c + 3 * (one * c);
  }

  lemma TermOfQuotient(y: nat, term: nat, c: nat, d: nat, one: int)
    requires term <= one && d * c <= y < d * c + c
    ensures (term * d) * c <= term * y <= (term * d) * c + one * c
  {
    MulAssoc(term, d, c);
    MulMonotone(term, d * c, y);
    MulMonotone(term, y, d * c + c);
    MulMonotone(c, term, one);
    assert term * (d * c + c) == term * (d * c) + term * c;
  }

  // The computed term is below the exact one, by at most eight units.
  predicate TermTracks(y: int, term: int, k: nat) {
    term * Denominator(k) <= Power(y, k) * ONE <= (term + 8) * Denominator(k)
  }

  lemma TermTracksNext(y: nat, term: nat, r: int, k: nat)
    requires y <= ONE && k >= 1 && TermTracks(y, term, k)
    requires var w := ONE * (k + 1); r * w <= term * y <= r * w + 4 * w
    ensures TermTracks(y, r, k + 1)
  {
    var n, d, w := Power(y, k) * ONE, Denominator(k), ONE * (k + 1);
    NextNumerator(y, k);
    TracksBelow(n, d, w, y, term, r);
    TracksAbove(n, d, w, y, term, r);
  }

  lemma TracksBelow(n: int, d: nat, w: int, y: nat, term: int, r: int)
    requires term * d <= n && r * w <= term * y
    ensures r * (d * w) <= n * y
  {
    MulMonotone(y, term * d, n);
    MulMonotone(d, r * w, term * y);
    assert d * (r * w) == r * (d * w);
    assert y * (term * d) == d * (term * y);
  }

  lemma TracksAbove(n: int, d: nat, w: int, y: nat, term: int, r: int)
    requires n <= (term + 8) * d && term * y <= r * w + 4 * w && 2 * y <= w
    ensures n * y <= (r + 8) * (d * w)
  {
    var u, v := term + 8, r + 8;
    assert u * y <= v * w;
    MulMonotone(y, n, u * d);
    MulMonotone(d, u * y, v * w);
    assert d * (v * w) == v * (d * w);
    assert y * (u * d) == d * (u * y);
  }

  // The computed sum and term follow the exact ones from below.
  predicate Tracks(y: int, sum: int, term: int, k: nat)
    requires k >= 1
  {
    && TermTracks(y, term, k)
    && Taylor(y, k - 1) - (8 * (k - 1)) as real <= sum as real <= Taylor(y, k - 1)
  }

  lemma TracksStep(y: nat, sum: int, term: nat, r: int, k: nat)
    requires y <= ONE && k >= 1 && Tracks(y, sum, term, k)
    requires var w := ONE * (k + 1); r * w <= term * y <= r * w + 4 * w
    ensures Tracks(y, sum + term, r, k + 1)
  {
    TermTracksNext(y, term, r, k);
    FractionBounds(Power(y, k) * ONE, Denominator(k), term, term + 8);
  }

  lemma {:induction false} SeriesTracks(y: S64, sum: S64, term: S64, count: nat)
    requires 0 <= y <= ONE && 0 <= term <= ONE && 1 <= count <= 10
    requires term * Factorial(count) <= ONE
    requires ONE <= sum && sum + 2 * term <= 3 * ONE
    requires Tracks(y, sum, term, count)
    ensures var r := Series(y, sum, term, count);
      r.Result? && 1 <= r.count <= 10 && r.term < TOLERANCE && Tracks(y, r.sum, r.term, r.count)
    decreases 10 - count
  {
    if term >= TOLERANCE {
      SmallStep(y, term, count);
      var next := Mul(term, y / (count + 1));
      TermTooSmall(term, count);
      NextFactorial(next, term, count);
      MulMonotone(next, 2, count + 1);
      StepSandwich(y, term, count);
      TracksStep(y, sum, term, next, count);
      SeriesTracks(y, sum + term, next, count + 1);
    }
  }

  // Where the loop ends.
  lemma LoopEnds(x: S64)
    requires 0 <= x <= ONE
    ensures var r := Series(x, ONE, x, 1);
      && r.Result? && 1 <= r.count <= 10 && r.term < TOLERANCE && Tracks(x, r.sum, r.term, r.count)
      && ExactTerm(x, r.count) <= (r.term + 8) as real
  {
    assert Factorial(1) == 1 && Power(x, 1) == x && Denominator(1) == ONE;
    SeriesTracks(x, ONE, x, 1);
    var r := Series(x, ONE, x, 1);
    FractionBounds(Power(x, r.count) * ONE, Denominator(r.count), r.term, r.term + 8);
  }

  // For 0 <= x <= 1.0 the result is below every longer partial sum of the exponential series, by less
  // than 8700 units of 2^-32, which is 2.03 millionths.
  lemma ExpAccuracy(x: S64, m: nat)
    requires 0 <= x <= ONE && m >= 10
    ensures Exp(x).Result? && ExpValue(x) == Value(Exp(x).sum)
    ensures Taylor(x, m) - 8700.0 < ExpValue(x).v as real <= Taylor(x, m)
  {
    LoopEnds(x);
    ExpAgrees(x);
    var c := Series(x, ONE, x, 1).count;
    assert 0.0 <= Taylor(x, m) - Taylor(x, c - 1) <= 2.0 * ExactTerm(x, c) by {
      TailBound(x, c - 1, m);
      TermNonNegative(x, m + 1);
    }
  }

  lemma RealMonotone(k: real, x: real, y: real)
    requires k >= 0.0 && x <= y
    ensures k * x <= k * y
  {
  }

  lemma RealSplit(k: real, x: real, y: real)
    ensures k * (x + y) == k * x + k * y
  {
  }

  // The reciprocal r of a sum that is at most w below the exact t.
  lemma ReciprocalBelow(r: real, sum: real, t: real, square: real)
    requires 0.0 <= r && sum <= t && square < (r + 1.0) * sum
    ensures square - t < r * t
  {
    assert (r + 1.0) * sum <= t * r + t * 1.0 by {
      RealMonotone(r + 1.0, sum, t);
      RealSplit(t, r, 1.0);
    }
  }

  lemma ReciprocalAbove(r: real, rest: real, t: real, w: real, square: real)
    requires 0.0 <= r <= t <= rest + w && 0.0 < w && r * rest <= square
    ensures r * t <= square + w * t
  {
    assert r * t <= r * rest + r * w by {
      RealMonotone(r, t, rest + w);
      RealSplit(r, rest, w);
    }
    assert w * r <= w * t by { RealMonotone(w, r, t); }
  }

  lemma ReciprocalBounds(sum: S64)
    requires sum >= ONE
    ensures Div(ONE, sum).Value?
    ensures var r := Div(ONE, sum).v;
      0 <= r <= ONE && ONE * ONE < (r + 1) * sum && r * (sum - 3) <= ONE * ONE
  {
    Reciprocal(sum);
    var r := Div(ONE, sum).v;
    DivIsGreatest(ONE * ONE, sum, r + 1);
    DivIsGreatest(ONE * ONE, sum, 0);
  }

  // r times t is 1.0 squared, up to one unit below and 8703 units above, each times t: so r is within
  // that of the reciprocal of t.
  ghost predicate NearReciprocal(r: int, t: real) {
    (ONE * ONE) as real - t < r as real * t <= (ONE * ONE) as real + 8703.0 * t
  }

  lemma AroundReciprocal(r: int, sum: int, t: real)
    requires 0 <= r <= ONE <= sum && sum as real <= t < (sum + 8700) as real
    requires ONE * ONE < (r + 1) * sum && r * (sum - 3) <= ONE * ONE
    ensures NearReciprocal(r, t)
  {
    assert ((r + 1) * sum) as real == (r as real + 1.0) * sum as real;
    ReciprocalBelow(r as real, sum as real, t, (ONE * ONE) as real);
    assert (r * (sum - 3)) as real == r as real * (sum - 3) as real;
    ReciprocalAbove(r as real, (sum - 3) as real, t, 8703.0, (ONE * ONE) as real);
  }

  // The sum of the loop for 0 < y <= 1.0.
  lemma SumTracks(y: S64, m: nat)
    requires 0 <= y <= ONE && m >= 10
    ensures var r := Series(y, ONE, y, 1);
      r.Result? && ONE <= r.sum && r.sum as real <= Taylor(y, m) < (r.sum + 8700) as real
  {
    ExpAccuracy(y, m);
    assert Exp(y).sum == Series(y, ONE, y, 1).sum;
  }

  lemma NegativeResult(x: S64)
    requires -ONE <= x < 0
    ensures Series(-1 * x, ONE, -1 * x, 1).Result? && Exp(x).Result?
    ensures var r, sum := Exp(x).sum, Series(-1 * x, ONE, -1 * x, 1).sum;
      0 <= r <= ONE <= sum && ONE * ONE < (r + 1) * sum && r * (sum - 3) <= ONE * ONE
  {
    SumTracks(-1 * x, 10);
    ReciprocalBounds(Series(-1 * x, ONE, -1 * x, 1).sum);
  }

  // For -1.0 <= x < 0 the result is near the reciprocal of every longer partial sum of the
  // exponential series at -x.
  lemma ExpAccuracyNegative(x: S64, m: nat)
    requires -ONE <= x < 0 && m >= 10
    ensures ExpValue(x).Value? && NearReciprocal(ExpValue(x).v, Taylor(-1 * x, m))
  {
    NegativeResult(x);
    ExpAgrees(x);
    SumTracks(-1 * x, m);
    AroundReciprocal(Exp(x).sum, Series(-1 * x, ONE, -1 * x, 1).sum, Taylor(-1 * x, m));
  }
}
