/** Machine words and powers of two, over unbounded integers. */
module Words {

  const TWO_31: int := 0x8000_0000
  const TWO_32: int := 0x1_0000_0000
  const TWO_63: int := 0x8000_0000_0000_0000
  const TWO_64: int := 0x1_0000_0000_0000_0000

  function Abs(x: int): nat {
    if x < 0 then -x else x
  }

  predicate InS64(x: int) {
    -TWO_63 <= x < TWO_63
  }

  type S64 = x: int | InS64(x)

  // The value of x after truncation to 64 bits, read as signed.
  function WrapS64(x: int): (r: int)
    ensures InS64(r)
  {
    (x + TWO_63) % TWO_64 - TWO_63
  }

  lemma WrapS64Id(x: int)
    requires InS64(x)
    ensures WrapS64(x) == x
  {
    ModUnique(x + TWO_63, 0, x + TWO_63, TWO_64);
  }

  function WrapU64(x: int): (r: nat) {
    x % TWO_64
  }

  // The value of x after truncation to 32 bits, read as signed.
  function WrapS32(x: int): int {
    (x + TWO_31) % TWO_32 - TWO_31
  }

  lemma WrapU64Twice(x: int)
    ensures WrapU64(WrapU64(x) * 2) == WrapU64(x * 2)
    ensures WrapU64(WrapU64(x) + 1) == WrapU64(x + 1)
  {
    var q := x / TWO_64;
    assert x == q * TWO_64 + WrapU64(x);
    assert x * 2 == (2 * q) * TWO_64 + WrapU64(x) * 2;
    ModUnique(x * 2, 2 * q + WrapU64(x) * 2 / TWO_64, WrapU64(WrapU64(x) * 2), TWO_64);
    ModUnique(x + 1, q + (WrapU64(x) + 1) / TWO_64, WrapU64(WrapU64(x) + 1), TWO_64);
  }

  // The 64-bit pattern of x, or of its negation, depends only on the pattern of x.
  lemma WrapOfWrapU64(x: int)
    ensures WrapS64(WrapU64(x)) == WrapS64(x)
    ensures WrapS64(-WrapS64(x)) == WrapS64(-x)
  {
    var q := x / TWO_64;
    assert x == q * TWO_64 + WrapU64(x);
    var y := WrapU64(x) + TWO_63;
    ModUnique(x + TWO_63, q + y / TWO_64, y % TWO_64, TWO_64);
    var k := (x + TWO_63) / TWO_64;
    assert -x == -WrapS64(x) - k * TWO_64;
    var z := -WrapS64(x) + TWO_63;
    ModUnique(-x + TWO_63, -k + z / TWO_64, z % TWO_64, TWO_64);
  }

  // Quotient and remainder by a positive divisor are determined by their defining equation.
  lemma ModUnique(x: int, q: int, r: int, d: int)
    requires d > 0 && 0 <= r < d && x == q * d + r
    ensures x / d == q && x % d == r
  {
    var dq := x / d - q;
    assert dq * d == r - x % d;
    assert dq > 0 ==> dq * d >= d;
    assert dq < 0 ==> dq * d <= -d;
  }

  function Pow2(n: nat): (p: int)
    ensures p > 0
  {
    if n == 0 then 1 else 2 * Pow2(n - 1)
  }

  lemma {:induction false} Pow2Add(m: nat, n: nat)
    ensures Pow2(m + n) == Pow2(m) * Pow2(n)
  {
    if m > 0 {
      Pow2Add(m - 1, n);
      assert Pow2(m + n) == 2 * Pow2(m - 1 + n);
    }
  }

  lemma {:induction false} Pow2Monotone(m: nat, n: nat)
    requires m <= n
    ensures Pow2(m) <= Pow2(n)
  {
    Pow2Add(m, n - m);
    MulMonotone(Pow2(m), 1, Pow2(n - m));
  }

  lemma Pow2Values()
    ensures Pow2(1) == 2 && Pow2(12) == 0x1000
    ensures Pow2(31) == TWO_31 && Pow2(32) == TWO_32
    ensures Pow2(62) == TWO_63 / 2 && Pow2(63) == TWO_63 && Pow2(64) == TWO_64
  {
    assert Pow2(4) == 16;
    Pow2Add(4, 4);
    Pow2Add(8, 4);
    Pow2Add(8, 8);
    Pow2Add(16, 15);
    Pow2Add(16, 16);
    Pow2Add(32, 31);
    assert Pow2(63) == 2 * Pow2(62);
    Pow2Add(32, 32);
  }

  lemma MulMonotone(k: nat, x: int, y: int)
    requires x <= y
    ensures k * x <= k * y
  {
  }

  // An arithmetic right shift is a floor division: bounds from both sides.
  lemma DivBounds(x: int, d: int)
    requires d > 0
    ensures (x / d) * d <= x < (x / d) * d + d
  {
  }

  // The largest q with q * d <= x.
  lemma DivIsGreatest(x: int, d: int, q: int)
    requires d > 0
    ensures q * d <= x <==> q <= x / d
  {
    if q <= x / d {
      MulMonotone(d, q, x / d);
    } else {
      MulMonotone(d, x / d + 1, q);
    }
  }

  // Dividing twice is dividing by the product.
  lemma DivDiv(x: int, c: int, d: int)
    requires c > 0 && d > 0
    ensures c * d > 0 && (x / c) / d == x / (c * d)
  {
    var q := (x / c) / d;
    var r := (x / c) % d * c + x % c;
    assert x == q * (c * d) + r by {
      assert x == (x / c) * c + x % c;
      assert x / c == q * d + (x / c) % d;
      assert (q * d + (x / c) % d) * c == q * (c * d) + (x / c) % d * c;
    }
    assert 0 <= r < c * d by {
      MulMonotone(c, (x / c) % d, d - 1);
      assert c * (d - 1) == c * d - c;
    }
    ModUnique(x, q, r, c * d);
  }
}
