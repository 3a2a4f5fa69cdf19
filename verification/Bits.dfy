/** 32-bit words and the numbers they stand for, digit by digit in base 16. */
module Bits {
  import opened Words

  function Bit(w: bv32, mask: bv32, weight: nat): nat { if w & mask == 0 then 0 else weight }

  // The last digit.
  function Digit(w: bv32): (d: nat)
    ensures d < 16
  {
    Bit(w, 8, 8) + Bit(w, 4, 4) + Bit(w, 2, 2) + Bit(w, 1, 1)
  }

  function Num(w: bv32): nat
    decreases w
  {
    if w == 0 then 0 else Digit(w) + 16 * Num(w >> 4)
  }

  // w | 0xc and w & ~0xc on numbers.
  function SetC(x: nat): nat { x / 16 * 16 + 12 + x % 4 }
  function ClearC(x: nat): nat { x / 16 * 16 + x % 4 }

  lemma NumUnfold(w: bv32)
    ensures Num(w) == Digit(w) + 16 * Num(w >> 4)
  {
    if w == 0 {
      assert w >> 4 == 0;
    }
  }

  lemma BitsSet(w: bv32)
    ensures (w | 0xc) & 8 != 0 && (w | 0xc) & 4 != 0 && (w | 0xc) & 2 == w & 2 && (w | 0xc) & 1 == w & 1
    ensures (w | 0xc) >> 4 == w >> 4
  {
  }

  lemma BitsCleared(w: bv32)
    ensures (w & !0xc) & 8 == 0 && (w & !0xc) & 4 == 0 && (w & !0xc) & 2 == w & 2 && (w & !0xc) & 1 == w & 1
    ensures (w & !0xc) >> 4 == w >> 4
  {
  }

  lemma LowBits(a: nat, b: nat)
    requires a < 4 && b < 4
    ensures (4 * a + b) % 4 == b
  {
  }

  lemma DigitOfC(w: bv32)
    ensures Digit(w | 0xc) == 12 + Digit(w) % 4 && Digit(w & !0xc) == Digit(w) % 4
  {
    BitsSet(w);
    BitsCleared(w);
    LowBits(Bit(w, 8, 2) + Bit(w, 4, 1), Bit(w, 2, 2) + Bit(w, 1, 1));
  }

  lemma SetDigit(w: bv32)
    ensures Num(w | 0xc) == 12 + Digit(w) % 4 + 16 * Num(w >> 4)
  {
    NumUnfold(w | 0xc);
    BitsSet(w);
    DigitOfC(w);
  }

  lemma ClearDigit(w: bv32)
    ensures Num(w & !0xc) == Digit(w) % 4 + 16 * Num(w >> 4)
  {
    NumUnfold(w & !0xc);
    BitsCleared(w);
    DigitOfC(w);
  }

  lemma Split(x: nat, d: nat, h: nat)
    requires x == d + 16 * h && d < 16
    ensures x / 16 == h && x % 4 == d % 4
  {
    ModUnique(x, h, d, 16);
    ModUnique(x, 4 * h + d / 4, d % 4, 4);
  }

  // Setting and clearing the two bits of a word does to its number what the names say.
  lemma BitsOfC(w: bv32)
    ensures Num(w | 0xc) == SetC(Num(w)) && Num(w & !0xc) == ClearC(Num(w))
  {
    var x, d, h := Num(w), Digit(w), Num(w >> 4);
    assert Num(w | 0xc) == 12 + d % 4 + 16 * h by { SetDigit(w); }
    assert Num(w & !0xc) == d % 4 + 16 * h by { ClearDigit(w); }
    assert x / 16 == h && x % 4 == d % 4 by {
      NumUnfold(w);
      Split(x, d, h);
    }
  }

  lemma ShiftDigits(w: bv32)
    ensures Num(w) == Digit(w) + 16 * Digit(w >> 4) + 256 * Num(w >> 8)
  {
    NumUnfold(w);
    NumUnfold(w >> 4);
    assert (w >> 4) >> 4 == w >> 8;
  }

  lemma ShiftNum(w: bv32)
    ensures Num(w >> 8) == Num(w) / 256
  {
    var low, high := Digit(w) + 16 * Digit(w >> 4), Num(w >> 8);
    ShiftDigits(w);
    ModUnique(Num(w), high, low, 256);
  }

  /* ---------- words and the numbers below 2^32 ---------- */

  const TOP: bv32 := 0xffff_ffff

  // How adding one runs through the last digit.
  lemma CarryStops(w: bv32)
    requires w & 8 == 0 || w & 4 == 0 || w & 2 == 0 || w & 1 == 0
    ensures (w + 1) >> 4 == w >> 4
    ensures ((w + 1) & 1 == 0) == (w & 1 != 0)
    ensures ((w + 1) & 2 == 0) == (w & 2 == 0) <==> w & 1 == 0
    ensures ((w + 1) & 4 == 0) == (w & 4 == 0) <==> w & 1 == 0 || w & 2 == 0
    ensures ((w + 1) & 8 == 0) == (w & 8 == 0) <==> w & 1 == 0 || w & 2 == 0 || w & 4 == 0
  {
  }

  lemma CarryGoesOn(w: bv32)
    requires w & 8 != 0 && w & 4 != 0 && w & 2 != 0 && w & 1 != 0 && w != TOP
    ensures (w + 1) >> 4 == (w >> 4) + 1 && w >> 4 != TOP && w >> 4 < w
    ensures (w + 1) & 8 == 0 && (w + 1) & 4 == 0 && (w + 1) & 2 == 0 && (w + 1) & 1 == 0
  {
  }

  // One more in the last digit: v is the next word, h what lies above.
  lemma NextDigit(w: bv32) returns (v: bv32, h: bv32)
    requires Digit(w) < 15
    ensures v == w + 1 && w >> 4 == h && v >> 4 == h && Digit(v) == Digit(w) + 1
  {
    CarryStops(w);
    v, h := w + 1, w >> 4;
  }

  // With a carry, h is what lies above.
  lemma WrapDigit(w: bv32) returns (h: bv32)
    requires Digit(w) == 15 && w != TOP
    ensures w >> 4 == h && h != TOP && h < w
  {
    CarryGoesOn(w);
    h := w >> 4;
  }

  // k is the word after h.
  lemma CarryInto(w: bv32, h: bv32, k: bv32) returns (v: bv32)
    requires Digit(w) == 15 && w != TOP && w >> 4 == h && k == h + 1
    ensures v == w + 1 && v >> 4 == k && Digit(v) == 0
  {
    CarryGoesOn(w);
    v := w + 1;
  }

  lemma NumSameHigh(w: bv32, v: bv32, h: bv32)
    requires w >> 4 == h && v >> 4 == h && Digit(v) == Digit(w) + 1
    ensures Num(v) == Num(w) + 1
  {
    NumUnfold(w);
    NumUnfold(v);
  }

  lemma NumCarry(w: bv32, v: bv32, h: bv32, k: bv32)
    requires w >> 4 == h && v >> 4 == k && Digit(w) == 15 && Digit(v) == 0 && Num(k) == Num(h) + 1
    ensures Num(v) == Num(w) + 1
  {
    NumUnfold(w);
    NumUnfold(v);
  }

  lemma {:induction false} NumNext(w: bv32) returns (v: bv32)
    requires w != TOP
    ensures v == w + 1 && Num(v) == Num(w) + 1
    decreases w
  {
    var h: bv32;
    if Digit(w) < 15 {
      v, h := NextDigit(w);
      NumSameHigh(w, v, h);
    } else {
      h := WrapDigit(w);
      var k := NumNext(h);
      v := CarryInto(w, h, k);
      NumCarry(w, v, h, k);
    }
  }

  lemma NumLow(w: bv32, h: bv32)
    requires w >> 4 == h && w & 0xf == 0xf
    ensures Num(w) == 15 + 16 * Num(h)
  {
    assert w & 8 != 0 && w & 4 != 0 && w & 2 != 0 && w & 1 != 0;
    NumUnfold(w);
  }

  lemma NumTop()
    ensures Num(TOP) == TWO_32 - 1
  {
    NumLow(0xffff_ffff, 0xfff_ffff);
    NumLow(0xfff_ffff, 0xff_ffff);
    NumLow(0xff_ffff, 0xf_ffff);
    NumLow(0xf_ffff, 0xffff);
    NumLow(0xffff, 0xfff);
    NumLow(0xfff, 0xff);
    NumLow(0xff, 0xf);
    NumLow(0xf, 0);
  }

  lemma NextGreater(w: bv32)
    requires w != TOP
    ensures w < w + 1
  {
  }

  lemma {:induction false} NumBelow(w: bv32)
    ensures Num(w) < TWO_32
    decreases TOP - w
  {
    NumTop();
    if w != TOP {
      var v := NumNext(w);
      assert w < v by { NextGreater(w); }
      NumBelow(v);
    }
  }

  // Every number below 2^32 is the number of a word.
  lemma {:induction false} WordOf(x: nat) returns (w: bv32)
    requires x < TWO_32
    ensures Num(w) == x
    decreases x
  {
    w := 0;
    if x > 0 {
      w := WordOf(x - 1);
      NumTop();
      w := NumNext(w);
    }
  }
}
