/** 64-bit words as natural numbers below 2^64: bitwise operations, single-bit
    access and the branch-free population count used by the page bitmap. */
module Bits {
  import opened Machine

  const ALL_ONES: nat := 0xFFFF_FFFF_FFFF_FFFF

  function Pow2(k: nat): (p: nat)
    ensures p > 0
  {
    if k == 0 then 1 else 2 * Pow2(k - 1)
  }

  /** Bit `i` of `x`: shift right `i` places and look at the lowest bit. */
  predicate Bit(x: nat, i: nat) {
    if i == 0 then x % 2 == 1 else Bit(x / 2, i - 1)
  }

  function And(x: nat, y: nat): nat {
    if x == 0 then 0 else 2 * And(x / 2, y / 2) + (if x % 2 == 1 && y % 2 == 1 then 1 else 0)
  }

  function Or(x: nat, y: nat): nat
    decreases x + y
  {
    if x == 0 && y == 0 then 0
    else 2 * Or(x / 2, y / 2) + (if x % 2 == 1 || y % 2 == 1 then 1 else 0)
  }

  /** `x & ~y`. */
  function AndNot(x: nat, y: nat): nat {
    if x == 0 then 0 else 2 * AndNot(x / 2, y / 2) + (if x % 2 == 1 && y % 2 == 0 then 1 else 0)
  }

  /** The number of set bits. */
  function Ones(x: nat): nat {
    if x == 0 then 0 else x % 2 + Ones(x / 2)
  }

  /** The SWAR population count of a word, with 64-bit wrap-around written out:
      sums of bit pairs, of nibbles, of bytes, then one multiplication that
      gathers the eight byte sums in the top byte. */
  function PopCount(x: nat): nat
    requires x < WORD
  {
    Gather(SumBytes(SumNibbles(SumPairs(x))))
  }

  function SumPairs(x: nat): nat
    requires x < WORD
  {
    (x + (WORD - And(x / 2, 0x5555_5555_5555_5555) % WORD)) % WORD
  }

  function SumNibbles(a: nat): nat {
    (And(a, 0x3333_3333_3333_3333) + And(a / 4, 0x3333_3333_3333_3333)) % WORD
  }

  function SumBytes(b: nat): nat {
    And((b + b / 16) % WORD, 0x0F0F_0F0F_0F0F_0F0F)
  }

  function Gather(c: nat): nat {
    (c * 0x0101_0101_0101_0101) % WORD / 0x100_0000_0000_0000
  }

  // ----- single bits

  lemma {:induction false} BitOr(x: nat, y: nat, j: nat)
    ensures Bit(Or(x, y), j) <==> Bit(x, j) || Bit(y, j)
    decreases j
  {
    OrParts(x, y);
    if j > 0 { BitOr(x / 2, y / 2, j - 1); }
  }

  lemma OrParts(x: nat, y: nat)
    ensures Or(x, y) / 2 == Or(x / 2, y / 2) && (Or(x, y) % 2 == 1 <==> x % 2 == 1 || y % 2 == 1)
  {}

  lemma {:induction false} BitAndNot(x: nat, y: nat, j: nat)
    ensures Bit(AndNot(x, y), j) <==> Bit(x, j) && !Bit(y, j)
    decreases j
  {
    AndNotParts(x, y);
    if j > 0 { BitAndNot(x / 2, y / 2, j - 1); }
  }

  lemma AndNotParts(x: nat, y: nat)
    ensures AndNot(x, y) / 2 == AndNot(x / 2, y / 2) && (AndNot(x, y) % 2 == 1 <==> x % 2 == 1 && y % 2 == 0)
  {}

  lemma {:induction false} BitOfZero(j: nat)
    ensures !Bit(0, j)
  {
    if j > 0 { BitOfZero(j - 1); }
  }

  lemma {:induction false} BitOfPow2(i: nat, j: nat)
    ensures Bit(Pow2(i), j) <==> i == j
  {
    if j > 0 {
      if i == 0 { BitOfZero(j - 1); } else { BitOfPow2(i - 1, j - 1); }
    }
  }

  lemma {:induction false} OrBound(x: nat, y: nat, k: nat)
    requires x < Pow2(k) && y < Pow2(k)
    ensures Or(x, y) < Pow2(k)
    decreases k
  {
    if !(x == 0 && y == 0) { OrBound(x / 2, y / 2, k - 1); }
  }

  lemma {:induction false} AndNotBound(x: nat, y: nat)
    ensures AndNot(x, y) <= x
  {
    if x != 0 { AndNotBound(x / 2, y / 2); }
  }

  lemma {:induction false} Pow2Grows(i: nat, k: nat)
    requires i < k
    ensures 2 * Pow2(i) <= Pow2(k)
    decreases k - i
  {
    if i + 1 < k { Pow2Grows(i + 1, k); }
  }

  lemma Pow2Word()
    ensures Pow2(64) == WORD
  {
    assert Pow2(8) == 0x100;
    assert Pow2(16) == 0x1_0000;
    assert Pow2(24) == 0x100_0000;
    assert Pow2(32) == 0x1_0000_0000;
    assert Pow2(40) == 0x100_0000_0000;
    assert Pow2(48) == 0x1_0000_0000_0000;
    assert Pow2(56) == 0x100_0000_0000_0000;
  }

  lemma {:induction false} AllOnes(k: nat, j: nat)
    requires j < k
    ensures Bit(Pow2(k) - 1, j)
  {
    if j > 0 {
      AllOnes(k - 1, j - 1);
      assert (Pow2(k) - 1) / 2 == Pow2(k - 1) - 1;
    }
  }

  // ----- the population count

  function Halves4(x: nat): nat {
    if x == 0 then 0 else 4 * Halves4(x / 4) + x % 4 / 2
  }

  /** Every base-4 digit replaced by its number of set bits. */
  function Pairs(x: nat): nat {
    if x == 0 then 0 else 4 * Pairs(x / 4) + (x % 4 - x % 4 / 2)
  }

  /** Every base-16 digit replaced by the sum of its two base-4 digits. */
  function Nibbles(x: nat): nat {
    if x == 0 then 0 else 16 * Nibbles(x / 16) + (x % 4 + x % 16 / 4)
  }

  /** Every byte replaced by the sum of its two base-16 digits. */
  function Bytes(x: nat): nat {
    if x == 0 then 0 else 256 * Bytes(x / 256) + (x % 16 + x % 256 / 16)
  }

  function DigitSum(x: nat, base: nat): nat
    requires base >= 2
  {
    if x == 0 then 0 else x % base + DigitSum(x / base, base)
  }

  predicate DigitsAtMost(x: nat, base: nat, d: nat)
    requires base >= 2
  {
    x == 0 || (x % base <= d && DigitsAtMost(x / base, base, d))
  }

  /** The repeated-pattern mask: `k` digits `unit` in the given base. */
  function Repeat(k: nat, base: nat, unit: nat): nat {
    if k == 0 then 0 else base * Repeat(k - 1, base, unit) + unit
  }

  lemma {:induction false} HalvesMask(x: nat, k: nat)
    requires x < Pow2(2 * k)
    ensures And(x / 2, Repeat(k, 4, 1)) == Halves4(x)
  {
    if x >= 2 {
      var m := Repeat(k - 1, 4, 1);
      assert Pow2(2 * k) == 4 * Pow2(2 * k - 2);
      assert x / 2 / 2 == x / 4 && (4 * m + 1) / 2 == 2 * m;
      HalvesMask(x / 4, k - 1);
      AndEven(x / 4, m);
    }
  }

  lemma AndEven(x: nat, m: nat)
    ensures And(x, 2 * m) == 2 * And(x / 2, m)
  {}

  lemma {:induction false} PairsByHalves(x: nat)
    ensures Halves4(x) + Pairs(x) == x
  {
    if x != 0 { PairsByHalves(x / 4); }
  }

  lemma And4(x: nat, m: nat, u: nat)
    requires u == 0 || u == 3
    ensures And(x, 4 * m + u) == 4 * And(x / 4, m) + (if u == 3 then x % 4 else 0)
  {
    assert (4 * m + u) / 2 == 2 * m + u / 2 && (2 * m + u / 2) / 2 == m;
    assert x / 2 / 2 == x / 4;
    if x != 0 { AndTop(x / 2, 2 * m + u / 2, m, u / 2); }
  }

  lemma AndTop(x: nat, y: nat, m: nat, u: nat)
    requires y == 2 * m + u && u < 2
    ensures And(x, y) == 2 * And(x / 2, m) + (if u == 1 then x % 2 else 0)
  {}

  lemma {:induction false} NibblesMask(x: nat, k: nat)
    requires x < Pow2(4 * k)
    ensures And(x, Repeat(k, 16, 3)) + And(x / 4, Repeat(k, 16, 3)) == Nibbles(x)
  {
    if x != 0 {
      var m := Repeat(k - 1, 16, 3);
      Pow2Four(4 * k - 4);
      NibblesMask(x / 16, k - 1);
      AndNibble(x, m);
      AndNibble(x / 4, m);
      Div4(x);
    }
  }

  lemma Pow2Four(k: nat)
    ensures Pow2(k + 4) == 16 * Pow2(k)
  {
    assert Pow2(k + 4) == 4 * Pow2(k + 2);
  }

  lemma Div4(x: nat)
    ensures x / 4 / 16 == x / 16 / 4 && x / 4 % 4 == x % 16 / 4
  {
    Quarter(x);
    Quarter(x / 4);
  }

  lemma Quarter(x: nat)
    ensures x / 4 / 4 == x / 16 && x / 4 % 4 == x % 16 / 4
  {}

  lemma AndNibble(x: nat, m: nat)
    ensures And(x, 16 * m + 3) == 16 * And(x / 16, m) + x % 4
  {
    And4(x, 4 * m, 3);
    And4(x / 4, m, 0);
    assert x / 4 / 4 == x / 16;
  }

  lemma {:induction false} BytesMask(x: nat, k: nat)
    requires x < Pow2(8 * k) && DigitsAtMost(x, 16, 4)
    ensures And(x + x / 16, Repeat(k, 256, 15)) == Bytes(x)
  {
    if x != 0 {
      var m := Repeat(k - 1, 256, 15);
      var y := x / 256;
      Pow2Four(8 * k - 8);
      Pow2Four(8 * k - 4);
      TwoDigits(x);
      BytesMask(y, k - 1);
      AndByte(x + x / 16, m);
      ByteCarry(x);
    }
  }

  lemma TwoDigits(x: nat)
    requires DigitsAtMost(x, 16, 4)
    ensures x % 16 <= 4 && x / 16 % 16 <= 4 && x / 256 % 16 <= 4
    ensures DigitsAtMost(x / 256, 16, 4)
  {
    assert x / 16 / 16 == x / 256;
    assert DigitsAtMost(x / 16, 16, 4);
    assert DigitsAtMost(x / 16 / 16, 16, 4);
  }

  /** Adding a byte's two digits carries nothing into its neighbours. */
  lemma ByteCarry(x: nat)
    requires x % 16 <= 4 && x / 16 % 16 <= 4 && x / 256 % 16 <= 4
    ensures (x + x / 16) / 256 == x / 256 + x / 256 / 16
    ensures (x + x / 16) % 16 == x % 16 + x % 256 / 16
  {
    Split256(x);
    CarryDigits(x / 256 / 16, x / 256 % 16, x / 16 % 16, x % 16, x);
  }

  lemma Split256(x: nat)
    ensures x / 16 / 16 == x / 256 && x % 256 / 16 == x / 16 % 16
  {
    var y, r := x / 256, x % 256;
    Div16(16 * y + r / 16, r % 16);
    Div16(y, r / 16);
  }

  lemma Div16(q: nat, r: nat)
    requires r < 16
    ensures (16 * q + r) / 16 == q && (16 * q + r) % 16 == r
  {}

  lemma Div256(q: nat, r: nat)
    requires r < 256
    ensures (256 * q + r) / 256 == q
  {}

  lemma CarryDigits(z: nat, w: nat, h: nat, l: nat, x: nat)
    requires w <= 4 && h <= 4 && l <= 4
    requires x / 16 == 16 * (16 * z + w) + h && x == 16 * (x / 16) + l
    ensures (x + x / 16) / 256 == (16 * z + w) + z
    ensures (x + x / 16) % 16 == l + h
  {
    Div256(17 * z + w, 16 * (w + h) + (h + l));
    Div16(16 * (17 * z + w) + (w + h), h + l);
  }

  lemma AndByte(x: nat, m: nat)
    ensures And(x, 256 * m + 15) == 256 * And(x / 256, m) + x % 16
  {
    AndUpper(x / 16, m);
    And4(x, 64 * m + 3, 3);
    And4(x / 4, 16 * m, 3);
    assert x / 4 / 4 == x / 16 && x / 16 / 16 == x / 256;
  }

  lemma AndUpper(y: nat, m: nat)
    ensures And(y, 16 * m) == 16 * And(y / 16, m)
  {
    AndQuad(y, 4 * m);
    AndQuad(y / 4, m);
    Quarters(y);
  }

  lemma AndQuad(y: nat, m: nat)
    ensures And(y, 4 * m) == 4 * And(y / 4, m)
  {
    And4(y, m, 0);
  }

  lemma Quarters(y: nat)
    ensures y / 4 / 4 == y / 16
  {}

  /** Replacing each digit by what it counts keeps the total. */
  lemma {:induction false} PairsSum(x: nat)
    ensures DigitSum(Pairs(x), 4) == Ones(x) && Pairs(x) <= x
    ensures DigitsAtMost(Pairs(x), 4, 2)
  {
    if x != 0 {
      PairsSum(x / 4);
      assert x / 2 / 2 == x / 4;
      assert Pairs(x) / 4 == Pairs(x / 4);
      assert Ones(x) == x % 2 + Ones(x / 2);
      assert x / 2 != 0 ==> Ones(x / 2) == x / 2 % 2 + Ones(x / 4);
    }
  }

  lemma {:induction false} NibblesSum(x: nat)
    requires DigitsAtMost(x, 4, 2)
    ensures DigitSum(Nibbles(x), 16) == DigitSum(x, 4) && Nibbles(x) <= x
    ensures DigitsAtMost(Nibbles(x), 16, 4)
  {
    if x != 0 {
      assert x / 4 / 4 == x / 16 && x / 4 % 4 == x % 16 / 4;
      assert DigitsAtMost(x / 4, 4, 2);
      assert x / 4 != 0 ==> DigitsAtMost(x / 4 / 4, 4, 2);
      NibblesSum(x / 16);
      assert Nibbles(x) / 16 == Nibbles(x / 16);
      assert DigitSum(x, 4) == x % 4 + DigitSum(x / 4, 4);
      assert DigitSum(x / 4, 4) == x / 4 % 4 + DigitSum(x / 16, 4);
    }
  }

  lemma {:induction false} BytesSum(x: nat)
    requires DigitsAtMost(x, 16, 4)
    ensures DigitSum(Bytes(x), 256) == DigitSum(x, 16) && Bytes(x) <= x
    ensures DigitsAtMost(Bytes(x), 256, 8)
  {
    if x != 0 {
      TwoDigits(x);
      BytesSum(x / 256);
      assert x / 16 / 16 == x / 256 && x / 16 % 16 == x % 256 / 16;
      assert Bytes(x) / 256 == Bytes(x / 256);
      assert DigitSum(x, 16) == x % 16 + DigitSum(x / 16, 16);
      assert DigitSum(x / 16, 16) == x / 16 % 16 + DigitSum(x / 256, 16);
    }
  }

  lemma MaskLiterals()
    ensures Repeat(32, 4, 1) == 0x5555_5555_5555_5555
    ensures Repeat(16, 16, 3) == 0x3333_3333_3333_3333
    ensures Repeat(8, 256, 15) == 0x0F0F_0F0F_0F0F_0F0F
  {
    assert Repeat(8, 4, 1) == 0x5555;
    assert Repeat(16, 4, 1) == 0x5555_5555;
    assert Repeat(24, 4, 1) == 0x5555_5555_5555;
    assert Repeat(8, 16, 3) == 0x3333_3333;
  }

  /** Eight byte sums of at most 8 each, gathered by one wrapping multiplication. */
  lemma GatherBytes(b0: nat, b1: nat, b2: nat, b3: nat, b4: nat, b5: nat, b6: nat, b7: nat)
    requires b0 <= 8 && b1 <= 8 && b2 <= 8 && b3 <= 8 && b4 <= 8 && b5 <= 8 && b6 <= 8 && b7 <= 8
    ensures
      var c := b0 + 0x100 * (b1 + 0x100 * (b2 + 0x100 * (b3 + 0x100 * (b4 + 0x100 * (b5 + 0x100 * (b6 + 0x100 * b7))))));
      Gather(c) == b0 + b1 + b2 + b3 + b4 + b5 + b6 + b7
  {
    var c := b0 + 0x100 * (b1 + 0x100 * (b2 + 0x100 * (b3 + 0x100 * (b4 + 0x100 * (b5 + 0x100 * (b6 + 0x100 * b7))))));
    var s1, s2, s3 := b0 + b1, b0 + b1 + b2, b0 + b1 + b2 + b3;
    var s4, s5, s6 := s3 + b4, s3 + b4 + b5, s3 + b4 + b5 + b6;
    var low := b0 + 0x100 * (s1 + 0x100 * (s2 + 0x100 * (s3 + 0x100 * (s4 + 0x100 * (s5 + 0x100 * s6)))));
    var high := TopHalf(b1, b2, b3, b4, b5, b6, b7);
    ByteProduct(b0, b1, b2, b3, b4, b5, b6, b7);
    TopByte(low, s6 + b7, high);
  }

  function TopHalf(b1: nat, b2: nat, b3: nat, b4: nat, b5: nat, b6: nat, b7: nat): nat {
    (b1 + b2 + b3 + b4 + b5 + b6 + b7) + 0x100 * ((b2 + b3 + b4 + b5 + b6 + b7) +
    0x100 * ((b3 + b4 + b5 + b6 + b7) + 0x100 * ((b4 + b5 + b6 + b7) +
    0x100 * ((b5 + b6 + b7) + 0x100 * ((b6 + b7) + 0x100 * b7)))))
  }

  lemma ByteProduct(b0: nat, b1: nat, b2: nat, b3: nat, b4: nat, b5: nat, b6: nat, b7: nat)
    ensures
      var c := b0 + 0x100 * (b1 + 0x100 * (b2 + 0x100 * (b3 + 0x100 * (b4 + 0x100 * (b5 + 0x100 * (b6 + 0x100 * b7))))));
      var s1, s2, s3 := b0 + b1, b0 + b1 + b2, b0 + b1 + b2 + b3;
      var s4, s5, s6 := s3 + b4, s3 + b4 + b5, s3 + b4 + b5 + b6;
      c * 0x0101_0101_0101_0101 ==
      b0 + 0x100 * (s1 + 0x100 * (s2 + 0x100 * (s3 + 0x100 * (s4 + 0x100 * (s5 + 0x100 * s6)))))
      + 0x100_0000_0000_0000 * (s6 + b7) + WORD * TopHalf(b1, b2, b3, b4, b5, b6, b7)
  {}

  lemma TopByte(low: nat, s: nat, high: nat)
    requires low < 0x100_0000_0000_0000 && s < 256
    ensures (low + 0x100_0000_0000_0000 * s + WORD * high) % WORD / 0x100_0000_0000_0000 == s
  {
    assert (low + 0x100_0000_0000_0000 * s + WORD * high) % WORD == low + 0x100_0000_0000_0000 * s;
  }

  lemma {:induction false} NibbleBound(b: nat, k: nat)
    requires DigitsAtMost(b, 16, 4) && b < Pow2(4 * k)
    ensures 3 * b < Pow2(4 * k)
  {
    if b != 0 {
      Pow2Four(4 * k - 4);
      NibbleBound(b / 16, k - 1);
    }
  }

  /** The lowest byte, split off. */
  lemma SplitByte(c: nat, limit: nat) returns (b: nat, rest: nat)
    requires DigitsAtMost(c, 256, 8) && c < 256 * limit
    ensures c == b + 256 * rest && b <= 8 && rest < limit
    ensures DigitsAtMost(rest, 256, 8) && DigitSum(c, 256) == b + DigitSum(rest, 256)
  {
    b, rest := c % 256, c / 256;
  }

  lemma GatherDigits(c: nat)
    requires c < WORD && DigitsAtMost(c, 256, 8)
    ensures Gather(c) == DigitSum(c, 256)
  {
    var b0, c1 := SplitByte(c, 0x100_0000_0000_0000);
    var b1, c2 := SplitByte(c1, 0x1_0000_0000_0000);
    var b2, c3 := SplitByte(c2, 0x100_0000_0000);
    var b3, c4 := SplitByte(c3, 0x1_0000_0000);
    assert c2 == b2 + 0x100 * (b3 + 0x100 * c4);
    assert c == b0 + 0x100 * (b1 + 0x100 * c2);
    GatherHigh(b0, b1, b2, b3, c4);
  }

  lemma GatherHigh(b0: nat, b1: nat, b2: nat, b3: nat, c4: nat)
    requires b0 <= 8 && b1 <= 8 && b2 <= 8 && b3 <= 8
    requires c4 < 0x1_0000_0000 && DigitsAtMost(c4, 256, 8)
    ensures Gather(b0 + 0x100 * (b1 + 0x100 * (b2 + 0x100 * (b3 + 0x100 * c4)))) ==
            b0 + b1 + b2 + b3 + DigitSum(c4, 256)
  {
    var b4, c5 := SplitByte(c4, 0x100_0000);
    var b5, c6 := SplitByte(c5, 0x1_0000);
    GatherTop(b0, b1, b2, b3, b4, b5, c6);
  }

  lemma GatherTop(b0: nat, b1: nat, b2: nat, b3: nat, b4: nat, b5: nat, c6: nat)
    requires b0 <= 8 && b1 <= 8 && b2 <= 8 && b3 <= 8 && b4 <= 8 && b5 <= 8
    requires c6 < 0x1_0000 && DigitsAtMost(c6, 256, 8)
    ensures Gather(b0 + 0x100 * (b1 + 0x100 * (b2 + 0x100 * (b3 + 0x100 * (b4 + 0x100 * (b5 + 0x100 * c6)))))) ==
            b0 + b1 + b2 + b3 + b4 + b5 + DigitSum(c6, 256)
  {
    var b6, c7 := SplitByte(c6, 0x100);
    var b7, c8 := SplitByte(c7, 1);
    GatherBytes(b0, b1, b2, b3, b4, b5, b6, b7);
  }

  // `k` is kept symbolic below so that the masks are not unfolded digit by digit.

  lemma PairMask(k: nat)
    requires k + 1 == 9
    ensures Repeat(4 * k, 4, 1) == 0x5555_5555_5555_5555 && Pow2(8 * k) == WORD
  {
    MaskLiterals();
    Pow2Word();
  }

  lemma NibbleMask(k: nat)
    requires k + 1 == 9
    ensures Repeat(2 * k, 16, 3) == 0x3333_3333_3333_3333 && Pow2(8 * k) == WORD
  {
    MaskLiterals();
    Pow2Word();
  }

  lemma ByteMask(k: nat)
    requires k + 1 == 9
    ensures Repeat(k, 256, 15) == 0x0F0F_0F0F_0F0F_0F0F && Pow2(8 * k) == WORD
  {
    MaskLiterals();
    Pow2Word();
  }

  lemma FirstSum(x: nat, k: nat)
    requires x < WORD && k + 1 == 9
    ensures SumPairs(x) == Pairs(x)
  {
    PairMask(k);
    HalvesMask(x, 4 * k);
    PairsByHalves(x);
    WrapSub(x, Halves4(x));
  }

  lemma WrapSub(x: nat, y: nat)
    requires y <= x < WORD
    ensures (x + (WORD - y % WORD)) % WORD == x - y
  {
    SmallMod(y);
    if y == 0 {
      assert (x + WORD) % WORD == x;
    } else {
      assert x + (WORD - y) == (x - y) + WORD;
    }
  }

  lemma SecondSum(a: nat, k: nat)
    requires a < WORD && DigitsAtMost(a, 4, 2) && k + 1 == 9
    ensures SumNibbles(a) == Nibbles(a)
  {
    NibbleMask(k);
    SecondSumWith(a, 2 * k, 0x3333_3333_3333_3333);
  }

  lemma SecondSumWith(a: nat, k: nat, mask: nat)
    requires a < WORD && a < Pow2(4 * k) && DigitsAtMost(a, 4, 2) && mask == Repeat(k, 16, 3)
    ensures (And(a, mask) + And(a / 4, mask)) % WORD == Nibbles(a)
  {
    SumsUnder(a, k, mask);
    SmallMod(And(a, mask) + And(a / 4, mask));
  }

  lemma SumsUnder(a: nat, k: nat, mask: nat)
    requires a < Pow2(4 * k) && DigitsAtMost(a, 4, 2) && mask == Repeat(k, 16, 3)
    ensures And(a, mask) + And(a / 4, mask) == Nibbles(a) <= a
  {
    NibblesMask(a, k);
    NibblesSum(a);
  }

  lemma ThirdSum(b: nat, k: nat)
    requires b < WORD && DigitsAtMost(b, 16, 4) && k + 1 == 9
    ensures SumBytes(b) == Bytes(b)
  {
    ByteMask(k);
    NibbleBound(b, 2 * k);
    SmallMod(b + b / 16);
    BytesMask(b, k);
  }

  lemma SmallMod(n: nat)
    requires n < WORD
    ensures n % WORD == n
  {}

  /** Popcount is exact on every 64-bit word. */
  lemma PopCountExact(x: nat)
    requires x < WORD
    ensures PopCount(x) == Ones(x)
  {
    FirstSum(x, 8);
    PairsSum(x);
    CountPairs(Pairs(x));
  }

  lemma CountPairs(a: nat)
    requires a < WORD && DigitsAtMost(a, 4, 2)
    ensures Gather(SumBytes(SumNibbles(a))) == DigitSum(a, 4)
  {
    SecondSum(a, 8);
    NibblesSum(a);
    CountNibbles(Nibbles(a));
  }

  lemma CountNibbles(b: nat)
    requires b < WORD && DigitsAtMost(b, 16, 4)
    ensures Gather(SumBytes(b)) == DigitSum(b, 16)
  {
    ThirdSum(b, 8);
    BytesSum(b);
    GatherDigits(Bytes(b));
  }

  // ----- powers of two

  /** `a & (a - 1) == 0` singles out the powers of two. */
  lemma {:induction false} IsPow2(a: nat) returns (k: nat)
    requires a > 0 && And(a, a - 1) == 0
    ensures a == Pow2(k)
  {
    k := 0;
    if a % 2 == 0 {
      assert (a - 1) / 2 == a / 2 - 1;
      k := IsPow2(a / 2);
      k := k + 1;
    } else if a > 1 {
      AndSelf(a / 2);
    }
  }

  lemma {:induction false} Pow2Mask(k: nat)
    ensures And(Pow2(k), Pow2(k) - 1) == 0
  {
    if k > 0 {
      assert Pow2(k) / 2 == Pow2(k - 1) && (Pow2(k) - 1) / 2 == Pow2(k - 1) - 1;
      Pow2Mask(k - 1);
    }
  }

  ghost predicate PowerOfTwo(a: nat) { exists k: nat :: a == Pow2(k) }

  lemma IsPow2Iff(a: nat)
    requires a > 0
    ensures And(a, a - 1) == 0 <==> PowerOfTwo(a)
  {
    if And(a, a - 1) == 0 {
      var k := IsPow2(a);
    } else if k: nat :| a == Pow2(k) {
      Pow2Mask(k);
    }
  }

  lemma {:induction false} AndSelf(x: nat)
    ensures And(x, x) == x
  {
    if x > 0 { AndSelf(x / 2); }
  }

  /** `x & ~(2^k - 1)` rounds down to a multiple of 2^k. */
  lemma {:induction false} MaskRounds(x: nat, k: nat)
    ensures var r := AndNot(x, Pow2(k) - 1);
      r % Pow2(k) == 0 && r <= x < r + Pow2(k)
  {
    if k == 0 {
      AndNotZero(x);
    } else if x > 0 {
      MaskRounds(x / 2, k - 1);
      var r, p := AndNot(x / 2, Pow2(k - 1) - 1), Pow2(k - 1);
      assert (Pow2(k) - 1) / 2 == p - 1 && (Pow2(k) - 1) % 2 == 1;
      assert AndNot(x, Pow2(k) - 1) == 2 * r;
      DoubleMultiple(r, p);
    }
  }

  lemma {:induction false} AndNotZero(x: nat)
    ensures AndNot(x, 0) == x
  {
    if x > 0 { AndNotZero(x / 2); }
  }

  lemma DoubleMultiple(r: nat, p: nat)
    requires p > 0 && r % p == 0
    ensures 2 * r % (2 * p) == 0
  {
    var q := r / p;
    assert r == p * q;
    assert 2 * r == (2 * p) * q;
    QuotRem(q, 0, 2 * p);
  }
}
