/**
 The check value of CRC-64/Jones that src/core/crc64.rs quotes: a number that only the right
 polynomial, bit order and initial value give. The register is computed as a 64-bit word.
 */
module Crc64Check {
  import opened Bits
  import opened Crc64Spec

  type Word = bv64

  /** The number a word stands for. */
  function Val(x: Word): nat
    decreases x
  {
    if x == 0 then 0 else 2 * Val(x >> 1) + (if x & 1 == 1 then 1 else 0)
  }

  lemma {:induction false} ValXor(x: Word, y: Word)
    ensures Val(x ^ y) == Xor(Val(x), Val(y))
    decreases x | y
  {
    hide Val, Xor;
    if x | y == 0 {
      NoWords(x, y);
    } else {
      HalfWords(x, y);
      ValXor(x >> 1, y >> 1);
      ValHalf(x);
      ValHalf(y);
      ValHalf(x ^ y);
      LowBits(x, y);
      Combine(Val(x), Val(x >> 1), LowBit(x), Val(y), Val(y >> 1), LowBit(y), Val(x ^ y));
    }
  }

  lemma Combine(x: nat, xh: nat, xb: nat, y: nat, yh: nat, yb: nat, z: nat)
    requires x == 2 * xh + xb && y == 2 * yh + yb && xb < 2 && yb < 2 && z == 2 * Xor(xh, yh) + (xb + yb) % 2
    ensures z == Xor(x, y)
  {
    hide Xor;
    XorStep(xh, xb, yh, yb);
  }

  lemma NoWords(x: Word, y: Word)
    requires x | y == 0
    ensures Val(x ^ y) == 0 && Val(x) == 0 && Val(y) == 0 && Xor(0, 0) == 0
  {
    assert x == 0 && y == 0;
  }

  function LowBit(x: Word): nat { if x & 1 == 1 then 1 else 0 }

  lemma HalfWords(x: Word, y: Word)
    requires x | y != 0
    ensures (x >> 1) | (y >> 1) < x | y
    ensures (x ^ y) >> 1 == (x >> 1) ^ (y >> 1)
  {
  }

  lemma LowBits(x: Word, y: Word)
    ensures LowBit(x) < 2 && LowBit(y) < 2 && LowBit(x ^ y) == (LowBit(x) + LowBit(y)) % 2
  {
    assert (x ^ y) & 1 == (x & 1) ^ (y & 1);
    assert x & 1 == 0 || x & 1 == 1;
    assert y & 1 == 0 || y & 1 == 1;
  }

  lemma ValStep(x: Word)
    ensures Val(x) == 2 * Val(x >> 1) + LowBit(x)
  {
  }

  // ---- the register ----

  function StepWord(p: Word, crc: Word): Word { if crc & 1 == 1 then (crc >> 1) ^ p else crc >> 1 }

  function Shift8(p: Word, crc: Word): Word {
    var c := StepWord(p, StepWord(p, StepWord(p, StepWord(p, crc))));
    StepWord(p, StepWord(p, StepWord(p, StepWord(p, c))))
  }

  lemma StepWordIs(p: Word, crc: Word)
    ensures Step(Val(p), Val(crc)) == Val(StepWord(p, crc))
  {
    hide Val, Xor;
    ValStep(crc);
    ValXor(crc >> 1, p);
    OneBit(Val(crc), Val(crc >> 1), LowBit(crc));
  }

  lemma OneBit(v: nat, half: nat, bit: nat)
    requires v == 2 * half + bit && bit < 2
    ensures v / 2 == half && v % 2 == bit
  {
  }

  lemma Shift8Is(p: Word, crc: Word)
    ensures Steps(Val(p), Val(crc), 8) == Val(Shift8(p, crc))
  {
    hide Val, Step, StepWord;
    var c1 := StepWord(p, crc);
    var c2 := StepWord(p, c1);
    var c3 := StepWord(p, c2);
    var c4 := StepWord(p, c3);
    var c5 := StepWord(p, c4);
    var c6 := StepWord(p, c5);
    var c7 := StepWord(p, c6);
    StepWordIs(p, crc);
    StepWordIs(p, c1);
    StepWordIs(p, c2);
    StepWordIs(p, c3);
    StepWordIs(p, c4);
    StepWordIs(p, c5);
    StepWordIs(p, c6);
    StepWordIs(p, c7);
  }

  function Half(w: Word): Word { w >> 1 }

  /** The lowest hexadecimal digit, and the word without it. */
  function LowDigit(w: Word): nat {
    8 * LowBit(Half(Half(Half(w)))) + 4 * LowBit(Half(Half(w))) + 2 * LowBit(Half(w)) + LowBit(w)
  }

  function HighDigits(w: Word): Word { Half(Half(Half(Half(w)))) }

  lemma ValHalf(w: Word)
    ensures Val(w) == 2 * Val(Half(w)) + LowBit(w)
  {
  }

  /** One hexadecimal digit of a known word. */
  lemma Digit(w: Word, high: Word, v: nat, d: nat)
    requires HighDigits(w) == high && Val(high) == v && LowDigit(w) == d
    ensures Val(w) == 16 * v + d
  {
    hide Val, LowBit, Half;
    ValHalf(w);
    ValHalf(Half(w));
    ValHalf(Half(Half(w)));
    ValHalf(Half(Half(Half(w))));
  }

  lemma ValNothing()
    ensures Val(0) == 0
  {
  }

  lemma PolyHigh()
    ensures Val(0x95AC_9329) == 0x95AC_9329
  {
    hide Val;
    ValNothing();
    Digit(0x9, 0x0, 0x0, 0x9);
    Digit(0x95, 0x9, 0x9, 0x5);
    Digit(0x95A, 0x95, 0x95, 0xA);
    Digit(0x95AC, 0x95A, 0x95A, 0xC);
    Digit(0x0009_5AC9, 0x95AC, 0x95AC, 0x9);
    Digit(0x0095_AC93, 0x0009_5AC9, 0x0009_5AC9, 0x3);
    Digit(0x095A_C932, 0x0095_AC93, 0x0095_AC93, 0x2);
    Digit(0x95AC_9329, 0x095A_C932, 0x095A_C932, 0x9);
  }

  lemma PolyWord()
    ensures Val(0x95AC_9329_AC4B_C9B5) == 0x95AC_9329_AC4B_C9B5
  {
    hide Val;
    PolyHigh();
    Digit(0x0009_5AC9_329A, 0x95AC_9329, 0x95AC_9329, 0xA);
    Digit(0x0095_AC93_29AC, 0x0009_5AC9_329A, 0x0009_5AC9_329A, 0xC);
    Digit(0x095A_C932_9AC4, 0x0095_AC93_29AC, 0x0095_AC93_29AC, 0x4);
    Digit(0x95AC_9329_AC4B, 0x095A_C932_9AC4, 0x095A_C932_9AC4, 0xB);
    Digit(0x0009_5AC9_329A_C4BC, 0x95AC_9329_AC4B, 0x95AC_9329_AC4B, 0xC);
    Digit(0x0095_AC93_29AC_4BC9, 0x0009_5AC9_329A_C4BC, 0x0009_5AC9_329A_C4BC, 0x9);
    Digit(0x095A_C932_9AC4_BC9B, 0x0095_AC93_29AC_4BC9, 0x0095_AC93_29AC_4BC9, 0xB);
    Digit(0x95AC_9329_AC4B_C9B5, 0x095A_C932_9AC4_BC9B, 0x095A_C932_9AC4_BC9B, 0x5);
  }

  lemma CheckHigh()
    ensures Val(0xE9C6_D914) == 0xE9C6_D914
  {
    hide Val;
    ValNothing();
    Digit(0xE, 0x0, 0x0, 0xE);
    Digit(0xE9, 0xE, 0xE, 0x9);
    Digit(0xE9C, 0xE9, 0xE9, 0xC);
    Digit(0xE9C6, 0xE9C, 0xE9C, 0x6);
    Digit(0x000E_9C6D, 0xE9C6, 0xE9C6, 0xD);
    Digit(0x00E9_C6D9, 0x000E_9C6D, 0x000E_9C6D, 0x9);
    Digit(0x0E9C_6D91, 0x00E9_C6D9, 0x00E9_C6D9, 0x1);
    Digit(0xE9C6_D914, 0x0E9C_6D91, 0x0E9C_6D91, 0x4);
  }

  lemma CheckWord()
    ensures Val(0xE9C6_D914_C4B8_D9CA) == 0xE9C6_D914_C4B8_D9CA
  {
    hide Val;
    CheckHigh();
    Digit(0x000E_9C6D_914C, 0xE9C6_D914, 0xE9C6_D914, 0xC);
    Digit(0x00E9_C6D9_14C4, 0x000E_9C6D_914C, 0x000E_9C6D_914C, 0x4);
    Digit(0x0E9C_6D91_4C4B, 0x00E9_C6D9_14C4, 0x00E9_C6D9_14C4, 0xB);
    Digit(0xE9C6_D914_C4B8, 0x0E9C_6D91_4C4B, 0x0E9C_6D91_4C4B, 0x8);
    Digit(0x000E_9C6D_914C_4B8D, 0xE9C6_D914_C4B8, 0xE9C6_D914_C4B8, 0xD);
    Digit(0x00E9_C6D9_14C4_B8D9, 0x000E_9C6D_914C_4B8D, 0x000E_9C6D_914C_4B8D, 0x9);
    Digit(0x0E9C_6D91_4C4B_8D9C, 0x00E9_C6D9_14C4_B8D9, 0x00E9_C6D9_14C4_B8D9, 0xC);
    Digit(0xE9C6_D914_C4B8_D9CA, 0x0E9C_6D91_4C4B_8D9C, 0x0E9C_6D91_4C4B_8D9C, 0xA);
  }

  /** The characters '1' to '9'. */
  lemma Characters()
    ensures Val(0x31) == 49 && Val(0x32) == 50 && Val(0x33) == 51 && Val(0x34) == 52 && Val(0x35) == 53
    ensures Val(0x36) == 54 && Val(0x37) == 55 && Val(0x38) == 56 && Val(0x39) == 57
  {
    hide Val;
    ValNothing();
    Digit(3, 0, 0, 3);
    Digit(0x31, 3, 3, 1);
    Digit(0x32, 3, 3, 2);
    Digit(0x33, 3, 3, 3);
    Digit(0x34, 3, 3, 4);
    Digit(0x35, 3, 3, 5);
    Digit(0x36, 3, 3, 6);
    Digit(0x37, 3, 3, 7);
    Digit(0x38, 3, 3, 8);
    Digit(0x39, 3, 3, 9);
  }

  /** The data of the check value, its first `n` characters. */
  function Data(n: nat): (d: Bytes)
    requires n <= 9
    ensures |d| == n
  {
    seq(n, i requires 0 <= i < n => 49 + i)
  }

  lemma NextCharacter(n: nat, crc: Word, b: Word, next: Word)
    requires n < 9 && Shift8(0x95AC_9329_AC4B_C9B5, crc ^ b) == next && Val(b) == 49 + n
    requires Fold(POLY_REFLECTED, 0, Data(n)) == Val(crc)
    ensures Fold(POLY_REFLECTED, 0, Data(n + 1)) == Val(next)
  {
    hide Update, Val, Shift8, Xor, Steps;
    assert Data(n + 1)[..n] == Data(n);
    UpdateIsSteps(POLY_REFLECTED, Val(crc), 49 + n);
    ValXor(crc, b);
    PolyWord();
    Shift8Is(0x95AC_9329_AC4B_C9B5, crc ^ b);
  }

  lemma NoCharacter()
    ensures Fold(POLY_REFLECTED, 0, Data(0)) == Val(0)
  {
    ValNothing();
  }

  /** The checksum of the characters '1' to '9'. */
  lemma CheckValue()
    ensures Crc64([49, 50, 51, 52, 53, 54, 55, 56, 57]) == 0xE9C6_D914_C4B8_D9CA
  {
    hide Val, Fold;
    Characters();
    NoCharacter();
    NextCharacter(0, 0x0, 0x31, 0xFDC1_7184_A9F7_39FA);
    NextCharacter(1, 0xFDC1_7184_A9F7_39FA, 0x32, 0xE103_6451_3A98_ED96);
    NextCharacter(2, 0xE103_6451_3A98_ED96, 0x33, 0xD5BC_FB81_4479_B1AC);
    NextCharacter(3, 0xD5BC_FB81_4479_B1AC, 0x34, 0x4359_3C5D_CDA5_21F0);
    NextCharacter(4, 0x4359_3C5D_CDA5_21F0, 0x35, 0xF075_8513_239C_7E0D);
    NextCharacter(5, 0xF075_8513_239C_7E0D, 0x36, 0xA3A9_0925_B2AB_4903);
    NextCharacter(6, 0xA3A9_0925_B2AB_4903, 0x37, 0x4782_4D36_2431_AD45);
    NextCharacter(7, 0x4782_4D36_2431_AD45, 0x38, 0x49EC_20B3_15E8_6DC2);
    NextCharacter(8, 0x49EC_20B3_15E8_6DC2, 0x39, 0xE9C6_D914_C4B8_D9CA);
    CheckWord();
    assert Data(9) == [49, 50, 51, 52, 53, 54, 55, 56, 57];
  }
}
