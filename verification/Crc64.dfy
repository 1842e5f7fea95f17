/**
 CRC-64/Jones (src/core/crc64.rs): the table-driven fold, its meaning as shift steps on the reflected
 register, and the bit-by-bit reference that works from the most significant bit.
 */
module Crc64Spec {
  import opened Bits

  const POLY: nat := 0xAD93_D235_94C9_35A9
  const POLY_REFLECTED: nat := 0x95AC_9329_AC4B_C9B5

  // ---- exclusive or as addition without carries ----

  lemma {:induction false} XorZero(a: nat)
    ensures Xor(a, 0) == a && Xor(0, a) == a && Xor(a, a) == 0
  {
    if a > 0 {
      XorZero(a / 2);
      assert 0 / 2 == 0;
    }
  }

  lemma {:induction false} XorComm(a: nat, b: nat)
    ensures Xor(a, b) == Xor(b, a)
    decreases a + b
  {
    if a + b > 0 { XorComm(a / 2, b / 2); }
  }

  lemma {:induction false} XorAssoc(a: nat, b: nat, c: nat)
    ensures Xor(Xor(a, b), c) == Xor(a, Xor(b, c))
    decreases a + b + c
  {
    if a + b + c > 0 {
      XorAssoc(a / 2, b / 2, c / 2);
      XorHalves(a, b);
      XorHalves(b, c);
      XorHalves(Xor(a, b), c);
      XorHalves(a, Xor(b, c));
      var l, r := Xor(Xor(a, b), c), Xor(a, Xor(b, c));
      Parity(a, b, c, Xor(a, b), Xor(b, c));
      assert l == 2 * (l / 2) + l % 2 && r == 2 * (r / 2) + r % 2;
    }
  }

  lemma Parity(a: nat, b: nat, c: nat, ab: nat, bc: nat)
    requires ab % 2 == (a + b) % 2 && bc % 2 == (b + c) % 2
    ensures (ab + c) % 2 == (a + bc) % 2
  {
  }

  /** Two pairs may be regrouped. */
  lemma XorSwap(a: nat, b: nat, c: nat, d: nat)
    ensures Xor(Xor(a, b), Xor(c, d)) == Xor(Xor(a, c), Xor(b, d))
  {
    hide Xor;
    XorAssoc(a, b, Xor(c, d));
    XorAssoc(b, c, d);
    XorComm(b, c);
    XorAssoc(c, b, d);
    XorAssoc(a, c, Xor(b, d));
  }

  // ---- the reflected register, for any feedback polynomial `p` ----

  function Feedback(p: nat, on: bool): nat { if on then p else 0 }

  /** One shift of the reflected register. */
  function Step(p: nat, crc: nat): nat { if crc % 2 == 1 then Xor(crc / 2, p) else crc / 2 }

  function Steps(p: nat, crc: nat, n: nat): nat
    decreases n
  {
    if n == 0 then crc else Steps(p, Step(p, crc), n - 1)
  }

  lemma StepFeedback(p: nat, crc: nat)
    ensures Step(p, crc) == Xor(crc / 2, Feedback(p, crc % 2 == 1))
  {
    XorZero(crc / 2);
  }

  lemma FeedbackSum(p: nat, a: nat, b: nat)
    ensures Xor(Feedback(p, a % 2 == 1), Feedback(p, b % 2 == 1)) == Feedback(p, (a + b) % 2 == 1)
  {
    XorZero(p);
    XorZero(0);
    hide Xor;
  }

  lemma StepLinear(p: nat, a: nat, b: nat)
    ensures Step(p, Xor(a, b)) == Xor(Step(p, a), Step(p, b))
  {
    StepFeedback(p, a);
    StepFeedback(p, b);
    StepFeedback(p, Xor(a, b));
    XorHalves(a, b);
    FeedbackSum(p, a, b);
    XorSwap(a / 2, Feedback(p, a % 2 == 1), b / 2, Feedback(p, b % 2 == 1));
    hide Xor, Feedback, Step;
  }

  lemma {:induction false} StepsLinear(p: nat, a: nat, b: nat, n: nat)
    ensures Steps(p, Xor(a, b), n) == Xor(Steps(p, a, n), Steps(p, b, n))
    decreases n
  {
    hide Step, Xor;
    if n > 0 {
      StepLinear(p, a, b);
      StepsLinear(p, Step(p, a), Step(p, b), n - 1);
    }
  }

  /** Bits above the first `n` are only shifted down. */
  lemma {:induction false} StepsHigh(p: nat, h: nat, n: nat)
    ensures Steps(p, h * Pow2(n), n) == h
    decreases n
  {
    if n > 0 {
      HalfProduct(h, Pow2(n - 1));
      StepsHigh(p, h, n - 1);
    }
  }

  lemma HalfProduct(h: nat, q: nat)
    ensures h * (2 * q) == 2 * (h * q) && (h * (2 * q)) % 2 == 0 && (h * (2 * q)) / 2 == h * q
  {
    assert h * (2 * q) == 2 * (h * q) by {
      MulAssoc(2, h, q);
    }
  }

  lemma {:induction false} XorDisjoint(h: nat, l: nat, n: nat)
    requires l < Pow2(n)
    ensures Xor(h * Pow2(n), l) == h * Pow2(n) + l
    decreases n
  {
    if n == 0 {
      XorZero(h);
    } else {
      var q := Pow2(n - 1);
      HalfProduct(h, q);
      XorDisjoint(h, l / 2, n - 1);
      XorJoin(h * q, l);
    }
  }

  lemma XorJoin(a: nat, l: nat)
    requires Xor(a, l / 2) == a + l / 2
    ensures Xor(2 * a, l) == 2 * a + l
  {
    hide Xor;
    var h, b := l / 2, l % 2;
    assert l == 2 * h + b;
    XorStep(a, 0, h, b);
    assert 2 * a + 0 == 2 * a && (0 + b) % 2 == b;
  }

  lemma StepsJoin(p: nat, h: nat, l: nat, n: nat)
    requires l < Pow2(n)
    ensures Steps(p, h * Pow2(n) + l, n) == Xor(Steps(p, l, n), h)
  {
    hide Xor, Steps, Pow2;
    XorDisjoint(h, l, n);
    StepsLinear(p, h * Pow2(n), l, n);
    StepsHigh(p, h, n);
    XorComm(h, Steps(p, l, n));
  }

  /** Shifting eight times: the low byte goes through the feedback, the high bits come down and are added. */
  lemma StepsSplit(p: nat, crc: nat)
    ensures Steps(p, crc, 8) == Xor(Steps(p, crc % 256, 8), crc / 256)
  {
    hide *;
    SmallPowers();
    StepsJoin(p, crc / 256, crc % 256, 8);
    assert (crc / 256) * 256 + crc % 256 == crc;
  }

  lemma SmallPowers()
    ensures Pow2(4) == 16 && Pow2(8) == 256
  {
    assert Pow2(4) == 16;
  }

  /** A byte's worth of table lookup. */
  function Update(p: nat, crc: nat, b: byte): nat { Xor(Steps(p, Xor(crc, b) % 256, 8), crc / 256) }

  lemma {:induction false} XorHigh(crc: nat, b: nat, n: nat)
    requires b < Pow2(n)
    ensures Xor(crc, b) / Pow2(n) == crc / Pow2(n)
    decreases n
  {
    if n == 0 {
      XorZero(crc);
    } else {
      XorHalves(crc, b);
      XorHigh(crc / 2, b / 2, n - 1);
      DivDiv(Xor(crc, b), Pow2(n - 1));
      DivDiv(crc, Pow2(n - 1));
    }
  }

  lemma DivDiv(x: nat, q: nat)
    requires q > 0
    ensures x / (2 * q) == x / 2 / q
  {
    var d, r := x / 2 / q, x / 2 % q;
    assert x / 2 == q * d + r;
    assert 2 * (q * d) == (2 * q) * d by { MulAssoc(2, q, d); }
    ModUnique(x, 2 * q, d, 2 * r + x % 2);
  }

  /** The table step is eight shifts of the register with the byte added. */
  lemma UpdateIsSteps(p: nat, crc: nat, b: byte)
    ensures Update(p, crc, b) == Steps(p, Xor(crc, b), 8)
  {
    hide Xor, Steps, Pow2;
    SmallPowers();
    StepsSplit(p, Xor(crc, b));
    XorHigh(crc, b, 8);
  }

  function Fold(p: nat, crc: nat, data: Bytes): nat {
    if data == [] then crc else Update(p, Fold(p, crc, data[..|data| - 1]), data[|data| - 1])
  }

  // ---- the reference register of `w` bits, most significant bit first ----

  /** One bit of input: the register shifts up, the top bit and the input bit decide the feedback. */
  function StepUp(q: nat, w: nat, crc: nat, bit: nat): nat
    requires w > 0
  {
    var shifted := 2 * crc % Pow2(w);
    if (crc / Pow2(w - 1) + bit) % 2 == 1 then Xor(shifted, q) else shifted
  }

  /** The lowest `n` bits of `c`, lowest first. */
  function StepsUp(q: nat, w: nat, crc: nat, c: nat, n: nat): nat
    requires w > 0
    decreases n
  {
    if n == 0 then crc else StepsUp(q, w, StepUp(q, w, crc, c % 2), c / 2, n - 1)
  }

  function FoldUp(q: nat, w: nat, crc: nat, data: Bytes): nat
    requires w > 0
  {
    if data == [] then crc else StepsUp(q, w, FoldUp(q, w, crc, data[..|data| - 1]), data[|data| - 1], 8)
  }

  /** The lowest `n` bits in reverse order. */
  function Reverse(x: nat, n: nat): (r: nat)
    ensures r < Pow2(n)
    decreases n
  {
    if n == 0 then 0 else (x % 2) * Pow2(n - 1) + Reverse(x / 2, n - 1)
  }

  // ---- one input bit at a time ----

  /** The reflected register fed one input bit. */
  function StepIn(p: nat, crc: nat, bit: nat): nat { Xor(crc / 2, Feedback(p, (crc + bit) % 2 == 1)) }

  lemma StepInStep(p: nat, crc: nat, c: nat)
    ensures Step(p, Xor(crc, c)) == Xor(StepIn(p, crc, c % 2), c / 2)
  {
    StepFeedback(p, Xor(crc, c));
    XorHalves(crc, c);
    hide Xor, Step;
    var f := Feedback(p, (crc + c % 2) % 2 == 1);
    assert (crc + c % 2) % 2 == (crc + c) % 2;
    hide Feedback;
    XorAssoc(crc / 2, c / 2, f);
    XorComm(c / 2, f);
    XorAssoc(crc / 2, f, c / 2);
  }

  function StepsIn(p: nat, crc: nat, c: nat, n: nat): nat
    decreases n
  {
    if n == 0 then crc else StepsIn(p, StepIn(p, crc, c % 2), c / 2, n - 1)
  }

  /** Feeding the bits one by one is adding the byte first and then shifting. */
  lemma {:induction false} StepsInSteps(p: nat, crc: nat, c: nat, n: nat)
    requires c < Pow2(n)
    ensures StepsIn(p, crc, c, n) == Steps(p, Xor(crc, c), n)
    decreases n
  {
    hide Xor, StepIn, Step;
    if n == 0 {
      XorZero(crc);
    } else {
      StepInStep(p, crc, c);
      StepsInSteps(p, StepIn(p, crc, c % 2), c / 2, n - 1);
    }
  }

  // ---- reversal turns one register into the other ----

  lemma {:induction false} ReverseXor(a: nat, b: nat, n: nat)
    ensures Reverse(Xor(a, b), n) == Xor(Reverse(a, n), Reverse(b, n))
    decreases n
  {
    if n == 0 {
      XorZero(0);
    } else {
      ReverseXor(a / 2, b / 2, n - 1);
      ReverseXorStep(a, b, n);
    }
  }

  lemma ReverseXorStep(a: nat, b: nat, n: nat)
    requires n > 0 && Reverse(Xor(a / 2, b / 2), n - 1) == Xor(Reverse(a / 2, n - 1), Reverse(b / 2, n - 1))
    ensures Reverse(Xor(a, b), n) == Xor(Reverse(a, n), Reverse(b, n))
  {
    hide *;
    XorHalves(a, b);
    ReverseFirst(a, n);
    ReverseFirst(b, n);
    ReverseFirst(Xor(a, b), n);
    ReverseJoin(a % 2, Reverse(a / 2, n - 1), b % 2, Reverse(b / 2, n - 1), n - 1);
    assert (a % 2 + b % 2) % 2 == (a + b) % 2;
  }

  lemma ReverseFirst(x: nat, n: nat)
    requires n > 0
    ensures Reverse(x, n) == (x % 2) * Pow2(n - 1) + Reverse(x / 2, n - 1)
  {
  }

  lemma ReverseJoin(u: nat, x: nat, v: nat, y: nat, n: nat)
    requires u < 2 && v < 2 && x < Pow2(n) && y < Pow2(n)
    ensures Xor(u * Pow2(n) + x, v * Pow2(n) + y) == ((u + v) % 2) * Pow2(n) + Xor(x, y)
  {
    hide Xor;
    XorDisjoint(u, x, n);
    XorDisjoint(v, y, n);
    XorBound(x, y, n);
    XorDisjoint((u + v) % 2, Xor(x, y), n);
    XorSwap(u * Pow2(n), x, v * Pow2(n), y);
    XorTop(u, v, Pow2(n));
  }

  lemma {:induction false} XorBound(x: nat, y: nat, n: nat)
    requires x < Pow2(n) && y < Pow2(n)
    ensures Xor(x, y) < Pow2(n)
    decreases n
  {
    if n > 0 { XorBound(x / 2, y / 2, n - 1); }
  }

  lemma XorTop(u: nat, v: nat, q: nat)
    requires u < 2 && v < 2
    ensures Xor(u * q, v * q) == ((u + v) % 2) * q
  {
    XorZero(q);
    XorZero(0);
    hide Xor;
    assert (u == 0 || u == 1) && (v == 0 || v == 1);
    assert 1 * q == q && 0 * q == 0;
  }

  /** The lowest bit of the reversal is the highest bit; dropping it drops that bit. */
  lemma {:induction false} ReverseLow(x: nat, n: nat)
    requires n > 0 && x < Pow2(n)
    ensures Reverse(x, n) % 2 == x / Pow2(n - 1)
    ensures Reverse(x, n) / 2 == Reverse(x % Pow2(n - 1), n - 1)
    decreases n
  {
    if n == 1 {
      assert Pow2(0) == 1 && Pow2(1) == 2;
      assert Reverse(x / 2, 0) == 0 && Reverse(0, 0) == 0;
    } else {
      var q := Pow2(n - 2);
      ReverseLow(x / 2, n - 1);
      DivDiv(x, q);
      HalfMod(x, q);
      ReverseLowStep(x, n, q);
    }
  }

  lemma ReverseLowStep(x: nat, n: nat, q: nat)
    requires n >= 2 && q == Pow2(n - 2)
    requires Reverse(x / 2, n - 1) / 2 == Reverse(x / 2 % q, n - 2)
    requires x % (2 * q) / 2 == x / 2 % q && x % (2 * q) % 2 == x % 2
    ensures Reverse(x, n) % 2 == Reverse(x / 2, n - 1) % 2
    ensures Reverse(x, n) / 2 == Reverse(x % (2 * q), n - 1)
  {
    hide Reverse;
    HalfProduct(x % 2, q);
    ReverseFirst(x, n);
    ReverseFirst(x % (2 * q), n - 1);
    ShiftedSum(Reverse(x, n), Reverse(x / 2, n - 1), (x % 2) * q);
  }

  lemma ShiftedSum(s: nat, r: nat, k: nat)
    requires s == 2 * k + r
    ensures s % 2 == r % 2 && s / 2 == k + r / 2
  {
  }

  lemma HalfMod(x: nat, q: nat)
    requires q > 0
    ensures x % (2 * q) / 2 == x / 2 % q && x % (2 * q) % 2 == x % 2
  {
    var d, r := x / 2 / q, x / 2 % q;
    assert x / 2 == q * d + r;
    assert 2 * (q * d) == (2 * q) * d by { MulAssoc(2, q, d); }
    ModUnique(x, 2 * q, d, 2 * r + x % 2);
  }

  /** Reversing a register shifted up is the reversed register shifted down. */
  lemma ReverseShift(x: nat, n: nat)
    requires n > 0 && x < Pow2(n)
    ensures Reverse(2 * x % Pow2(n), n) == Reverse(x, n) / 2
  {
    ReverseLow(x, n);
    ReverseDoubled(x, n, Pow2(n - 1));
    hide Reverse;
  }

  lemma ReverseDoubled(x: nat, n: nat, q: nat)
    requires n > 0 && q > 0
    ensures Reverse(2 * x % (2 * q), n) == Reverse(x % q, n - 1)
  {
    hide *;
    DoubledMod(x, q);
    ReverseEven(2 * x % (2 * q), n);
  }

  lemma DoubledMod(x: nat, q: nat)
    requires q > 0
    ensures 2 * x % (2 * q) % 2 == 0 && 2 * x % (2 * q) / 2 == x % q
  {
    HalfMod(2 * x, q);
    assert 2 * x / 2 == x;
  }

  lemma ReverseEven(y: nat, n: nat)
    requires n > 0 && y % 2 == 0
    ensures Reverse(y, n) == Reverse(y / 2, n - 1)
  {
    assert 0 * Pow2(n - 1) == 0;
  }

  lemma StepUpReverses(q: nat, w: nat, crc: nat, bit: nat)
    requires w > 0 && crc < Pow2(w) && q < Pow2(w) && bit < 2
    ensures StepUp(q, w, crc, bit) < Pow2(w)
    ensures Reverse(StepUp(q, w, crc, bit), w) == StepIn(Reverse(q, w), Reverse(crc, w), bit)
  {
    hide Xor, Reverse, Pow2;
    var shifted := 2 * crc % Pow2(w);
    var r := Reverse(crc, w);
    ReverseShift(crc, w);
    ReverseLow(crc, w);
    ReverseXor(shifted, q, w);
    XorBound(shifted, q, w);
    XorZero(r / 2);
    ParityOf(r, bit);
  }

  lemma ParityOf(r: nat, bit: nat)
    ensures (r + bit) % 2 == (r % 2 + bit) % 2
  {
  }

  lemma {:induction false} StepsUpReverses(q: nat, w: nat, crc: nat, c: nat, n: nat)
    requires w > 0 && crc < Pow2(w) && q < Pow2(w)
    ensures StepsUp(q, w, crc, c, n) < Pow2(w)
    ensures Reverse(StepsUp(q, w, crc, c, n), w) == StepsIn(Reverse(q, w), Reverse(crc, w), c, n)
    decreases n
  {
    hide StepUp, StepIn, Reverse, Pow2;
    if n > 0 {
      StepUpReverses(q, w, crc, c % 2);
      StepsUpReverses(q, w, StepUp(q, w, crc, c % 2), c / 2, n - 1);
    }
  }

  /** The table-driven fold is the reversal of the bit-by-bit one, whatever the polynomial and the width. */
  lemma {:induction false} FoldReverses(q: nat, w: nat, crc: nat, data: Bytes)
    requires w > 0 && crc < Pow2(w) && q < Pow2(w)
    ensures FoldUp(q, w, crc, data) < Pow2(w)
    ensures Fold(Reverse(q, w), Reverse(crc, w), data) == Reverse(FoldUp(q, w, crc, data), w)
    decreases |data|
  {
    hide Update, StepsUp, Reverse;
    if data != [] {
      var d, b := data[..|data| - 1], data[|data| - 1];
      FoldReverses(q, w, crc, d);
      var up := FoldUp(q, w, crc, d);
      StepsUpReverses(q, w, up, b, 8);
      SmallPowers();
      StepsInSteps(Reverse(q, w), Reverse(up, w), b, 8);
      UpdateIsSteps(Reverse(q, w), Reverse(up, w), b);
    }
  }

  // ---- the polynomial of the format ----

  lemma {:induction false} ReverseSplit(h: nat, l: nat, n: nat, m: nat)
    requires l < Pow2(m)
    ensures Reverse(h * Pow2(m) + l, n + m) == Reverse(l, m) * Pow2(n) + Reverse(h, n)
    decreases m
  {
    if m == 0 {
      assert h * Pow2(0) + l == h;
    } else {
      ReverseSplit(h, l / 2, n, m - 1);
      ReverseSplitStep(h, l, n, m, Pow2(m - 1));
    }
  }

  lemma ReverseSplitStep(h: nat, l: nat, n: nat, m: nat, q: nat)
    requires m > 0 && q == Pow2(m - 1)
    requires Reverse(h * q + l / 2, n + m - 1) == Reverse(l / 2, m - 1) * Pow2(n) + Reverse(h, n)
    ensures Reverse(h * (2 * q) + l, n + m) == Reverse(l, m) * Pow2(n) + Reverse(h, n)
  {
    hide *;
    JoinedHalves(h, q, l);
    Pow2Add(m - 1, n);
    ReverseFirst(h * (2 * q) + l, n + m);
    ReverseFirst(l, m);
    SplitSum(l % 2, q, Pow2(n), Reverse(l / 2, m - 1));
  }

  lemma JoinedHalves(h: nat, q: nat, l: nat)
    ensures (h * (2 * q) + l) % 2 == l % 2 && (h * (2 * q) + l) / 2 == h * q + l / 2
  {
    HalfProduct(h, q);
  }

  lemma SplitSum(u: nat, q: nat, p: nat, a: nat)
    ensures u * (q * p) + a * p == (u * q + a) * p
  {
    Distribute(u * q, a, p);
    MulAssoc(u, q, p);
  }

  lemma Distribute(a: nat, b: nat, c: nat)
    ensures (a + b) * c == a * c + b * c
  {
  }

  lemma ReversePoly()
    ensures Reverse(POLY, 64) == POLY_REFLECTED
  {
    Powers();
    Bytewise();
    hide Reverse, Pow2;
    ReverseSplit(0xAD, 0x93, 8, 8);
    ReverseSplit(0xD2, 0x35, 8, 8);
    ReverseSplit(0x94, 0xC9, 8, 8);
    ReverseSplit(0x35, 0xA9, 8, 8);
    ReverseSplit(0xAD93, 0xD235, 16, 16);
    ReverseSplit(0x94C9, 0x35A9, 16, 16);
    ReverseSplit(0xAD93_D235, 0x94C9_35A9, 32, 32);
  }

  lemma Powers()
    ensures Pow2(8) == 0x100 && Pow2(16) == 0x1_0000 && Pow2(32) == 0x1_0000_0000
    ensures Pow2(63) == 0x8000_0000_0000_0000 && Pow2(64) == 0x1_0000_0000_0000_0000
  {
    assert Pow2(4) == 16;
    Pow2Add(4, 4);
    Pow2Add(8, 8);
    Pow2Add(16, 16);
    Pow2Add(32, 32);
    assert Pow2(64) == 2 * Pow2(63);
  }

  lemma Nibble(x: nat)
    requires x < 16
    ensures Reverse(x, 4) == 8 * (x % 2) + 4 * (x / 2 % 2) + 2 * (x / 4 % 2) + x / 8
  {
    TinyPowers();
    hide Reverse, Pow2;
    ReverseFirst(x, 4);
    ReverseFirst(x / 2, 3);
    ReverseFirst(x / 4, 2);
    ReverseFirst(x / 8, 1);
    assert x / 2 / 2 == x / 4 && x / 4 / 2 == x / 8 && x / 8 % 2 == x / 8;
    ReverseNone(x / 8 / 2);
  }

  lemma TinyPowers()
    ensures Pow2(3) == 8 && Pow2(2) == 4 && Pow2(1) == 2 && Pow2(0) == 1
  {
  }

  lemma ReverseNone(x: nat)
    ensures Reverse(x, 0) == 0
  {
  }

  lemma ByteReversed(h: nat, l: nat)
    requires h < 16 && l < 16
    ensures Reverse(16 * h + l, 8) == 16 * Reverse(l, 4) + Reverse(h, 4)
  {
    hide *;
    SmallPowers();
    ReverseSplit(h, l, 4, 4);
  }

  lemma Bytewise()
    ensures Reverse(0xAD, 8) == 0xB5 && Reverse(0x93, 8) == 0xC9 && Reverse(0xD2, 8) == 0x4B && Reverse(0x35, 8) == 0xAC
    ensures Reverse(0x94, 8) == 0x29 && Reverse(0xC9, 8) == 0x93 && Reverse(0xA9, 8) == 0x95
  {
    hide Reverse;
    Nibble(2);
    Nibble(3);
    Nibble(4);
    Nibble(5);
    Nibble(9);
    Nibble(0xA);
    Nibble(0xC);
    Nibble(0xD);
    ByteReversed(0xA, 0xD);
    ByteReversed(9, 3);
    ByteReversed(0xD, 2);
    ByteReversed(3, 5);
    ByteReversed(9, 4);
    ByteReversed(0xC, 9);
    ByteReversed(0xA, 9);
  }

  /** The checksum of the DUMP footer. */
  function Crc64(data: Bytes): nat { Fold(POLY_REFLECTED, 0, data) }

  /** The fast checksum equals the bit-by-bit reference followed by its final reversal, for every input. */
  lemma Crc64IsReference(data: Bytes)
    ensures Crc64(data) == Reverse(FoldUp(POLY, 64, 0, data), 64)
  {
    Powers();
    ReversePoly();
    ReverseNothing(64);
    hide Reverse, Fold, FoldUp, Pow2;
    FoldReverses(POLY, 64, 0, data);
  }

  lemma {:induction false} ReverseNothing(n: nat)
    ensures Reverse(0, n) == 0
  {
    if n > 0 { ReverseNothing(n - 1); }
  }
}

/** The loops of src/core/crc64.rs, against the folds above. */
module Crc64 {
  import opened Bits
  import opened Crc64Spec

  method BuildTable() returns (table: seq<nat>)
    ensures |table| == 256 && forall i :: 0 <= i < 256 ==> table[i] == Steps(POLY_REFLECTED, i, 8)
  {
    hide Steps;
    table := [];
    for i := 0 to 256
      invariant |table| == i && forall j :: 0 <= j < i ==> table[j] == Steps(POLY_REFLECTED, j, 8)
    {
      var crc := Shifted(POLY_REFLECTED, i, 8);
      table := table + [crc];
    }
  }

  method Shifted(p: nat, start: nat, n: nat) returns (crc: nat)
    ensures crc == Steps(p, start, n)
  {
    crc := start;
    for b := 0 to n
      invariant Steps(p, crc, n - b) == Steps(p, start, n)
    {
      crc := Step(p, crc);
    }
  }

  method Checksum(data: Bytes) returns (crc: nat)
    ensures crc == Crc64Spec.Crc64(data)
  {
    hide Steps;
    var table := BuildTable();
    crc := 0;
    for i := 0 to |data|
      invariant crc == Fold(POLY_REFLECTED, 0, data[..i])
    {
      assert data[..i + 1][..i] == data[..i];
      var b: nat := data[i];
      crc := Xor(table[Xor(crc, b) % 256], crc / 256);
    }
    assert data[..|data|] == data;
  }

  /** The reference: eight input bits per byte, lowest first, into the top of the register. */
  method ChecksumBitwise(data: Bytes) returns (crc: nat)
    ensures crc == Reverse(FoldUp(POLY, 64, 0, data), 64)
    ensures crc == Crc64Spec.Crc64(data)
  {
    hide StepUp, Reverse;
    var up := 0;
    for i := 0 to |data|
      invariant up == FoldUp(POLY, 64, 0, data[..i])
    {
      assert data[..i + 1][..i] == data[..i];
      up := Fed(up, data[i]);
    }
    assert data[..|data|] == data;
    Crc64IsReference(data);
    crc := Reverse(up, 64);
  }

  method Fed(start: nat, c: byte) returns (up: nat)
    ensures up == StepsUp(POLY, 64, start, c, 8)
  {
    hide StepUp;
    up := start;
    var bits: nat := c;
    for i := 0 to 8
      invariant StepsUp(POLY, 64, up, bits, 8 - i) == StepsUp(POLY, 64, start, c, 8)
    {
      up := StepUp(POLY, 64, up, bits % 2);
      bits := bits / 2;
    }
  }
}
