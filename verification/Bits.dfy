/**
 Machine-word vocabulary shared by the storage structures: bytes, powers of two, and bitwise
 exclusive-or written out on natural numbers, with the two laws that power-of-two tables rely on.
 */
module Bits {

  type byte = x: int | 0 <= x < 256

  type Bytes = seq<byte>

  const TWO32: nat := 0x1_0000_0000
  const TWO64: nat := 0x1_0000_0000_0000_0000

  function Min(a: int, b: int): int { if a <= b then a else b }

  function Zeros(n: nat): (z: Bytes)
    ensures |z| == n && forall i :: 0 <= i < n ==> z[i] == 0
  {
    seq(n, i => 0)
  }

  datatype Option<+T> = None | Some(value: T)

  function Pow2(k: nat): (p: nat)
    ensures p >= 1
  {
    if k == 0 then 1 else 2 * Pow2(k - 1)
  }

  ghost predicate IsPow2(n: nat) {
    exists k: nat :: n == Pow2(k)
  }

  function Power(b: nat, e: nat): nat {
    if e == 0 then 1 else b * Power(b, e - 1)
  }

  /** Bitwise exclusive-or: the two low bits are added without carry, then the rest. */
  function Xor(a: nat, b: nat): nat
    decreases a + b
  {
    if a == 0 && b == 0 then 0 else 2 * Xor(a / 2, b / 2) + (a + b) % 2
  }

  lemma XorStep(a: nat, p: nat, b: nat, q: nat)
    requires p < 2 && q < 2
    ensures Xor(2 * a + p, 2 * b + q) == 2 * Xor(a, b) + (p + q) % 2
  {
    var x, y := 2 * a + p, 2 * b + q;
    assert x / 2 == a && y / 2 == b && (x + y) % 2 == (p + q) % 2;
  }

  lemma {:induction false} XorInvolution(a: nat, b: nat)
    ensures Xor(Xor(a, b), b) == a
    decreases a + b
  {
    if a == 0 && b == 0 {
      XorNothing();
    } else {
      hide Xor;
      var x, p, y, q := a / 2, a % 2, b / 2, b % 2;
      XorInvolution(x, y);
      assert a == 2 * x + p && b == 2 * y + q;
      XorStep(x, p, y, q);
      XorBack(x, p, y, q, Xor(x, y));
    }
  }

  lemma XorBack(a: nat, p: nat, b: nat, q: nat, y: nat)
    requires p < 2 && q < 2 && Xor(y, b) == a
    ensures Xor(2 * y + (p + q) % 2, 2 * b + q) == 2 * a + p
  {
    hide Xor;
    XorStep(y, (p + q) % 2, b, q);
    assert ((p + q) % 2 + q) % 2 == p;
  }

  lemma MultipleBounds(m: nat, d: int)
    ensures d >= 1 ==> m * d >= m
    ensures d <= -1 ==> m * d <= 0 - m
  {
    if d >= 1 {
      assert m * d == m + m * (d - 1);
    } else if d <= -1 {
      assert m * d == m * (d + 1) - m;
    }
  }

  lemma ModUnique(x: int, m: nat, q: int, r: int)
    requires 0 <= r < m && x == m * q + r
    ensures x % m == r && x / m == q
  {
    DivisionUnique(m, x / m, x % m, q, r);
  }

  lemma DivisionUnique(m: nat, q: int, r: int, q': int, r': int)
    requires 0 <= r < m && 0 <= r' < m && m * q + r == m * q' + r'
    ensures q == q' && r == r'
  {
    assert m * (q - q') == m * q - m * q';
    MultipleBounds(m, q - q');
  }

  lemma HalveMod(x: nat, p: nat, m: nat)
    requires m >= 1 && p < 2
    ensures (2 * x + p) % (2 * m) == 2 * (x % m) + p
  {
    var q, r := x / m, x % m;
    assert (2 * m) * q == 2 * (m * q);
    ModUnique(2 * x + p, 2 * m, q, 2 * r + p);
  }

  lemma XorNothing()
    ensures Xor(0, 0) == 0
  {
  }

  /** A power-of-two mask commutes with exclusive-or. */
  lemma {:induction false} XorMod(a: nat, b: nat, k: nat)
    ensures Xor(a, b) % Pow2(k) == Xor(a % Pow2(k), b % Pow2(k))
  {
    if k == 0 {
      XorNothing();
    } else {
      XorMod(a / 2, b / 2, k - 1);
      XorModStep(a, b, Pow2(k - 1));
    }
  }

  lemma XorModStep(a: nat, b: nat, m: nat)
    requires m >= 1 && Xor(a / 2, b / 2) % m == Xor(a / 2 % m, b / 2 % m)
    ensures Xor(a, b) % (2 * m) == Xor(a % (2 * m), b % (2 * m))
  {
    hide Xor;
    HalvedMod(a, m);
    HalvedMod(b, m);
    HalvedMod(Xor(a, b), m);
    XorHalves(a, b);
    XorJoined(a % (2 * m), b % (2 * m), a / 2 % m, a % 2, b / 2 % m, b % 2);
    ParitySum(a, b);
  }

  lemma ParitySum(a: nat, b: nat)
    ensures (a % 2 + b % 2) % 2 == (a + b) % 2
  {
  }

  lemma HalvedMod(x: nat, m: nat)
    requires m >= 1
    ensures x % (2 * m) == 2 * (x / 2 % m) + x % 2
  {
    HalveMod(x / 2, x % 2, m);
  }

  lemma XorHalves(a: nat, b: nat)
    ensures Xor(a, b) / 2 == Xor(a / 2, b / 2) && Xor(a, b) % 2 == (a + b) % 2
  {
    hide Xor;
    var x, p, y, q := a / 2, a % 2, b / 2, b % 2;
    assert a == 2 * x + p && b == 2 * y + q && (p + q) % 2 == (a + b) % 2;
    XorStep(x, p, y, q);
  }

  lemma XorJoined(a: nat, b: nat, x: nat, p: nat, y: nat, q: nat)
    requires p < 2 && q < 2 && a == 2 * x + p && b == 2 * y + q
    ensures Xor(a, b) == 2 * Xor(x, y) + (p + q) % 2
  {
    hide Xor;
    XorStep(x, p, y, q);
  }

  lemma ModMod(x: nat, m: nat, c: nat)
    requires m >= 1 && c >= 1
    ensures m * c >= 1 && (x % (m * c)) % m == x % m
  {
    var n := m * c;
    assert n >= 1 by { assert m * c >= m * 1; }
    var q, r := x / n, x % n;
    assert r == m * (r / m) + r % m;
    assert x == m * (c * q + r / m) + r % m by {
      assert x == n * q + r;
      assert n * q == m * (c * q);
    }
    ModUnique(x, m, c * q + r / m, r % m);
  }

  lemma {:induction false} Pow2Add(i: nat, j: nat)
    ensures Pow2(i + j) == Pow2(i) * Pow2(j)
  {
    if i > 0 {
      Pow2Add(i - 1, j);
      assert Pow2(i + j) == 2 * Pow2(i - 1 + j);
    }
  }

  lemma {:induction false} PowerPow2(b: nat, e: nat)
    requires IsPow2(b)
    ensures IsPow2(Power(b, e))
  {
    if e == 0 {
      assert Power(b, e) == Pow2(0);
    } else {
      PowerPow2(b, e - 1);
      Pow2Product(b, Power(b, e - 1));
    }
  }

  lemma MulAssoc(a: int, b: int, c: int)
    ensures a * (b * c) == (a * b) * c
  {
  }

  lemma Pow2Product(a: nat, b: nat)
    requires IsPow2(a) && IsPow2(b)
    ensures IsPow2(a * b)
  {
    var i: nat :| a == Pow2(i);
    var j: nat :| b == Pow2(j);
    Pow2Add(i, j);
  }

  lemma XorLowBits(a: nat, m: nat, k: nat)
    ensures Xor(a % Pow2(k), m) % Pow2(k) == Xor(a, m) % Pow2(k)
  {
    XorMod(a % Pow2(k), m, k);
    XorMod(a, m, k);
    assert a % Pow2(k) % Pow2(k) == a % Pow2(k) by { ModMod(a, Pow2(k), 1); }
  }

  lemma {:induction false} Pow2Doubles(i: nat, j: nat)
    requires i < j
    ensures 2 * Pow2(i) <= Pow2(j)
    decreases j
  {
    if i + 1 < j {
      Pow2Doubles(i, j - 1);
    }
  }
}
