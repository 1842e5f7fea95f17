/**
 Fixed-width integers as bytes, little- and big-endian, and two's complement, each with its inverse.
 */
module Words {
  import opened Bits

  function Low(v: nat): (b: byte)
    ensures b == v % 256
  {
    v % 256
  }

  function Shifted(hi: nat, lo: nat): nat { 256 * hi + lo }

  function Le(v: nat, k: nat): (b: Bytes)
    ensures |b| == k
  {
    if k == 0 then [] else [Low(v)] + Le(v / 256, k - 1)
  }

  function FromLe(b: Bytes): nat {
    if b == [] then 0 else Shifted(FromLe(b[1..]), b[0])
  }

  function Be(v: nat, k: nat): (b: Bytes)
    ensures |b| == k
  {
    if k == 0 then [] else Be(v / 256, k - 1) + [Low(v)]
  }

  function FromBe(b: Bytes): nat {
    if b == [] then 0 else Shifted(FromBe(b[..|b| - 1]), b[|b| - 1])
  }

  lemma {:induction false} FromLeBound(b: Bytes)
    ensures FromLe(b) < Power(256, |b|)
  {
    if b != [] { FromLeBound(b[1..]); }
  }

  lemma {:induction false} LeInverse(v: nat, k: nat)
    requires v < Power(256, k)
    ensures FromLe(Le(v, k)) == v
  {
    if k > 0 {
      LeInverse(v / 256, k - 1);
      assert Le(v, k)[1..] == Le(v / 256, k - 1);
    }
  }

  lemma {:induction false} BeInverse(v: nat, k: nat)
    requires v < Power(256, k)
    ensures FromBe(Be(v, k)) == v
  {
    if k > 0 {
      BeInverse(v / 256, k - 1);
      assert Be(v, k)[..k - 1] == Be(v / 256, k - 1);
    }
  }

  /** The widths in use, spelled out. */
  lemma Widths()
    ensures Power(256, 1) == 0x100 && Power(256, 2) == 0x1_0000 && Power(256, 3) == 0x100_0000
    ensures Power(256, 4) == 0x1_0000_0000 && Power(256, 5) == 0x100_0000_0000
    ensures Power(256, 8) == 0x1_0000_0000_0000_0000
  {
    assert Power(256, 2) == 256 * Power(256, 1);
    assert Power(256, 4) == 256 * Power(256, 3);
    assert Power(256, 6) == 256 * Power(256, 5);
    assert Power(256, 8) == 256 * Power(256, 7);
  }

  // ---- two's complement ----

  /** `v` reduced to an unsigned word below `m`. */
  function Wrap(v: int, m: nat): (u: nat)
    requires m > 0
    ensures u < m
  {
    v % m
  }

  /** The signed value of word `u`. */
  function Signed(u: nat, m: nat): int { if 2 * u >= m then u - m else u }

  predicate Fits(v: int, m: nat) { 0 - m <= 2 * v < m }

  lemma SignedWrap(v: int, m: nat)
    requires m > 0 && Fits(v, m)
    ensures Signed(Wrap(v, m), m) == v
  {
    if v < 0 {
      ModUnique(v, m, -1, v + m);
    } else {
      ModUnique(v, m, 0, v);
    }
  }

  predicate IsI64(v: int) { Fits(v, TWO64) }
}
