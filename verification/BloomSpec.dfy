/**
 The scalable bloom filter (src/core/bloom.rs): membership in a growing list of bit arrays, and the
 chunked dump and load protocol. Hashing, the sizing formulas and the floating-point checks are inputs.
 */
module BloomSpec {
  import opened Bits


  // ---- bits of a byte ----

  predicate Bit(b: nat, k: nat) { if k == 0 then b % 2 == 1 else Bit(b / 2, k - 1) }

  function WithBit(b: nat, k: nat): nat {
    if k == 0 then (if b % 2 == 1 then b else b + 1) else 2 * WithBit(b / 2, k - 1) + b % 2
  }

  lemma {:induction false} WithBitAt(b: nat, k: nat, j: nat)
    ensures Bit(WithBit(b, k), j) <==> j == k || Bit(b, j)
    decreases k
  {
    var w := WithBit(b, k);
    if k == 0 {
      assert w / 2 == b / 2;
    } else {
      assert w / 2 == WithBit(b / 2, k - 1) && w % 2 == b % 2;
      if j > 0 {
        WithBitAt(b / 2, k - 1, j - 1);
      }
    }
  }

  lemma {:induction false} WithBitSame(b: nat, k: nat)
    ensures WithBit(b, k) == b <==> Bit(b, k)
    decreases k
  {
    if k > 0 { WithBitSame(b / 2, k - 1); }
  }

  lemma {:induction false} WithBitBound(b: nat, k: nat, n: nat)
    requires k < n && b < Pow2(n)
    ensures WithBit(b, k) < Pow2(n)
    decreases k
  {
    hide WithBit, Pow2;
    var half := Pow2(n - 1);
    Halves(b, k, n);
    if k > 0 {
      WithBitBound(b / 2, k - 1, n - 1);
    }
  }

  lemma Halves(b: nat, k: nat, n: nat)
    requires n > 0 && b < Pow2(n)
    ensures Pow2(n) == 2 * Pow2(n - 1) && b / 2 < Pow2(n - 1)
    ensures k == 0 ==> WithBit(b, k) <= 2 * (b / 2) + 1
    ensures k > 0 ==> WithBit(b, k) <= 2 * WithBit(b / 2, k - 1) + 1
  {
    hide WithBit;
    WithBitStep(b, k);
  }

  lemma WithBitStep(b: nat, k: nat)
    ensures WithBit(b, k) == if k == 0 then (if b % 2 == 1 then b else b + 1) else 2 * WithBit(b / 2, k - 1) + b % 2
  {
  }

  function SetInByte(b: byte, k: nat): (r: byte)
    requires k < 8
  {
    assert Pow2(8) == 256 by {
      assert Pow2(4) == 16;
    }
    WithBitBound(b, k, 8);
    WithBit(b, k)
  }

  // ---- one filter ----

  predicate PowerOfTwo(n: nat) { n == 1 || (n > 1 && n % 2 == 0 && PowerOfTwo(n / 2)) }

  datatype Filter = Filter(hashCnt: nat, bits: Bytes)

  /** A fingerprint: the two halves of the 128-bit hash. */
  datatype Fp = Fp(low: nat, high: nat)

  predicate FilterOk(f: Filter) {
    1 <= f.hashCnt <= 255 && f.bits != [] && PowerOfTwo(|f.bits|) && |f.bits| < TWO64
  }

  /** Bit `i` of a fingerprint; masking with the power-of-two bit length is reduction modulo it. */
  function BitIndex(fp: Fp, i: nat, bitlen: nat): (k: nat)
    requires bitlen > 0
    ensures k < bitlen
  {
    (fp.low + fp.high * i) % TWO64 % bitlen
  }

  predicate IsSet(bits: Bytes, k: nat)
    requires k < 8 * |bits|
  {
    Bit(bits[k / 8], k % 8)
  }

  function SetBit(bits: Bytes, k: nat): (r: Bytes)
    requires k < 8 * |bits|
    ensures |r| == |bits|
  {
    bits[k / 8 := SetInByte(bits[k / 8], k % 8)]
  }

  lemma SetBitAt(bits: Bytes, k: nat, j: nat)
    requires k < 8 * |bits| && j < 8 * |bits|
    ensures IsSet(SetBit(bits, k), j) <==> j == k || IsSet(bits, j)
  {
    WithBitAt(bits[k / 8], k % 8, j % 8);
    assert j == 8 * (j / 8) + j % 8 && k == 8 * (k / 8) + k % 8;
  }

  predicate Present(f: Filter, fp: Fp)
    requires f.bits != []
  {
    forall i :: 0 <= i < f.hashCnt ==> IsSet(f.bits, BitIndex(fp, i, 8 * |f.bits|))
  }

  /** The bits after setting the first `n` positions of `fp`. */
  function Marked(bits: Bytes, fp: Fp, n: nat): (r: Bytes)
    requires bits != []
    ensures |r| == |bits|
  {
    if n == 0 then bits else SetBit(Marked(bits, fp, n - 1), BitIndex(fp, n - 1, 8 * |bits|))
  }

  lemma {:induction false} MarkedAt(bits: Bytes, fp: Fp, n: nat, j: nat)
    requires bits != [] && j < 8 * |bits|
    ensures IsSet(Marked(bits, fp, n), j) <==>
            IsSet(bits, j) || exists i :: 0 <= i < n && BitIndex(fp, i, 8 * |bits|) == j
  {
    if n > 0 {
      MarkedAt(bits, fp, n - 1, j);
      SetBitAt(Marked(bits, fp, n - 1), BitIndex(fp, n - 1, 8 * |bits|), j);
    }
  }

  function Added(f: Filter, fp: Fp): (r: Filter)
    requires f.bits != []
    ensures |r.bits| == |f.bits| && r.hashCnt == f.hashCnt
  {
    f.(bits := Marked(f.bits, fp, f.hashCnt))
  }

  /** Adding makes the item present and loses no other. */
  lemma AddedPresent(f: Filter, fp: Fp, other: Fp)
    requires f.bits != []
    ensures Present(Added(f, fp), fp)
    ensures Present(f, other) ==> Present(Added(f, fp), other)
  {
    var n := 8 * |f.bits|;
    forall i | 0 <= i < f.hashCnt
      ensures IsSet(Added(f, fp).bits, BitIndex(fp, i, n))
      ensures Present(f, other) ==> IsSet(Added(f, fp).bits, BitIndex(other, i, n))
    {
      MarkedAt(f.bits, fp, f.hashCnt, BitIndex(fp, i, n));
      MarkedAt(f.bits, fp, f.hashCnt, BitIndex(other, i, n));
    }
  }

  lemma {:induction false} BitMeans(b: nat, k: nat)
    ensures Bit(b, k) <==> b / Pow2(k) % 2 == 1
    decreases k
  {
    if k == 0 {
      assert b / 1 == b;
    } else {
      BitMeans(b / 2, k - 1);
      HalfThenRest(b, Pow2(k - 1));
    }
  }

  lemma HalfThenRest(b: nat, q: nat)
    requires q > 0
    ensures b / (2 * q) == b / 2 / q
  {
    var d, r := b / 2 / q, b / 2 % q;
    assert b == 2 * (q * d + r) + b % 2;
    assert 2 * (q * d) == (2 * q) * d;
    ModUnique(b, 2 * q, d, 2 * r + b % 2);
  }

  /** Position `j` is one of the `n` double-hashing positions of `fp`, in 64-bit arithmetic and masked to `len` bits. */
  ghost predicate Hashed(fp: Fp, n: nat, len: nat, j: nat)
    requires len > 0
  {
    exists i :: 0 <= i < n && j == (fp.low + i * fp.high) % 0x1_0000_0000_0000_0000 % len
  }

  /** After one add to an empty filter, exactly the hashed bits are set; bit `j` is bit `j % 8`, counted from the lowest, of byte `j / 8`. */
  lemma FreshBits(f: Filter, fp: Fp, j: nat)
    requires f.bits != [] && f.bits == Zeros(|f.bits|) && j < 8 * |f.bits|
    ensures Added(f, fp).bits[j / 8] / Pow2(j % 8) % 2 == 1 <==> Hashed(fp, f.hashCnt, 8 * |f.bits|, j)
  {
    hide Pow2, Bit, Marked;
    MarkedAt(f.bits, fp, f.hashCnt, j);
    BitMeans(Added(f, fp).bits[j / 8], j % 8);
    NoBit(j % 8);
    var n, len := f.hashCnt, 8 * |f.bits|;
    forall i: nat
      ensures BitIndex(fp, i, len) == (fp.low + i * fp.high) % 0x1_0000_0000_0000_0000 % len
    {
      assert fp.high * i == i * fp.high;
    }
    if i :| 0 <= i < n && BitIndex(fp, i, len) == j {
      assert j == (fp.low + i * fp.high) % 0x1_0000_0000_0000_0000 % len;
    }
    if i :| 0 <= i < n && j == (fp.low + i * fp.high) % 0x1_0000_0000_0000_0000 % len {
      assert BitIndex(fp, i, len) == j;
    }
  }

  lemma {:induction false} NoBit(k: nat)
    ensures !Bit(0, k)
    decreases k
  {
    if k > 0 { NoBit(k - 1); }
  }

  /** Adding changes something exactly when the item was not present. */
  lemma {:induction false} MarkedSame(bits: Bytes, fp: Fp, n: nat)
    requires bits != []
    ensures Marked(bits, fp, n) == bits <==> forall i :: 0 <= i < n ==> IsSet(bits, BitIndex(fp, i, 8 * |bits|))
  {
    if forall i :: 0 <= i < n ==> IsSet(bits, BitIndex(fp, i, 8 * |bits|)) {
      if n > 0 {
        MarkedSame(bits, fp, n - 1);
        var k := BitIndex(fp, n - 1, 8 * |bits|);
        WithBitSame(bits[k / 8], k % 8);
        assert SetBit(bits, k) == bits;
      }
    } else {
      var i :| 0 <= i < n && !IsSet(bits, BitIndex(fp, i, 8 * |bits|));
      MarkedAt(bits, fp, n, BitIndex(fp, i, 8 * |bits|));
    }
  }

  // ---- the growing list ----

  /** Doubles are carried as their 64-bit patterns. */
  datatype Sbf = Sbf(filters: seq<Filter>, grow: nat, prob: nat, prevSize: nat, size: nat, capacity: nat)

  /** What the sizing formulas give for the next filter. */
  datatype Sizing = Sizing(hashCnt: nat, bytes: nat, prob: nat, capacity: nat)

  ghost predicate SizingOk(z: Sizing, probOk: nat -> bool) {
    && 1 <= z.hashCnt <= 255 && z.bytes > 0 && PowerOfTwo(z.bytes) && z.bytes < TWO64
    && z.prob < TWO64 && probOk(z.prob) && 0 < z.capacity < TWO64
  }

  function Empty(z: Sizing): Filter { Filter(z.hashCnt, seq(z.bytes, _ => 0)) }

  ghost predicate SbfOk(s: Sbf, growOk: nat -> bool, probOk: nat -> bool) {
    && s.filters != [] && (forall i :: 0 <= i < |s.filters| ==> FilterOk(s.filters[i]))
    && s.grow < TWO64 && growOk(s.grow) && s.prob < TWO64 && probOk(s.prob)
    && s.size < s.capacity < TWO64 && s.prevSize < TWO64
  }

  ghost predicate Exists(s: Sbf, fp: Fp) {
    exists i :: 0 <= i < |s.filters| && s.filters[i].bits != [] && Present(s.filters[i], fp)
  }

  ghost predicate ExistsEarlier(s: Sbf, fp: Fp)
    requires s.filters != []
  {
    Exists(s.(filters := s.filters[..|s.filters| - 1]), fp)
  }

  /** `add`: into the last filter unless an earlier one has it; a full filter is followed by a new one. */
  ghost function Add(s: Sbf, fp: Fp, z: Sizing): (Sbf, bool)
    requires s.filters != [] && s.filters[|s.filters| - 1].bits != []
  {
    var last := |s.filters| - 1;
    var f := s.filters[last];
    if ExistsEarlier(s, fp) then (s, false)
    else if Added(f, fp) == f then (s, false)
    else
      var t := s.(filters := s.filters[last := Added(f, fp)], size := s.size + 1);
      if t.size < t.capacity then (t, true)
      else (Sbf(t.filters + [Empty(z)], t.grow, z.prob, t.prevSize + t.capacity, 0, z.capacity), true)
  }

  /** An add never loses an item, and the item itself is then present. */
  lemma AddExists(s: Sbf, fp: Fp, z: Sizing, other: Fp)
    requires s.filters != [] && s.filters[|s.filters| - 1].bits != []
    ensures Exists(Add(s, fp, z).0, fp)
    ensures Exists(s, other) ==> Exists(Add(s, fp, z).0, other)
  {
    hide Present;
    var last := |s.filters| - 1;
    var f := s.filters[last];
    var t := Add(s, fp, z).0;
    if ExistsEarlier(s, fp) {
      var i :| 0 <= i < last && s.filters[i].bits != [] && Present(s.filters[i], fp);
      assert t == s;
    } else {
      AddedPresent(f, fp, other);
      assert t.filters[last] == Added(f, fp);
      if Exists(s, other) {
        var i :| 0 <= i < |s.filters| && s.filters[i].bits != [] && Present(s.filters[i], other);
        assert i < last ==> t.filters[i] == s.filters[i];
      }
    }
  }

  /** `add` answers false exactly for an item that was already reported present. */
  lemma AddFresh(s: Sbf, fp: Fp, z: Sizing)
    requires s.filters != [] && s.filters[|s.filters| - 1].bits != []
    ensures Add(s, fp, z).1 <==> !Exists(s, fp)
  {
    hide IsSet, BitIndex;
    var last := |s.filters| - 1;
    var f := s.filters[last];
    MarkedSame(f.bits, fp, f.hashCnt);
    assert Added(f, fp) == f <==> Present(f, fp);
    if Exists(s, fp) {
      var i :| 0 <= i < |s.filters| && s.filters[i].bits != [] && Present(s.filters[i], fp);
      if i < last {
        assert s.filters[..last][i] == s.filters[i];
        assert ExistsEarlier(s, fp);
      }
    }
    if ExistsEarlier(s, fp) {
      var i :| 0 <= i < last && s.filters[..last][i].bits != [] && Present(s.filters[..last][i], fp);
      assert s.filters[i] == s.filters[..last][i];
    }
  }

  lemma AddOk(s: Sbf, fp: Fp, z: Sizing, growOk: nat -> bool, probOk: nat -> bool)
    requires SbfOk(s, growOk, probOk) && SizingOk(z, probOk) && s.prevSize + s.capacity < TWO64
    ensures SbfOk(Add(s, fp, z).0, growOk, probOk)
  {
    hide Marked;
    var last := |s.filters| - 1;
    var t := Add(s, fp, z).0;
    forall i | 0 <= i < |t.filters|
      ensures FilterOk(t.filters[i])
    {
      assert i < last ==> t.filters[i] == s.filters[i];
    }
  }

  /** Every item of a run of adds is reported present at its end, however the filter grew. */
  ghost function Run(s: Sbf, items: seq<Fp>, zs: seq<Sizing>): Sbf
    requires |items| == |zs| && s.filters != [] && s.filters[|s.filters| - 1].bits != []
    requires forall i :: 0 <= i < |zs| ==> zs[i].bytes > 0
    decreases |items|
  {
    if items == [] then s else
    AddKeepsBits(s, items[0], zs[0]);
    Run(Add(s, items[0], zs[0]).0, items[1..], zs[1..])
  }

  lemma AddKeepsBits(s: Sbf, fp: Fp, z: Sizing)
    requires s.filters != [] && s.filters[|s.filters| - 1].bits != [] && z.bytes > 0
    ensures var t := Add(s, fp, z).0; t.filters != [] && t.filters[|t.filters| - 1].bits != []
  {
  }

  lemma {:induction false} RunKeeps(s: Sbf, items: seq<Fp>, zs: seq<Sizing>, fp: Fp)
    requires |items| == |zs| && s.filters != [] && s.filters[|s.filters| - 1].bits != []
    requires forall i :: 0 <= i < |zs| ==> zs[i].bytes > 0
    requires Exists(s, fp) || fp in items
    ensures Exists(Run(s, items, zs), fp)
    decreases |items|
  {
    hide Add, Exists;
    if items != [] {
      AddKeepsBits(s, items[0], zs[0]);
      AddExists(s, items[0], zs[0], fp);
      if fp != items[0] && fp in items {
        assert fp in items[1..];
      }
      RunKeeps(Add(s, items[0], zs[0]).0, items[1..], zs[1..], fp);
    }
  }

  /** The capacities of the filters that a run appends. */
  ghost function Appended(s: Sbf, items: seq<Fp>, zs: seq<Sizing>): nat
    requires |items| == |zs| && s.filters != [] && s.filters[|s.filters| - 1].bits != []
    requires forall i :: 0 <= i < |zs| ==> zs[i].bytes > 0
    decreases |items|
  {
    if items == [] then 0 else
    AddKeepsBits(s, items[0], zs[0]);
    var t := Add(s, items[0], zs[0]).0;
    (if |t.filters| > |s.filters| then zs[0].capacity else 0) + Appended(t, items[1..], zs[1..])
  }

  /** A run keeps the filter well formed as long as the capacities it comes to add up within 64 bits. */
  lemma {:induction false} RunOk(s: Sbf, items: seq<Fp>, zs: seq<Sizing>, growOk: nat -> bool, probOk: nat -> bool)
    requires |items| == |zs| && SbfOk(s, growOk, probOk) && forall i :: 0 <= i < |zs| ==> zs[i].bytes > 0 && SizingOk(zs[i], probOk)
    requires s.prevSize + s.capacity + Appended(s, items, zs) < TWO64
    ensures SbfOk(Run(s, items, zs), growOk, probOk)
    decreases |items|
  {
    if items != [] {
      AddOk(s, items[0], zs[0], growOk, probOk);
      AddGrowth(s, items[0], zs[0]);
      hide Add, SbfOk, SizingOk;
      RunOk(Add(s, items[0], zs[0]).0, items[1..], zs[1..], growOk, probOk);
    }
  }

  lemma AddGrowth(s: Sbf, fp: Fp, z: Sizing)
    requires s.filters != [] && s.filters[|s.filters| - 1].bits != []
    ensures var t := Add(s, fp, z).0;
            t.prevSize + t.capacity == s.prevSize + s.capacity + if |t.filters| > |s.filters| then z.capacity else 0
  {
  }
}
