/**
 What the registers of a sketch mean in terms of the 64-bit hashes that were added (src/core/hll.rs):
 the low 14 bits of a hash choose a register, the 50 bits above them offer one more than the number
 of zeros they end with.
 */
module HllPattern {
  import opened Bits
  import opened HllSpec
  import opened HllProof
  import opened HllMerge

  /** The 50 bits above the low 14 end with exactly `c - 1` zeros; with no one-bit at all, `c` is 51. */
  ghost predicate Pattern(hash: nat, c: nat) {
    var q := hash / 16384;
    && 1 <= c <= 51
    && q % Pow2(c - 1) == 0
    && (c <= 50 ==> q / Pow2(c - 1) % 2 == 1)
    && (c == 51 <==> q == 0)
  }

  lemma {:induction false} ZerosMeans(x: nat, limit: nat)
    ensures var p := Pow2(TrailingZeros(x, limit));
            x % p == 0 && (TrailingZeros(x, limit) < limit ==> x / p % 2 == 1)
    decreases limit
  {
    if limit > 0 && x % 2 == 0 {
      var y := x / 2;
      ZerosMeans(y, limit - 1);
      var p := Pow2(TrailingZeros(y, limit - 1));
      DoubleDivides(y, p);
    }
  }

  lemma DoubleDivides(y: nat, p: nat)
    requires p >= 1 && y % p == 0
    ensures (2 * y) % (2 * p) == 0 && (2 * y) / (2 * p) == y / p
  {
    var k := y / p;
    assert y == p * k;
    assert 2 * y == (2 * p) * k + 0;
    ModUnique(2 * y, 2 * p, k, 0);
  }

  lemma {:induction false} NoOneBit(limit: nat)
    ensures TrailingZeros(0, limit) == limit
    decreases limit
  {
    if limit > 0 {
      NoOneBit(limit - 1);
    }
  }

  lemma Pow2Of50(k: nat)
    requires k == 50
    ensures Pow2(k) == 0x4_0000_0000_0000
  {
    hide Pow2;
    Pow2Of5();
    Pow2Add(5, 5);
    Pow2Add(10, 10);
    Pow2Add(20, 20);
    Pow2Add(40, 10);
  }

  lemma Pow2Of5()
    ensures Pow2(5) == 32
  {
  }

  /** Of any 64-bit hash, the register index is its low 14 bits and the count is its pattern length. */
  lemma PatternLength(hash: nat)
    requires hash < TWO64
    ensures IndexOf(hash) == hash % 16384 && Pattern(hash, CountOf(hash))
  {
    CountIsPattern(hash, 50);
  }

  lemma CountIsPattern(hash: nat, limit: nat)
    requires hash < TWO64 && limit == 50
    ensures Pattern(hash, 1 + TrailingZeros(hash / 16384, limit))
  {
    hide Pow2, TrailingZeros;
    var q := hash / 16384;
    ZerosMeans(q, limit);
    Pow2Of50(limit);
    NoOneBit(limit);
    var z := TrailingZeros(q, limit);
    if z == limit {
      assert q < Pow2(z);
      ModUnique(q, Pow2(z), 0, q);
    }
  }

  /** A hash has one pattern length. */
  lemma PatternUnique(hash: nat, c: nat, d: nat)
    requires Pattern(hash, c) && Pattern(hash, d)
    ensures c == d
  {
    if c < d {
      PatternOrder(hash, c, d);
    } else if d < c {
      PatternOrder(hash, d, c);
    }
  }

  lemma PatternOrder(hash: nat, c: nat, d: nat)
    requires Pattern(hash, c) && c < d
    ensures !Pattern(hash, d)
  {
    hide Pow2;
    if d < 51 && Pattern(hash, d) {
      HigherPower(c - 1, d - 1);
      var m :| Pow2(d - 1) == 2 * Pow2(c - 1) * m;
      EvenQuotient(hash / 16384, Pow2(c - 1), Pow2(d - 1), m);
    }
  }

  lemma EvenQuotient(q: nat, p: nat, r: nat, m: int)
    requires p >= 1 && r >= 1 && r == 2 * p * m && q % r == 0
    ensures q / p % 2 == 0
  {
    var k := q / r;
    var e := m * k;
    assert q == r * k == p * (2 * e);
    ModUnique(q, p, 2 * e, 0);
  }

  lemma HigherPower(i: nat, j: nat)
    requires i < j
    ensures exists m :: Pow2(j) == 2 * Pow2(i) * m
  {
    Pow2Add(i + 1, j - i - 1);
    assert Pow2(j) == 2 * Pow2(i) * Pow2(j - i - 1);
  }

  // ---- one addition, and a run of them ----

  /** `now` is `was` after a hash offered its count to its register; the reply says whether the register grew. */
  ghost predicate Offered(was: Regs, now: Regs, hash: nat, reply: int) {
    && |was| == |now| == 16384
    && (forall k :: 0 <= k < 16384 && k != hash % 16384 ==> now[k] == was[k])
    && exists c :: OfferedCount(was[hash % 16384], now[hash % 16384], hash, c, reply)
  }

  ghost predicate OfferedCount(was: nat, now: nat, hash: nat, c: nat, reply: int) {
    Pattern(hash, c) && now == (if c > was then c else was) && reply == (if c > was then 1 else 0)
  }

  /** An addition to a sketch in either form, in terms of the bits of the hash. */
  lemma PfAddOffers(s: Sketch, hash: nat)
    requires SketchOk(s) && hash < TWO64
    ensures var (t, reply) := PfAdd(s, hash);
            SketchOk(t) && Offered(RegsOf(s), RegsOf(t), hash, reply)
  {
    hide PfAdd, RegsOf, SketchOk, CountOf, Pattern;
    PfAddMeans(s, hash);
    PatternLength(hash);
    var (t, reply) := PfAdd(s, hash);
    var i, c := hash % 16384, CountOf(hash);
    assert OfferedCount(RegsOf(s)[i], RegsOf(t)[i], hash, c, reply);
  }

  /** After any additions to an empty sketch, a register is the largest pattern length among the hashes it was chosen by. */
  lemma RegisterMeans(hashes: seq<nat>, i: nat)
    requires i < 16384 && forall h :: h in hashes ==> h < TWO64
    ensures var r := Registers(Blank(), hashes)[i];
            && (forall h, c: nat :: h in hashes && h % 16384 == i && Pattern(h, c) ==> c <= r)
            && (r == 0 <==> forall h :: h in hashes ==> h % 16384 != i)
            && (r > 0 ==> exists h :: h in hashes && h % 16384 == i && Pattern(h, r))
  {
    hide Registers, Best, CountOf, IndexOf, Pattern;
    RegisterIsBest(Blank(), hashes, i);
    BestBounds(hashes, i);
    forall h | h in hashes
      ensures IndexOf(h) == h % 16384 && Pattern(h, CountOf(h))
    {
      PatternLength(h);
    }
    forall h, c: nat | h in hashes && h % 16384 == i && Pattern(h, c)
      ensures c <= Best(hashes, i)
    {
      PatternUnique(h, c, CountOf(h));
    }
  }

  // ---- when a sketch becomes dense ----

  lemma SplitGrows(val: nat, len: nat, at: nat, count: nat)
    requires at < len && 1 <= count <= 32
    requires if val == 0 then len <= REGISTERS else val <= VAL_MAX_VALUE && len <= VAL_MAX_LEN
    ensures |SplitOp(val, len, at, count)| <= if val == 0 && len > 64 then 5 else 3
  {
  }

  /** A count that no sparse opcode can hold asks for the dense form; any other only when three more bytes may not fit in 3000. */
  lemma PromotesWhenFull(b: Bytes, index: nat, count: nat)
    requires SparseOk(b) && index < REGISTERS && 1 <= count
    ensures count > 32 ==> SparseSet(b, index, count).Promote?
    ensures count <= 32 && 16 + |b| + 3 <= 3000 ==> !SparseSet(b, index, count).Promote?
  {
    hide Expand, Whole, Locate, Replace, SplitOp;
    var loc := Locate(b, index, 0, 0, 0);
    if count <= 32 && loc.Some? {
      LocateOk(b, index);
      var f := loc.value;
      var op := b[f.p..];
      OpBounds(op);
      OpWidth(op);
      if !(IsVal(op[0]) && OpVal(op) >= count) {
        SplitGrows(OpVal(op), OpLen(op), index - f.first, count);
      }
    }
  }

  lemma OpWidth(b: Bytes)
    requires b != []
    ensures OpVal(b) == 0 && OpLen(b) > 64 ==> OpSize(b) == 2
    ensures OpSize(b) >= 1
  {
  }
}
