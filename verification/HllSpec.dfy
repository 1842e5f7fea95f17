/**
 HyperLogLog registers in their two encodings (src/core/hll.rs): a run-length list of opcodes, and
 16384 packed 6-bit fields. Both are given their meaning as a plain sequence of register values.
 */
module HllSpec {
  import opened Bits

  const REGISTERS: nat := 16384
  const HDR: nat := 16
  const SPARSE_MAX_BYTES: nat := 3000
  const VAL_MAX_VALUE: nat := 32
  const VAL_MAX_LEN: nat := 4
  const ZERO_MAX_LEN: nat := 64

  type Regs = seq<nat>

  // ---- registers ----

  function Rep(v: nat, n: nat): (r: Regs)
    ensures |r| == n && forall i :: 0 <= i < n ==> r[i] == v
  {
    seq(n, i => v)
  }

  function Blank(): Regs { Rep(0, REGISTERS) }

  /** Keep the larger of the stored and the offered count. */
  function AddReg(regs: Regs, index: nat, count: nat): (r: Regs)
    requires index < |regs|
    ensures |r| == |regs|
  {
    if count > regs[index] then regs[index := count] else regs
  }

  // ---- sparse opcodes ----

  predicate IsZero(b: byte) { b < 64 }

  predicate IsXzero(b: byte) { 64 <= b < 128 }

  predicate IsVal(b: byte) { b >= 128 }

  function ZeroLen(b: byte): nat { b % 64 + 1 }

  function XzeroLen(b: byte, b1: byte): nat {
    var hi: nat := b % 64;
    hi * 256 + b1 + 1
  }

  function ValValue(b: byte): (v: nat)
    ensures 1 <= v <= VAL_MAX_VALUE
  {
    b / 4 % 32 + 1
  }

  function ValLen(b: byte): (n: nat)
    ensures 1 <= n <= VAL_MAX_LEN
  {
    b % 4 + 1
  }

  function ValSet(val: nat, len: nat): (b: byte)
    requires 1 <= val <= VAL_MAX_VALUE && 1 <= len <= VAL_MAX_LEN
    ensures IsVal(b) && ValValue(b) == val && ValLen(b) == len
  {
    (val - 1) * 4 + (len - 1) + 128
  }

  function ZeroSet(len: nat): (b: byte)
    requires 1 <= len <= ZERO_MAX_LEN
    ensures IsZero(b) && ZeroLen(b) == len
  {
    len - 1
  }

  function XzeroSet(len: nat): (b: Bytes)
    requires 1 <= len <= REGISTERS
    ensures |b| == 2 && IsXzero(b[0]) && XzeroLen(b[0], b[1]) == len
  {
    [(len - 1) / 256 + 64, (len - 1) % 256]
  }

  /** Bytes, value and run length of the opcode at the front; a missing second byte reads as zero. */
  function OpSize(b: Bytes): nat
    requires b != []
  {
    if IsXzero(b[0]) then 2 else 1
  }

  function OpVal(b: Bytes): nat
    requires b != []
  {
    if IsVal(b[0]) then ValValue(b[0]) else 0
  }

  function OpLen(b: Bytes): (n: nat)
    requires b != []
    ensures n > 0
  {
    if IsZero(b[0]) then ZeroLen(b[0])
    else if IsVal(b[0]) then ValLen(b[0])
    else XzeroLen(b[0], if |b| > 1 then b[1] else 0)
  }

  function Rest(b: Bytes): (r: Bytes)
    requires b != []
    ensures |r| < |b|
  {
    if OpSize(b) <= |b| then b[OpSize(b)..] else []
  }

  /** The registers that a list of opcodes stands for. */
  function Expand(b: Bytes): Regs
    decreases |b|
  {
    if b == [] then [] else Rep(OpVal(b), OpLen(b)) + Expand(Rest(b))
  }

  /** No opcode is cut off. */
  predicate Whole(b: Bytes) {
    b == [] || (OpSize(b) <= |b| && Whole(b[OpSize(b)..]))
  }

  /** A sparse body that covers every register. */
  predicate SparseOk(b: Bytes) {
    Whole(b) && |Expand(b)| == REGISTERS
  }

  // ---- sparse update ----

  /** Where the opcode covering `index` starts, the register it starts at, and the opcode before it. */
  datatype Found = Found(p: nat, first: nat, prev: nat)

  function Locate(b: Bytes, index: nat, p: nat, first: nat, prev: nat): Option<Found>
    requires p <= |b| && first <= index
    decreases |b| - p
  {
    if p == |b| then None
    else if index < first + OpLen(b[p..]) then Some(Found(p, first, prev))
    else if p + OpSize(b[p..]) > |b| then None
    else Locate(b, index, p + OpSize(b[p..]), first + OpLen(b[p..]), p)
  }

  function ZeroRun(len: nat): (b: Bytes)
    requires 1 <= len <= REGISTERS
  {
    if len > ZERO_MAX_LEN then XzeroSet(len) else [ZeroSet(len)]
  }

  /** The run `(val, len)` with its element at `at` raised to `count`. */
  function SplitOp(val: nat, len: nat, at: nat, count: nat): (b: Bytes)
    requires at < len && 1 <= count <= VAL_MAX_VALUE
    requires if val == 0 then len <= REGISTERS else val <= VAL_MAX_VALUE && len <= VAL_MAX_LEN
  {
    var before: Bytes := if at == 0 then [] else if val == 0 then ZeroRun(at) else [ValSet(val, at)];
    var after: Bytes := if at == len - 1 then [] else if val == 0 then ZeroRun(len - 1 - at) else [ValSet(val, len - 1 - at)];
    before + [ValSet(count, 1)] + after
  }

  /** Merge adjacent equal values, looking at no more than `scan` opcodes. */
  function MergeOps(b: Bytes, scan: nat): (r: Bytes)
    ensures |r| <= |b|
    decreases scan
  {
    if b == [] || scan == 0 then b
    else if !IsVal(b[0]) then
      if OpSize(b) <= |b| then b[..OpSize(b)] + MergeOps(b[OpSize(b)..], scan - 1) else b
    else if Mergeable(b) then MergeOps([ValSet(ValValue(b[0]), ValLen(b[0]) + ValLen(b[1]))] + b[2..], scan - 1)
    else b[..1] + MergeOps(b[1..], scan - 1)
  }

  predicate Mergeable(b: Bytes) {
    |b| > 1 && IsVal(b[0]) && IsVal(b[1]) && ValValue(b[0]) == ValValue(b[1]) && ValLen(b[0]) + ValLen(b[1]) <= VAL_MAX_LEN
  }

  datatype SetResult = Corrupt | Unchanged | Promote | Updated(body: Bytes)

  /** Put `op` in place of the opcode found at `f`, then merge from the opcode before it. */
  function Replace(b: Bytes, f: Found, op: Bytes): Bytes
    requires f.prev <= f.p < |b| && f.p + OpSize(b[f.p..]) <= |b|
  {
    var c: Bytes := b[..f.p] + op + b[f.p + OpSize(b[f.p..])..];
    c[..f.prev] + MergeOps(c[f.prev..], 5)
  }

  /** `hllSparseSet` on the body of a sparse buffer. */
  function SparseSet(b: Bytes, index: nat, count: nat): SetResult
    requires SparseOk(b) && index < REGISTERS && 1 <= count
  {
    if count > VAL_MAX_VALUE then Promote else
    var loc := Locate(b, index, 0, 0, 0);
    if loc.None? then Corrupt else
    var f := loc.value;
    LocateOk(b, index);
    var op := b[f.p..];
    OpBounds(op);
    if IsVal(op[0]) && OpVal(op) >= count then Unchanged
    else
      var ops := SplitOp(OpVal(op), OpLen(op), index - f.first, count);
      if |ops| > OpSize(op) && HDR + |b| + |ops| - OpSize(op) > SPARSE_MAX_BYTES then Promote
      else Updated(Replace(b, f, ops))
  }

  lemma OpBounds(b: Bytes)
    requires b != []
    ensures if OpVal(b) == 0 then OpLen(b) <= REGISTERS && !IsVal(b[0]) else OpVal(b) <= VAL_MAX_VALUE && OpLen(b) <= VAL_MAX_LEN && IsVal(b[0])
  {
  }

  /** Opcode lists concatenate, and so do their registers. */
  lemma ExpandFirst(b: Bytes)
    ensures b == [] ==> Expand(b) == [] && Whole(b)
    ensures b != [] ==> Expand(b) == Rep(OpVal(b), OpLen(b)) + Expand(Rest(b))
    ensures b != [] && OpSize(b) <= |b| ==> (Whole(b) <==> Whole(b[OpSize(b)..]))
    ensures b != [] && Whole(b) ==> OpSize(b) <= |b|
  {
  }

  lemma {:induction false} ExpandConcat(a: Bytes, b: Bytes)
    requires Whole(a)
    ensures Expand(a + b) == Expand(a) + Expand(b)
    ensures Whole(a + b) <==> Whole(b)
    decreases |a|
  {
    hide OpSize, OpVal, OpLen, Rep, Expand, Whole, Rest;
    ExpandFirst(a);
    if a == [] {
      assert a + b == b;
      assert [] + Expand(b) == Expand(b);
    } else {
      OpConcat(a, b);
      var tail := a[OpSize(a)..];
      OpSizePositive(a);
      ExpandConcat(tail, b);
      ExpandFirst(a + b);
      var first, x, y := Rep(OpVal(a), OpLen(a)), Expand(tail), Expand(b);
      assert first + (x + y) == first + x + y;
    }
  }

  lemma OpSizePositive(b: Bytes)
    requires b != []
    ensures OpSize(b) > 0
  {
  }

  lemma OpConcat(a: Bytes, b: Bytes)
    requires a != [] && OpSize(a) <= |a|
    ensures OpSize(a + b) == OpSize(a) && OpVal(a + b) == OpVal(a) && OpLen(a + b) == OpLen(a)
    ensures (a + b)[OpSize(a)..] == a[OpSize(a)..] + b && Rest(a + b) == a[OpSize(a)..] + b && Rest(a) == a[OpSize(a)..]
  {
  }

  lemma {:induction false} WholeSplit(b: Bytes, p: nat)
    requires p < |b| && Whole(b[..p]) && Whole(b)
    ensures Whole(b[p..]) && p + OpSize(b[p..]) <= |b| && Whole(b[..p + OpSize(b[p..])])
    ensures |Expand(b[..p + OpSize(b[p..])])| == |Expand(b[..p])| + OpLen(b[p..])
  {
    hide OpLen, OpVal, Rep, Expand;
    ExpandConcat(b[..p], b[p..]);
    assert b[..p] + b[p..] == b;
    var n := OpSize(b[p..]);
    var op := b[p..p + n];
    assert b[..p + n] == b[..p] + op;
    ExpandConcat(b[..p], op);
    OneOp(b[p..]);
    assert b[p..][..n] == op;
  }

  lemma OneOp(b: Bytes)
    requires b != [] && OpSize(b) <= |b|
    ensures var op := b[..OpSize(b)];
            Whole(op) && Expand(op) == Rep(OpVal(b), OpLen(b)) && OpSize(op) == OpSize(b) && OpVal(op) == OpVal(b) && OpLen(op) == OpLen(b)
  {
    var op := b[..OpSize(b)];
    assert op[OpSize(op)..] == [];
    assert Expand(op) == Rep(OpVal(op), OpLen(op)) + Expand([]);
  }

  lemma {:induction false} LocateFrom(b: Bytes, index: nat, p: nat, first: nat, prev: nat)
    requires Whole(b) && index < |Expand(b)| && p <= |b| && Whole(b[..p]) && |Expand(b[..p])| == first <= index
    requires prev <= p && Whole(b[..prev])
    ensures var r := Locate(b, index, p, first, prev);
            && r.Some? && r.value.p < |b| && r.value.prev <= r.value.p && Whole(b[..r.value.prev]) && Whole(b[..r.value.p])
            && |Expand(b[..r.value.p])| == r.value.first <= index < r.value.first + OpLen(b[r.value.p..])
    decreases |b| - p
  {
    hide OpSize, OpLen, Expand, Whole;
    assert b[..|b|] == b;
    if p < |b| {
      WholeSplit(b, p);
      if index >= first + OpLen(b[p..]) {
        LocateFrom(b, index, p + OpSize(b[p..]), first + OpLen(b[p..]), p);
      }
    }
  }

  /** In a body that covers every register, every register is found: the corrupt outcome does not occur. */
  lemma LocateOk(b: Bytes, index: nat)
    requires SparseOk(b) && index < REGISTERS
    ensures var r := Locate(b, index, 0, 0, 0);
            && r.Some? && r.value.p < |b| && r.value.prev <= r.value.p && Whole(b[..r.value.prev]) && Whole(b[..r.value.p])
            && r.value.p + OpSize(b[r.value.p..]) <= |b|
            && |Expand(b[..r.value.p])| == r.value.first <= index < r.value.first + OpLen(b[r.value.p..])
  {
    assert b[..0] == [];
    LocateFrom(b, index, 0, 0, 0);
    WholeSplit(b, Locate(b, index, 0, 0, 0).value.p);
  }

  // ---- packed registers ----

  /** Byte and bit offset of a register. */
  function ByteOf(r: nat): nat { r * 6 / 8 }

  function BitOf(r: nat): nat { r * 6 % 8 }

  /** `1 << fb` for the bit offsets that occur. */
  function Shl(fb: nat): nat { if fb == 0 then 1 else if fb == 2 then 4 else if fb == 4 then 16 else if fb == 6 then 64 else 256 }

  /** The two bytes hold disjoint bits of the register, so their union is a sum. */
  function DenseGet(d: Bytes, r: nat): (v: nat)
    requires ByteOf(r) < |d|
    ensures v < 64
  {
    var fb := BitOf(r);
    var b0: nat := d[ByteOf(r)];
    var b1: nat := if ByteOf(r) + 1 < |d| then d[ByteOf(r) + 1] else 0;
    (b0 / Shl(fb) + b1 * Shl(8 - fb)) % 64
  }

  predicate Aligned(fb: nat) { fb == 0 || fb == 2 || fb == 4 || fb == 6 }

  /** Clear the six bits from `fb` up that lie in this byte, and put the low part of `v` there. */
  function LowByte(was: nat, fb: nat, v: nat): int
    requires Aligned(fb)
  {
    was - was / Shl(fb) % 64 * Shl(fb) + v * Shl(fb) % 256
  }

  /** Clear the bits that spill into this byte, and put the high part of `v` there. */
  function HighByte(was: nat, fb: nat, v: nat): int
    requires Aligned(fb)
  {
    was - was % (63 / Shl(8 - fb) + 1) + v / Shl(8 - fb)
  }

  function DenseSet(d: Bytes, r: nat, v: nat): (e: Bytes)
    requires ByteOf(r) + 1 < |d| && v < 64
    ensures |e| == |d|
  {
    var i := ByteOf(r);
    BitsOf(r);
    BytesFit(d[i], BitOf(r), v);
    BytesFit(d[i + 1], BitOf(r), v);
    var lo: byte := LowByte(d[i], BitOf(r), v);
    var hi: byte := HighByte(d[i + 1], BitOf(r), v);
    d[i := lo][i + 1 := hi]
  }

  /** The two masked writes, offset by offset. */
  lemma SetAt0(was: byte, v: nat)
    requires v < 64
    ensures LowByte(was, 0, v) == was - was % 64 + v && HighByte(was, 0, v) == was
  {
  }

  lemma SetAt2(was: byte, v: nat)
    requires v < 64
    ensures LowByte(was, 2, v) == was % 4 + v * 4 && HighByte(was, 2, v) == was
  {
  }

  lemma SetAt4(was: byte, v: nat)
    requires v < 64
    ensures LowByte(was, 4, v) == was % 16 + v % 16 * 16 && HighByte(was, 4, v) == was - was % 4 + v / 16
  {
  }

  lemma SetAt6(was: byte, v: nat)
    requires v < 64
    ensures LowByte(was, 6, v) == was % 64 + v % 4 * 64 && HighByte(was, 6, v) == was - was % 16 + v / 4
  {
    var q, r := v / 4, v % 4;
    assert v * 64 == 256 * q + 64 * r;
    assert v * 64 % 256 == 64 * r;
    assert was / 64 % 64 == was / 64;
  }

  lemma BytesFit(was: byte, fb: nat, v: nat)
    requires Aligned(fb) && v < 64
    ensures 0 <= LowByte(was, fb, v) < 256 && 0 <= HighByte(was, fb, v) < 256
  {
    hide LowByte, HighByte;
    SetAt0(was, v);
    SetAt2(was, v);
    SetAt4(was, v);
    SetAt6(was, v);
  }

  lemma BitsOf(r: nat)
    ensures Aligned(BitOf(r))
  {
  }
}
