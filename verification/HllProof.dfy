/**
 The sparse and the dense HyperLogLog are the same sketch: every update of the opcode list changes
 exactly one register, every packed write disturbs no other register, and so any run of additions,
 promoted to dense at whatever point, answers and ends like the plain dense one.
 */
module HllProof {
  import opened Bits
  import opened HllSpec

  // ---- the opcode list ----

  lemma MergeTwo(b: Bytes)
    requires Mergeable(b)
    ensures var m := [ValSet(ValValue(b[0]), ValLen(b[0]) + ValLen(b[1]))] + b[2..];
            Expand(m) == Expand(b) && (Whole(m) <==> Whole(b))
  {
    hide Expand, Whole, ValValue, ValLen;
    MergeVals(b[0], b[1], ValSet(ValValue(b[0]), ValLen(b[0]) + ValLen(b[1])), b[2..]);
    assert b == [b[0]] + ([b[1]] + b[2..]);
  }

  lemma MergeVals(x: byte, y: byte, z: byte, rest: Bytes)
    requires IsVal(x) && IsVal(y) && IsVal(z) && ValValue(x) == ValValue(y) == ValValue(z) && ValLen(z) == ValLen(x) + ValLen(y)
    ensures Expand([z] + rest) == Expand([x] + ([y] + rest)) && (Whole([z] + rest) <==> Whole([x] + ([y] + rest)))
  {
    hide Expand, Whole, ValValue, ValLen, IsVal;
    OneVal(x);
    OneVal(y);
    OneVal(z);
    ExpandConcat([y], rest);
    ExpandConcat([x], [y] + rest);
    ExpandConcat([z], rest);
    var v := ValValue(x);
    assert Rep(v, ValLen(x)) + (Rep(v, ValLen(y)) + Expand(rest)) == Rep(v, ValLen(z)) + Expand(rest);
  }

  lemma OneVal(b: byte)
    requires IsVal(b)
    ensures Whole([b]) && Expand([b]) == Rep(ValValue(b), ValLen(b))
  {
    OneOp([b]);
    assert [b][..1] == [b];
  }

  /** Merging adjacent values changes no register. */
  lemma {:induction false} MergeKeeps(b: Bytes, scan: nat)
    requires Whole(b)
    ensures Whole(MergeOps(b, scan)) && Expand(MergeOps(b, scan)) == Expand(b)
    decreases scan
  {
    hide Expand, Whole;
    if b != [] && scan > 0 {
      if Mergeable(b) {
        MergeTwo(b);
        MergeKeeps([ValSet(ValValue(b[0]), ValLen(b[0]) + ValLen(b[1]))] + b[2..], scan - 1);
      } else {
        var n := OpSize(b);
        WholeFront(b);
        MergeKeeps(b[n..], scan - 1);
        ExpandConcat(b[..n], b[n..]);
        ExpandConcat(b[..n], MergeOps(b[n..], scan - 1));
        assert b[..n] + b[n..] == b;
      }
    }
  }

  lemma WholeFront(b: Bytes)
    requires Whole(b) && b != []
    ensures OpSize(b) <= |b| && Whole(b[..OpSize(b)]) && Whole(b[OpSize(b)..])
  {
    OneOp(b);
  }

  lemma ZeroRunMeans(len: nat)
    requires 1 <= len <= REGISTERS
    ensures Whole(ZeroRun(len)) && Expand(ZeroRun(len)) == Rep(0, len)
  {
    var b := ZeroRun(len);
    assert OpSize(b) == |b| && OpVal(b) == 0 && OpLen(b) == len;
    OneOp(b);
    assert b[..|b|] == b;
  }

  lemma ValMeans(val: nat, len: nat)
    requires 1 <= val <= VAL_MAX_VALUE && 1 <= len <= VAL_MAX_LEN
    ensures Whole([ValSet(val, len)]) && Expand([ValSet(val, len)]) == Rep(val, len)
  {
    var b: Bytes := [ValSet(val, len)];
    assert OpSize(b) == |b| && OpVal(b) == val && OpLen(b) == len;
    OneOp(b);
    assert b[..|b|] == b;
  }

  lemma RunMeans(val: nat, len: nat, b: Bytes)
    requires if val == 0 then len <= REGISTERS else val <= VAL_MAX_VALUE && len <= VAL_MAX_LEN
    requires b == if len == 0 then [] else if val == 0 then ZeroRun(len) else [ValSet(val, len)]
    ensures Whole(b) && Expand(b) == Rep(val, len)
  {
    if len > 0 {
      if val == 0 { ZeroRunMeans(len); } else { ValMeans(val, len); }
    }
  }

  /** Splitting a run around one raised element. */
  lemma SplitMeans(val: nat, len: nat, at: nat, count: nat)
    requires at < len && 1 <= count <= VAL_MAX_VALUE
    requires if val == 0 then len <= REGISTERS else val <= VAL_MAX_VALUE && len <= VAL_MAX_LEN
    ensures Whole(SplitOp(val, len, at, count)) && Expand(SplitOp(val, len, at, count)) == Rep(val, len)[at := count]
  {
    hide Expand, Whole, ZeroRun, ValSet;
    var before: Bytes := if at == 0 then [] else if val == 0 then ZeroRun(at) else [ValSet(val, at)];
    var after: Bytes := if at == len - 1 then [] else if val == 0 then ZeroRun(len - 1 - at) else [ValSet(val, len - 1 - at)];
    var mid: Bytes := [ValSet(count, 1)];
    RunMeans(val, at, before);
    ValMeans(count, 1);
    RunMeans(val, len - 1 - at, after);
    ExpandConcat(before, mid);
    ExpandConcat(before + mid, after);
    assert Rep(val, at) + Rep(count, 1) + Rep(val, len - 1 - at) == Rep(val, len)[at := count];
  }

  /** Replacing the opcode at `p` replaces its stretch of registers. */
  lemma ReplaceMeans(b: Bytes, p: nat, op: Bytes)
    requires p < |b| && Whole(b) && Whole(b[..p]) && Whole(op)
    ensures p + OpSize(b[p..]) <= |b|
    ensures var c := b[..p] + op + b[p + OpSize(b[p..])..];
            var tail := Expand(b[p + OpSize(b[p..])..]);
            && Whole(c)
            && Expand(c) == Expand(b[..p]) + Expand(op) + tail
            && Expand(b) == Expand(b[..p]) + Rep(OpVal(b[p..]), OpLen(b[p..])) + tail
  {
    hide Expand, Whole, OpVal, OpLen, Rep;
    var n := OpSize(b[p..]);
    ExpandConcat(b[..p], b[p..]);
    assert b[..p] + b[p..] == b;
    WholeFront(b[p..]);
    var rest := b[p + n..];
    assert b[p..][n..] == rest && b[p..][..n] + rest == b[p..];
    OneOp(b[p..]);
    ExpandConcat(b[p..][..n], rest);
    ExpandConcat(b[..p], op);
    ExpandConcat(b[..p] + op, rest);
  }

  /** Sparse values never exceed what an opcode can carry. */
  lemma {:induction false} ExpandSmall(b: Bytes)
    ensures forall i :: 0 <= i < |Expand(b)| ==> Expand(b)[i] <= VAL_MAX_VALUE
    decreases |b|
  {
    if b != [] {
      ExpandSmall(Rest(b));
    }
  }

  ghost predicate SetOk(b: Bytes, index: nat, count: nat, r: SetResult)
    requires SparseOk(b) && index < REGISTERS
  {
    match r
    case Corrupt => false
    case Unchanged => count <= Expand(b)[index]
    case Promote => count > Expand(b)[index]
    case Updated(c) =>
      && count > Expand(b)[index] && SparseOk(c) && Expand(c) == Expand(b)[index := count]
      && (HDR + |b| <= SPARSE_MAX_BYTES ==> HDR + |c| <= SPARSE_MAX_BYTES)
  }

  /** The sparse update is the register update, or hands over to the dense encoding exactly when it should. */
  lemma SparseSetMeans(b: Bytes, index: nat, count: nat)
    requires SparseOk(b) && index < REGISTERS && 1 <= count
    ensures SetOk(b, index, count, SparseSet(b, index, count))
  {
    hide Expand, Whole, OpSize, OpVal, OpLen, Rep, SplitOp, MergeOps;
    if count > VAL_MAX_VALUE {
      ExpandSmall(b);
    } else {
      LocateOk(b, index);
      var f := Locate(b, index, 0, 0, 0).value;
      FoundValue(b, f.p, f.first, index);
      OpBounds(b[f.p..]);
      if !(IsVal(b[f.p]) && OpVal(b[f.p..]) >= count) {
        SplitSound(b, f, index, count);
      }
    }
  }

  lemma FoundValue(b: Bytes, p: nat, first: nat, index: nat)
    requires Whole(b) && p < |b| && Whole(b[..p]) && |Expand(b[..p])| == first <= index < first + OpLen(b[p..]) && index < |Expand(b)|
    ensures Expand(b)[index] == OpVal(b[p..])
  {
    assert Whole([]);
    hide Expand, Whole, OpSize, OpVal, OpLen;
    ReplaceMeans(b, p, []);
  }

  lemma SplitSound(b: Bytes, f: Found, index: nat, count: nat)
    requires SparseOk(b) && index < REGISTERS && 1 <= count <= VAL_MAX_VALUE
    requires f.prev <= f.p < |b| && Whole(b[..f.prev]) && Whole(b[..f.p]) && f.p + OpSize(b[f.p..]) <= |b|
    requires |Expand(b[..f.p])| == f.first <= index < f.first + OpLen(b[f.p..])
    requires OpVal(b[f.p..]) < count
    requires if OpVal(b[f.p..]) == 0 then OpLen(b[f.p..]) <= REGISTERS else OpVal(b[f.p..]) <= VAL_MAX_VALUE && OpLen(b[f.p..]) <= VAL_MAX_LEN
    ensures var ops := SplitOp(OpVal(b[f.p..]), OpLen(b[f.p..]), index - f.first, count);
            var c := Replace(b, f, ops);
            && SparseOk(c) && Expand(c) == Expand(b)[index := count]
            && |c| <= |b| + |ops| - OpSize(b[f.p..])
  {
    hide Expand, Whole, OpSize, OpVal, OpLen, Rep, SplitOp, MergeOps;
    var op := b[f.p..];
    var val, len, at := OpVal(op), OpLen(op), index - f.first;
    var ops := SplitOp(val, len, at, count);
    SplitMeans(val, len, at, count);
    ReplaceMeans(b, f.p, ops);
    var c: Bytes := b[..f.p] + ops + b[f.p + OpSize(op)..];
    UpdateMiddle(Expand(b[..f.p]), val, len, at, count, Expand(b[f.p + OpSize(op)..]));
    MergeFromPrev(c, f.prev, b[..f.prev]);
  }

  lemma MergeFromPrev(c: Bytes, q: nat, head: Bytes)
    requires Whole(c) && q <= |c| && c[..q] == head && Whole(head)
    ensures var m := c[..q] + MergeOps(c[q..], 5);
            Whole(m) && Expand(m) == Expand(c) && |m| <= |c|
  {
    hide Expand, Whole;
    assert c[..q] + c[q..] == c;
    ExpandConcat(c[..q], c[q..]);
    MergeKeeps(c[q..], 5);
    ExpandConcat(c[..q], MergeOps(c[q..], 5));
  }

  lemma UpdateMiddle(a: Regs, val: nat, len: nat, at: nat, count: nat, z: Regs)
    requires at < len
    ensures (a + Rep(val, len) + z)[|a| + at := count] == a + Rep(val, len)[at := count] + z
  {
  }

  // ---- the packed registers ----

  const DENSE_BYTES: nat := 12288

  function DenseRegs(d: Bytes): (r: Regs)
    requires |d| >= DENSE_BYTES
    ensures |r| == REGISTERS
  {
    seq(REGISTERS, r requires 0 <= r < REGISTERS => DenseGet(d, r))
  }

  /** Four registers share three bytes. */
  lemma Position(r: nat)
    ensures var k, j := r / 4, r % 4;
            && ByteOf(r) == 3 * k + (if j == 0 || j == 1 then 0 else j - 1)
            && BitOf(r) == if j == 0 then 0 else if j == 1 then 6 else if j == 2 then 4 else 2
  {
  }

  /** Byte `i`, reading the missing slack byte as zero. */
  function At(d: Bytes, i: nat): nat { if i < |d| then d[i] else 0 }

  /** Register `j` of a group, from the three bytes of the group. */
  function Field(j: nat, a: nat, b: nat, c: nat): nat {
    if j == 0 then a % 64
    else if j == 1 then a / 64 + b % 16 * 4
    else if j == 2 then b / 16 + c % 4 * 16
    else c / 4
  }

  lemma GetAt(d: Bytes, r: nat)
    requires ByteOf(r) < |d|
    ensures var k := r / 4; DenseGet(d, r) == Field(r % 4, At(d, 3 * k), At(d, 3 * k + 1), At(d, 3 * k + 2))
  {
    Position(r);
    var b0, b1 := At(d, ByteOf(r)), At(d, ByteOf(r) + 1);
    FieldOf(b0, b1);
  }

  lemma FieldOf(b0: nat, b1: nat)
    requires b0 < 256 && b1 < 256
    ensures (b0 / 1 + b1 * 256) % 64 == b0 % 64
    ensures (b0 / 64 + b1 * 4) % 64 == b0 / 64 + b1 % 16 * 4
    ensures (b0 / 16 + b1 * 16) % 64 == b0 / 16 + b1 % 4 * 16
    ensures (b0 / 4 + b1 * 64) % 64 == b0 / 4
  {
    Low64(b0 % 64, b0 / 64 + b1 * 4);
    Low64(b0 / 64 + b1 % 16 * 4, b1 / 16);
    Low64(b0 / 16 + b1 % 4 * 16, b1 / 4);
    Low64(b0 / 4, b1);
  }

  lemma Low64(low: nat, high: nat)
    requires low < 64
    ensures (low + 64 * high) % 64 == low
  {
  }

  function New0(b: nat, j: nat, v: nat): int {
    if j == 0 then b - b % 64 + v else if j == 1 then b % 64 + v % 4 * 64 else b
  }

  function New1(b: nat, j: nat, v: nat): int {
    if j == 1 then b - b % 16 + v / 4 else if j == 2 then b % 16 + v % 16 * 16 else b
  }

  function New2(b: nat, j: nat, v: nat): int {
    if j == 2 then b - b % 4 + v / 16 else if j == 3 then b % 4 + v * 4 else b
  }

  /** `e` is `d` except for the three bytes of group `k`. */
  predicate SameOutside(d: Bytes, e: Bytes, k: nat) {
    |e| == |d| && forall i :: 0 <= i < |d| && (i < 3 * k || 3 * k + 2 < i) ==> e[i] == d[i]
  }

  /** Which bits a packed write changes. */
  lemma SetBytes(d: Bytes, r: nat, v: nat)
    requires ByteOf(r) + 1 < |d| && v < 64
    ensures SameOutside(d, DenseSet(d, r, v), r / 4)
    ensures At(DenseSet(d, r, v), 3 * (r / 4)) == New0(At(d, 3 * (r / 4)), r % 4, v)
    ensures At(DenseSet(d, r, v), 3 * (r / 4) + 1) == New1(At(d, 3 * (r / 4) + 1), r % 4, v)
    ensures At(DenseSet(d, r, v), 3 * (r / 4) + 2) == New2(At(d, 3 * (r / 4) + 2), r % 4, v)
  {
    hide LowByte, HighByte;
    Position(r);
    var i := ByteOf(r);
    SetAt0(d[i], v); SetAt0(d[i + 1], v);
    SetAt2(d[i], v); SetAt2(d[i + 1], v);
    SetAt4(d[i], v); SetAt4(d[i + 1], v);
    SetAt6(d[i], v); SetAt6(d[i + 1], v);
  }

  /** A packed write sets its register and disturbs no other. */
  lemma DenseSetGet(d: Bytes, r: nat, v: nat, q: nat)
    requires ByteOf(r) + 1 < |d| && v < 64 && ByteOf(q) < |d|
    ensures DenseGet(DenseSet(d, r, v), q) == if q == r then v else DenseGet(d, q)
  {
    if q / 4 != r / 4 {
      GetElsewhere(d, r, v, q);
    } else {
      GetNearby(d, r, v, q);
    }
  }

  lemma GetElsewhere(d: Bytes, r: nat, v: nat, q: nat)
    requires ByteOf(r) + 1 < |d| && v < 64 && ByteOf(q) < |d| && q / 4 != r / 4
    ensures DenseGet(DenseSet(d, r, v), q) == DenseGet(d, q)
  {
    hide DenseSet, DenseGet, Field, New0, New1, New2;
    SetBytes(d, r, v);
    GetAt(d, q);
    GetAt(DenseSet(d, r, v), q);
    OtherGroup(d, DenseSet(d, r, v), r / 4, q / 4);
  }

  lemma GetNearby(d: Bytes, r: nat, v: nat, q: nat)
    requires ByteOf(r) + 1 < |d| && v < 64 && ByteOf(q) < |d| && q / 4 == r / 4
    ensures DenseGet(DenseSet(d, r, v), q) == if q == r then v else DenseGet(d, q)
  {
    hide DenseSet, DenseGet, At, Field, New0, New1, New2;
    var k := r / 4;
    SetBytes(d, r, v);
    GetAt(d, q);
    GetAt(DenseSet(d, r, v), q);
    AtByte(d, 3 * k);
    AtByte(d, 3 * k + 1);
    AtByte(d, 3 * k + 2);
    NewField(q % 4, r % 4, At(d, 3 * k), At(d, 3 * k + 1), At(d, 3 * k + 2), v);
    assert q == r <==> q % 4 == r % 4;
  }

  /** Rewriting register `j` of a group changes that field and no other. */
  lemma NewField(i: nat, j: nat, a: nat, b: nat, c: nat, v: nat)
    requires i < 4 && j < 4 && a < 256 && b < 256 && c < 256 && v < 64
    ensures New0(a, j, v) >= 0 && New1(b, j, v) >= 0 && New2(c, j, v) >= 0
    ensures Field(i, New0(a, j, v), New1(b, j, v), New2(c, j, v)) == if i == j then v else Field(i, a, b, c)
  {
    hide Field, New0, New1, New2;
    if j == 0 {
      NewField0(i, a, b, c, v);
    } else if j == 1 {
      NewField1(i, a, b, c, v);
    } else if j == 2 {
      NewField2(i, a, b, c, v);
    } else {
      NewField3(i, a, b, c, v);
    }
  }

  lemma NewField0(i: nat, a: nat, b: nat, c: nat, v: nat)
    requires i < 4 && v < 64
    ensures New0(a, 0, v) >= 0 && New1(b, 0, v) == b && New2(c, 0, v) == c
    ensures Field(i, New0(a, 0, v), b, c) == if i == 0 then v else Field(i, a, b, c)
  {
    LowField(a, 64, v);
  }

  lemma NewField1(i: nat, a: nat, b: nat, c: nat, v: nat)
    requires i < 4 && v < 64 && a < 256
    ensures New0(a, 1, v) >= 0 && New1(b, 1, v) >= 0 && New2(c, 1, v) == c
    ensures Field(i, New0(a, 1, v), New1(b, 1, v), c) == if i == 1 then v else Field(i, a, b, c)
  {
    HighField(a, 64, v % 4);
    LowField(b, 16, v / 4);
    Rejoin(v, 4);
  }

  lemma NewField2(i: nat, a: nat, b: nat, c: nat, v: nat)
    requires i < 4 && v < 64
    ensures New0(a, 2, v) == a && New1(b, 2, v) >= 0 && New2(c, 2, v) >= 0
    ensures Field(i, a, New1(b, 2, v), New2(c, 2, v)) == if i == 2 then v else Field(i, a, b, c)
  {
    HighField(b, 16, v % 16);
    LowField(c, 4, v / 16);
    Rejoin(v, 16);
  }

  lemma NewField3(i: nat, a: nat, b: nat, c: nat, v: nat)
    requires i < 4
    ensures New0(a, 3, v) == a && New1(b, 3, v) == b && New2(c, 3, v) >= 0
    ensures Field(i, a, b, New2(c, 3, v)) == if i == 3 then v else Field(i, a, b, c)
  {
    HighField(c, 4, v);
  }

  lemma Rejoin(v: nat, m: nat)
    requires m > 0
    ensures v % m + v / m * m == v
  {
  }

  lemma AtByte(d: Bytes, i: nat)
    ensures At(d, i) < 256
  {
  }

  lemma OtherGroup(d: Bytes, e: Bytes, k: nat, m: nat)
    requires k != m && SameOutside(d, e, k)
    ensures At(e, 3 * m) == At(d, 3 * m) && At(e, 3 * m + 1) == At(d, 3 * m + 1) && At(e, 3 * m + 2) == At(d, 3 * m + 2)
  {
  }

  /** Replacing the low field of a byte keeps the high one, and the other way round. */
  lemma LowField(x: nat, m: nat, v: nat)
    requires m > 0 && v < m
    ensures (x - x % m + v) % m == v && (x - x % m + v) / m == x / m
  {
    ModUnique(x - x % m + v, m, x / m, v);
  }

  lemma HighField(x: nat, m: nat, v: nat)
    requires m > 0
    ensures (x % m + v * m) % m == x % m && (x % m + v * m) / m == v
  {
    ModUnique(x % m + v * m, m, v, x % m);
  }

  lemma DenseSetRegs(d: Bytes, r: nat, v: nat)
    requires |d| > DENSE_BYTES && r < REGISTERS && v < 64
    ensures DenseRegs(DenseSet(d, r, v)) == DenseRegs(d)[r := v]
  {
    hide DenseSet, DenseGet;
    forall q | 0 <= q < REGISTERS
      ensures DenseRegs(DenseSet(d, r, v))[q] == DenseRegs(d)[r := v][q]
    {
      DenseSetGet(d, r, v, q);
    }
  }

  lemma ZeroRegs(d: Bytes)
    requires |d| >= DENSE_BYTES && forall i :: 0 <= i < |d| ==> d[i] == 0
    ensures DenseRegs(d) == Blank()
  {
  }

  // ---- from opcodes to packed registers ----

  function FillRun(d: Bytes, idx: nat, v: nat, n: nat): (e: Bytes)
    requires |d| > DENSE_BYTES && idx + n <= REGISTERS && v < 64
    ensures |e| == |d|
    decreases n
  {
    if n == 0 then d else FillRun(DenseSet(d, idx, v), idx + 1, v, n - 1)
  }

  /** `sparse_to_dense_registers`: None when the opcodes do not cover exactly the registers. */
  function Unpack(b: Bytes, d: Bytes, idx: nat): (r: Option<Bytes>)
    requires |d| > DENSE_BYTES && idx <= REGISTERS
    ensures r.Some? ==> |r.value| == |d|
    decreases |b|
  {
    if b == [] then (if idx == REGISTERS then Some(d) else None)
    else if idx + OpLen(b) > REGISTERS then None
    else Unpack(Rest(b), if IsVal(b[0]) then FillRun(d, idx, OpVal(b), OpLen(b)) else d, idx + OpLen(b))
  }

  lemma {:induction false} FillRunMeans(d: Bytes, idx: nat, v: nat, n: nat)
    requires |d| > DENSE_BYTES && idx + n <= REGISTERS && v < 64
    ensures DenseRegs(FillRun(d, idx, v, n)) == DenseRegs(d)[..idx] + Rep(v, n) + DenseRegs(d)[idx + n..]
    decreases n
  {
    hide DenseSet, DenseRegs;
    if n > 0 {
      DenseSetRegs(d, idx, v);
      FillRunMeans(DenseSet(d, idx, v), idx + 1, v, n - 1);
      assert Rep(v, n) == [v] + Rep(v, n - 1);
    } else {
      var g := DenseRegs(d);
      assert g[..idx] + Rep(v, 0) + g[idx..] == g;
    }
  }

  /** Decoding into blank registers gives exactly the registers the opcodes stand for. */
  lemma {:induction false} UnpackMeans(b: Bytes, d: Bytes, idx: nat)
    requires |d| > DENSE_BYTES && idx <= REGISTERS && DenseRegs(d)[idx..] == Rep(0, REGISTERS - idx)
    ensures Unpack(b, d, idx).Some? <==> idx + |Expand(b)| == REGISTERS
    ensures Unpack(b, d, idx).Some? ==> DenseRegs(Unpack(b, d, idx).value) == DenseRegs(d)[..idx] + Expand(b)
    decreases |b|
  {
    hide DenseRegs, FillRun, OpLen, OpVal, Rest, Rep, IsVal;
    var g := DenseRegs(d);
    if b != [] {
      var n := OpLen(b);
      if idx + n <= REGISTERS {
        UnpackOne(b, d, idx);
        var e := if IsVal(b[0]) then FillRun(d, idx, OpVal(b), n) else d;
        UnpackMeans(Rest(b), e, idx + n);
        assert g[..idx] + Rep(OpVal(b), n) + Expand(Rest(b)) == g[..idx] + (Rep(OpVal(b), n) + Expand(Rest(b)));
      }
    } else {
      assert g[..REGISTERS] == g;
    }
  }

  lemma UnpackOne(b: Bytes, d: Bytes, idx: nat)
    requires b != [] && |d| > DENSE_BYTES && idx + OpLen(b) <= REGISTERS && DenseRegs(d)[idx..] == Rep(0, REGISTERS - idx)
    ensures IsVal(b[0]) ==> OpVal(b) < 64
    ensures var n := OpLen(b);
            var e := if IsVal(b[0]) then FillRun(d, idx, OpVal(b), n) else d;
            && |e| == |d|
            && DenseRegs(e)[..idx + n] == DenseRegs(d)[..idx] + Rep(OpVal(b), n)
            && DenseRegs(e)[idx + n..] == Rep(0, REGISTERS - (idx + n))
  {
    NotVal(b);
    hide DenseRegs, FillRun, OpLen, OpVal, IsVal;
    var n, g := OpLen(b), DenseRegs(d);
    BlankTail(g, idx, n);
    if IsVal(b[0]) {
      FillRunMeans(d, idx, OpVal(b), n);
    }
  }

  lemma NotVal(b: Bytes)
    requires b != []
    ensures !IsVal(b[0]) ==> OpVal(b) == 0
    ensures IsVal(b[0]) ==> OpVal(b) < 64
  {
  }

  lemma BlankTail(g: Regs, idx: nat, n: nat)
    requires |g| == REGISTERS && idx + n <= REGISTERS && g[idx..] == Rep(0, REGISTERS - idx)
    ensures g[idx + n..] == Rep(0, REGISTERS - idx - n) && g == g[..idx] + Rep(0, n) + Rep(0, REGISTERS - idx - n)
  {
    assert g[idx + n..] == g[idx..][n..];
    assert g == g[..idx] + g[idx..];
    assert Rep(0, REGISTERS - idx) == Rep(0, n) + Rep(0, REGISTERS - idx - n);
  }

  // ---- sketches and runs ----

  /** Register index and pattern length of a 64-bit hash: one more than its run of zeros, at most 51. */
  function IndexOf(hash: nat): (i: nat)
    ensures i < REGISTERS
  {
    hash % REGISTERS
  }

  function TrailingZeros(x: nat, limit: nat): (z: nat)
    ensures z <= limit
    decreases limit
  {
    if limit == 0 || x % 2 == 1 then 0 else 1 + TrailingZeros(x / 2, limit - 1)
  }

  function CountOf(hash: nat): (c: nat)
    ensures 1 <= c <= 51
  {
    1 + TrailingZeros(hash / REGISTERS, 50)
  }

  datatype Sketch = Sparse(body: Bytes) | Dense(packed: Bytes)

  predicate SketchOk(s: Sketch) {
    match s
    case Sparse(b) => SparseOk(b) && HDR + |b| <= SPARSE_MAX_BYTES
    case Dense(d) => |d| == DENSE_BYTES + 1
  }

  function RegsOf(s: Sketch): (r: Regs)
    requires SketchOk(s)
    ensures |r| == REGISTERS
  {
    match s
    case Sparse(b) => Expand(b)
    case Dense(d) => DenseRegs(d)
  }

  function AddDense(d: Bytes, index: nat, count: nat): (r: (Bytes, int))
    requires |d| == DENSE_BYTES + 1 && index < REGISTERS && count < 64
    ensures |r.0| == |d|
  {
    if count > DenseGet(d, index) then (DenseSet(d, index, count), 1) else (d, 0)
  }

  /** One PFADD: the new sketch and the reply (1 changed, 0 unchanged, -1 corrupt). */
  function PfAdd(s: Sketch, hash: nat): (Sketch, int)
    requires SketchOk(s)
  {
    var index, count := IndexOf(hash), CountOf(hash);
    match s
    case Dense(d) => (var r := AddDense(d, index, count); (Dense(r.0), r.1))
    case Sparse(b) =>
      match SparseSet(b, index, count)
      case Corrupt => (s, -1)
      case Unchanged => (s, 0)
      case Updated(c) => (Sparse(c), 1)
      case Promote =>
        var d := Unpack(b, Zeros(DENSE_BYTES + 1), 0);
        if d.None? then (s, -1) else (Dense(AddDense(d.value, index, count).0), 1)
  }

  lemma AddDenseMeans(d: Bytes, index: nat, count: nat)
    requires |d| == DENSE_BYTES + 1 && index < REGISTERS && count < 64
    ensures DenseRegs(AddDense(d, index, count).0) == AddReg(DenseRegs(d), index, count)
    ensures AddDense(d, index, count).1 == if count > DenseRegs(d)[index] then 1 else 0
  {
    hide DenseSet, DenseGet;
    if count > DenseGet(d, index) {
      DenseSetRegs(d, index, count);
    }
  }

  lemma PromoteMeans(b: Bytes)
    requires SparseOk(b)
    ensures Unpack(b, Zeros(DENSE_BYTES + 1), 0).Some?
    ensures DenseRegs(Unpack(b, Zeros(DENSE_BYTES + 1), 0).value) == Expand(b)
  {
    hide DenseRegs, Unpack, Expand, Whole;
    var d := Zeros(DENSE_BYTES + 1);
    ZeroRegs(d);
    assert DenseRegs(d)[0..] == Rep(0, REGISTERS);
    UnpackMeans(b, d, 0);
    assert DenseRegs(d)[..0] + Expand(b) == Expand(b);
  }

  /** One addition, whatever the encoding: the register keeps the larger count, and the reply says whether it grew. */
  lemma PfAddMeans(s: Sketch, hash: nat)
    requires SketchOk(s)
    ensures var (s', reply) := PfAdd(s, hash);
            && SketchOk(s')
            && RegsOf(s') == AddReg(RegsOf(s), IndexOf(hash), CountOf(hash))
            && reply == (if CountOf(hash) > RegsOf(s)[IndexOf(hash)] then 1 else 0)
  {
    hide DenseRegs, Unpack, Expand, Whole, SparseSet, AddDense, IndexOf, CountOf;
    var index, count := IndexOf(hash), CountOf(hash);
    match s
    case Dense(d) => AddDenseMeans(d, index, count);
    case Sparse(b) =>
      SparseSetMeans(b, index, count);
      if SparseSet(b, index, count).Promote? {
        PromoteMeans(b);
        AddDenseMeans(Unpack(b, Zeros(DENSE_BYTES + 1), 0).value, index, count);
      }
  }

  /** A run of additions on a sketch, and on plain registers. */
  function AddAll(s: Sketch, hashes: seq<nat>): (Sketch, seq<int>)
    requires SketchOk(s)
    decreases |hashes|
  {
    if hashes == [] then (s, []) else
    var (t, reply) := PfAdd(s, hashes[0]);
    PfAddMeans(s, hashes[0]);
    var (u, replies) := AddAll(t, hashes[1..]);
    (u, [reply] + replies)
  }

  function Registers(regs: Regs, hashes: seq<nat>): (r: Regs)
    requires |regs| == REGISTERS
    ensures |r| == REGISTERS
    decreases |hashes|
  {
    if hashes == [] then regs else Registers(AddReg(regs, IndexOf(hashes[0]), CountOf(hashes[0])), hashes[1..])
  }

  function Replies(regs: Regs, hashes: seq<nat>): seq<int>
    requires |regs| == REGISTERS
    decreases |hashes|
  {
    if hashes == [] then [] else
    var i, c := IndexOf(hashes[0]), CountOf(hashes[0]);
    [if c > regs[i] then 1 else 0] + Replies(AddReg(regs, i, c), hashes[1..])
  }

  lemma {:induction false} AddAllMeans(s: Sketch, hashes: seq<nat>)
    requires SketchOk(s)
    ensures var (t, replies) := AddAll(s, hashes);
            SketchOk(t) && RegsOf(t) == Registers(RegsOf(s), hashes) && replies == Replies(RegsOf(s), hashes)
    decreases |hashes|
  {
    hide PfAdd, SketchOk, RegsOf, AddReg, IndexOf, CountOf;
    if hashes != [] {
      PfAddMeans(s, hashes[0]);
      AddAllMeans(PfAdd(s, hashes[0]).0, hashes[1..]);
    }
  }

  function EmptySparse(): Sketch { Sparse(XzeroSet(REGISTERS)) }

  function EmptyDense(): Sketch { Dense(Zeros(DENSE_BYTES + 1)) }

  lemma EmptySketches()
    ensures SketchOk(EmptySparse()) && RegsOf(EmptySparse()) == Blank()
    ensures SketchOk(EmptyDense()) && RegsOf(EmptyDense()) == Blank()
  {
    ZeroRegs(Zeros(DENSE_BYTES + 1));
    ZeroRunMeans(REGISTERS);
  }

  /**
   Over every run of additions, starting sparse (and promoted at whatever point) gives the same registers and
   the same replies as starting dense; the sparse form stays within its byte limit and is never corrupt.
   */
  lemma SparseSimulatesDense(hashes: seq<nat>)
    ensures SketchOk(EmptySparse()) && SketchOk(EmptyDense())
    ensures var (s, rs) := AddAll(EmptySparse(), hashes);
            var (d, rd) := AddAll(EmptyDense(), hashes);
            && SketchOk(s) && SketchOk(d) && RegsOf(s) == RegsOf(d) == Registers(Blank(), hashes)
            && rs == rd && forall r :: r in rs ==> r == 0 || r == 1
  {
    hide SketchOk, RegsOf, Registers, Replies, AddAll, EmptySparse, EmptyDense;
    EmptySketches();
    AddAllMeans(EmptySparse(), hashes);
    AddAllMeans(EmptyDense(), hashes);
    RepliesBinary(Blank(), hashes);
  }

  lemma {:induction false} RepliesBinary(regs: Regs, hashes: seq<nat>)
    requires |regs| == REGISTERS
    ensures forall r :: r in Replies(regs, hashes) ==> r == 0 || r == 1
    decreases |hashes|
  {
    if hashes != [] {
      RepliesBinary(AddReg(regs, IndexOf(hashes[0]), CountOf(hashes[0])), hashes[1..]);
    }
  }
}
