/**
 The HyperLogLog kernels as loops that rewrite byte buffers in place (src/core/hll.rs), each proved
 equal to the operation it implements.
 */
module Hll {
  import opened Bits
  import opened HllSpec
  import opened HllProof
  import opened HllMerge
  import opened HllPattern

  const DENSE_SIZE: nat := HDR + DENSE_BYTES
  const MAGIC: Bytes := [72, 89, 76, 76]

  // ---- sparse bodies ----

  /** Merge adjacent equal values from `start`, in place, over at most five opcodes. */
  method MergeAdjacent(body: Bytes, start: nat) returns (out: Bytes)
    requires start <= |body| && Whole(body[start..])
    ensures out == body[..start] + MergeOps(body[start..], 5)
  {
    hide ValValue, ValLen, ValSet, Whole, MergeOps, OpSize, Expand;
    out := body;
    var p := start;
    var scan := 5;
    while p < |out| && scan > 0
      invariant start <= p <= |out| && 0 <= scan <= 5 && Whole(out[p..])
      invariant body[..start] + MergeOps(body[start..], 5) == out[..p] + MergeOps(out[p..], scan)
      decreases scan
    {
      ghost var rest := out[p..];
      MergeStep(out, p, scan);
      scan := scan - 1;
      if IsXzero(out[p]) {
        p := p + 2;
      } else if IsZero(out[p]) {
        p := p + 1;
      } else if p + 1 < |out| && IsVal(out[p + 1]) && ValValue(out[p]) == ValValue(out[p + 1])
                && ValLen(out[p]) + ValLen(out[p + 1]) <= VAL_MAX_LEN
      {
        var len := ValLen(out[p]) + ValLen(out[p + 1]);
        out := RemoveAt(out[p + 1 := ValSet(ValValue(out[p]), len)], p);
      } else {
        p := p + 1;
      }
    }
    MergeDone(out[p..], scan);
    assert out[..p] + out[p..] == out;
  }

  function RemoveAt(b: Bytes, p: nat): Bytes
    requires p < |b|
  {
    b[..p] + b[p + 1..]
  }

  /** How one scan step relates the remaining merge to the bytes already passed. */
  lemma MergeStep(out: Bytes, p: nat, scan: nat)
    requires p < |out| && scan > 0 && Whole(out[p..])
    ensures Mergeable(out[p..]) ==>
              var next := RemoveAt(out[p + 1 := ValSet(ValValue(out[p]), ValLen(out[p]) + ValLen(out[p + 1]))], p);
              p < |next| && Whole(next[p..]) && out[..p] + MergeOps(out[p..], scan) == next[..p] + MergeOps(next[p..], scan - 1)
    ensures !Mergeable(out[p..]) ==>
              var q := p + if IsXzero(out[p]) then 2 else 1;
              q <= |out| && Whole(out[q..]) && out[..p] + MergeOps(out[p..], scan) == out[..q] + MergeOps(out[q..], scan - 1)
  {
    if Mergeable(out[p..]) {
      MergeStepVal(out, p, scan);
    } else {
      MergeStepSkip(out, p, scan);
    }
  }

  lemma MergeStepVal(out: Bytes, p: nat, scan: nat)
    requires p < |out| && scan > 0 && Whole(out[p..]) && Mergeable(out[p..])
    ensures var next := RemoveAt(out[p + 1 := ValSet(ValValue(out[p]), ValLen(out[p]) + ValLen(out[p + 1]))], p);
            p < |next| && Whole(next[p..]) && out[..p] + MergeOps(out[p..], scan) == next[..p] + MergeOps(next[p..], scan - 1)
  {
    hide ValValue, ValLen, ValSet, Whole, Expand, MergeOps, IsVal;
    var rest := out[p..];
    MergeTwo(rest);
    WholeFront(rest);
    MergeUnfold(rest, scan);
    var v := ValSet(ValValue(out[p]), ValLen(out[p]) + ValLen(out[p + 1]));
    var next := RemoveAt(out[p + 1 := v], p);
    assert next[p..] == [v] + rest[2..] && next[..p] == out[..p];
  }

  lemma MergeStepSkip(out: Bytes, p: nat, scan: nat)
    requires p < |out| && scan > 0 && Whole(out[p..]) && !Mergeable(out[p..])
    ensures var q := p + if IsXzero(out[p]) then 2 else 1;
            q <= |out| && Whole(out[q..]) && out[..p] + MergeOps(out[p..], scan) == out[..q] + MergeOps(out[q..], scan - 1)
  {
    hide ValValue, ValLen, ValSet, Whole, Expand, MergeOps, Mergeable;
    var rest := out[p..];
    WholeFront(rest);
    MergeUnfold(rest, scan);
    var n := OpSize(rest);
    assert out[p + n..] == rest[n..] && out[..p + n] == out[..p] + rest[..n];
  }

  lemma MergeDone(b: Bytes, scan: nat)
    requires b == [] || scan == 0
    ensures MergeOps(b, scan) == b
  {
  }

  lemma MergeUnfold(b: Bytes, scan: nat)
    requires b != [] && scan > 0 && OpSize(b) <= |b|
    ensures Mergeable(b) ==> MergeOps(b, scan) == MergeOps([ValSet(ValValue(b[0]), ValLen(b[0]) + ValLen(b[1]))] + b[2..], scan - 1)
    ensures !Mergeable(b) ==> MergeOps(b, scan) == b[..OpSize(b)] + MergeOps(b[OpSize(b)..], scan - 1)
  {
  }

  /** Substitute `ops` for the `size` bytes at `p`, moving the tail byte by byte. */
  method Splice(body: Bytes, p: nat, size: nat, ops: Bytes) returns (out: Bytes)
    requires p + size <= |body|
    ensures out == body[..p] + ops + body[p + size..]
  {
    var next := p + size;
    if |ops| > size {
      out := MoveUp(body, next, |ops| - size);
    } else if |ops| < size {
      out := MoveDown(body, next, size - |ops|);
    } else {
      out := body;
    }
    out := out[..p] + ops + out[p + |ops|..];
  }

  /** Make room: the bytes from `next` on move up by `delta`, the last one first. */
  method MoveUp(body: Bytes, next: nat, delta: nat) returns (out: Bytes)
    requires next <= |body|
    ensures |out| == |body| + delta && out[..next] == body[..next] && out[next + delta..] == body[next..]
  {
    out := body + Zeros(delta);
    var i := |body|;
    while i > next
      invariant next <= i <= |body| && |out| == |body| + delta
      invariant forall j :: 0 <= j < i ==> out[j] == body[j]
      invariant forall j :: i <= j < |body| ==> Moved(out, body, j, delta)
    {
      i := i - 1;
      ghost var was := out;
      out := out[i + delta := out[i]];
      forall j | i <= j < |body|
        ensures Moved(out, body, j, delta)
      {
        if j > i {
          assert Moved(was, body, j, delta);
        }
      }
    }
    forall j | 0 <= j < |body| - next
      ensures out[next + delta..][j] == body[next..][j]
    {
      assert Moved(out, body, next + j, delta);
    }
  }

  /** Close a gap: the bytes from `next` on move down by `shift`, the first one first, and the end is cut off. */
  method MoveDown(body: Bytes, next: nat, shift: nat) returns (out: Bytes)
    requires shift <= next <= |body|
    ensures |out| == |body| - shift && out[..next - shift] == body[..next - shift] && out[next - shift..] == body[next..]
  {
    out := body;
    ghost var d: int := 0 - shift;
    var i := next;
    while i < |body|
      invariant next <= i <= |body| && |out| == |body|
      invariant forall j :: 0 <= j < next - shift || i <= j < |body| ==> out[j] == body[j]
      invariant forall j :: next <= j < i ==> Moved(out, body, j, d)
    {
      ghost var was := out;
      out := out[i - shift := out[i]];
      i := i + 1;
      forall j | next <= j < i
        ensures Moved(out, body, j, d)
      {
        if j < i - 1 {
          assert Moved(was, body, j, d);
        }
      }
    }
    ghost var moved := out;
    out := out[..|body| - shift];
    forall j | 0 <= j < |body| - next
      ensures out[next - shift..][j] == body[next..][j]
    {
      assert Moved(moved, body, next + j, d);
    }
  }

  predicate Moved(out: Bytes, body: Bytes, j: nat, d: int) {
    j < |body| && 0 <= j + d < |out| && out[j + d] == body[j]
  }

  /** `hllSparseSet` on the opcodes of a sparse buffer. */
  method SparseUpdate(body: Bytes, index: nat, count: nat) returns (r: SetResult)
    requires SparseOk(body) && index < REGISTERS && 1 <= count
    ensures r == SparseSet(body, index, count)
  {
    hide Whole, Expand, OpLen, OpVal, OpSize, Locate, Replace, SplitOp, MergeOps, IsVal;
    if count > VAL_MAX_VALUE {
      return Promote;
    }
    LocateOk(body, index);
    var p, first, prev := FindOpcode(body, index);
    var op := body[p..];
    OpBounds(op);
    if IsVal(op[0]) && OpVal(op) >= count {
      return Unchanged;
    }
    var ops := SplitOp(OpVal(op), OpLen(op), index - first, count);
    if |ops| > OpSize(op) && HDR + |body| + |ops| - OpSize(op) > SPARSE_MAX_BYTES {
      return Promote;
    }
    SplitWhole(body, Found(p, first, prev), ops, index, count);
    var out := Splice(body, p, OpSize(op), ops);
    out := MergeAdjacent(out, prev);
    ReplaceIs(body, Found(p, first, prev), ops);
    return Updated(out);
  }

  lemma ReplaceIs(b: Bytes, f: Found, ops: Bytes)
    requires f.prev <= f.p < |b| && f.p + OpSize(b[f.p..]) <= |b|
    ensures var c := b[..f.p] + ops + b[f.p + OpSize(b[f.p..])..];
            f.prev <= |c| && Replace(b, f, ops) == c[..f.prev] + MergeOps(c[f.prev..], 5)
  {
  }

  /** Walk the opcodes up to the one that covers `index`. */
  method FindOpcode(body: Bytes, index: nat) returns (p: nat, first: nat, prev: nat)
    requires Locate(body, index, 0, 0, 0).Some?
    ensures Locate(body, index, 0, 0, 0) == Some(Found(p, first, prev))
  {
    hide OpLen;
    p, first, prev := 0, 0, 0;
    assert body[0..] == body;
    while index >= first + OpLen(body[p..])
      invariant 0 <= p < |body| && first <= index
      invariant Locate(body, index, 0, 0, 0) == Locate(body, index, p, first, prev)
      decreases |body| - p
    {
      first := first + OpLen(body[p..]);
      prev := p;
      p := p + OpSize(body[p..]);
    }
  }

  lemma SplitWhole(b: Bytes, f: Found, ops: Bytes, index: nat, count: nat)
    requires SparseOk(b) && index < REGISTERS && 1 <= count <= VAL_MAX_VALUE
    requires f.prev <= f.p < |b| && Whole(b[..f.prev]) && Whole(b[..f.p]) && f.p + OpSize(b[f.p..]) <= |b|
    requires f.first <= index < f.first + OpLen(b[f.p..])
    requires if OpVal(b[f.p..]) == 0 then OpLen(b[f.p..]) <= REGISTERS else OpVal(b[f.p..]) <= VAL_MAX_VALUE && OpLen(b[f.p..]) <= VAL_MAX_LEN
    requires ops == SplitOp(OpVal(b[f.p..]), OpLen(b[f.p..]), index - f.first, count)
    ensures var c := b[..f.p] + ops + b[f.p + OpSize(b[f.p..])..];
            f.prev <= |c| && Whole(c[f.prev..])
  {
    hide Whole, Expand, OpLen, OpVal, OpSize, SplitOp;
    SplitMeans(OpVal(b[f.p..]), OpLen(b[f.p..]), index - f.first, count);
    ReplaceMeans(b, f.p, ops);
    var c := b[..f.p] + ops + b[f.p + OpSize(b[f.p..])..];
    assert c[..f.prev] == b[..f.prev] && c[..f.prev] + c[f.prev..] == c;
    ExpandConcat(c[..f.prev], c[f.prev..]);
  }

  // ---- packed registers ----

  /** Decode opcodes into blank packed registers; false when they do not cover exactly the registers. */
  method SparseToDenseRegisters(body: Bytes, blank: Bytes) returns (ok: bool, d: Bytes)
    requires |blank| == DENSE_BYTES + 1
    ensures ok <==> Unpack(body, blank, 0).Some?
    ensures ok ==> d == Unpack(body, blank, 0).value
  {
    hide Unpack, FillRun, ZeroLen, XzeroLen, ValLen, ValValue;
    d := blank;
    var p, idx := 0, 0;
    assert body[0..] == body;
    while p < |body|
      invariant 0 <= p && 0 <= idx <= REGISTERS && |d| == DENSE_BYTES + 1
      invariant Unpack(body, blank, 0) == Unpack(if p <= |body| then body[p..] else [], d, idx)
      decreases |body| - p
    {
      ghost var rest := body[p..];
      UnpackUnfold(rest, d, idx);
      var b := body[p];
      if IsZero(b) {
        var run := ZeroLen(b);
        if run + idx > REGISTERS { return false, d; }
        idx := idx + run;
        p := p + 1;
      } else if IsXzero(b) {
        var b1: byte := if p + 1 < |body| then body[p + 1] else 0;
        var run := XzeroLen(b, b1);
        if run + idx > REGISTERS { return false, d; }
        idx := idx + run;
        p := p + 2;
      } else {
        var run, val := ValLen(b), ValValue(b);
        if run + idx > REGISTERS { return false, d; }
        d := WriteRun(d, idx, val, run);
        idx := idx + run;
        p := p + 1;
      }
      assert Rest(rest) == if p <= |body| then body[p..] else [];
    }
    assert body[|body|..] == [];
    UnpackDone(d, idx);
    return idx == REGISTERS, d;
  }

  lemma UnpackUnfold(b: Bytes, d: Bytes, idx: nat)
    requires b != [] && |d| > DENSE_BYTES && idx <= REGISTERS
    ensures Unpack(b, d, idx) ==
            if idx + OpLen(b) > REGISTERS then None
            else Unpack(Rest(b), if IsVal(b[0]) then FillRun(d, idx, OpVal(b), OpLen(b)) else d, idx + OpLen(b))
  {
  }

  lemma UnpackDone(d: Bytes, idx: nat)
    requires |d| > DENSE_BYTES && idx <= REGISTERS
    ensures Unpack([], d, idx) == if idx == REGISTERS then Some(d) else None
  {
  }

  method WriteRun(d0: Bytes, idx0: nat, val: nat, run: nat) returns (d: Bytes)
    requires |d0| == DENSE_BYTES + 1 && idx0 + run <= REGISTERS && val < 64
    ensures d == FillRun(d0, idx0, val, run)
  {
    hide DenseSet;
    d := d0;
    var i, idx := 0, idx0;
    while i < run
      invariant 0 <= i <= run && idx == idx0 + i && |d| == |d0|
      invariant FillRun(d0, idx0, val, run) == FillRun(d, idx, val, run - i)
    {
      d := DenseSet(d, idx, val);
      idx := idx + 1;
      i := i + 1;
    }
  }

  // ---- buffers with a header ----

  /** `buf[15] |= 0x80`: the cached cardinality is stale. */
  function Stale(b: byte): byte { if b < 128 then b + 128 else b }

  class HyperLogLog {
    var buf: Bytes

    ghost predicate Valid()
      reads this
    {
      && |buf| >= HDR && buf[..4] == MAGIC && (buf[4] == 0 || buf[4] == 1)
      && SketchOk(Contents())
    }

    function Contents(): Sketch
      requires |buf| >= HDR
      reads this
    {
      if buf[4] == 1 then Sparse(buf[HDR..]) else Dense(buf[HDR..])
    }

    /** A fresh sparse sketch. */
    constructor ()
      ensures Valid() && Contents() == EmptySparse()
    {
      buf := MAGIC + [1] + Zeros(11) + XzeroSet(REGISTERS);
      new;
      assert buf[HDR..] == XzeroSet(REGISTERS);
      EmptySketches();
    }

    /** Add a hashed element; the reply is 1 when a register grew, 0 when none did, never -1. */
    method PfAdd(hash: nat) returns (reply: int)
      requires Valid()
      modifies this
      ensures Valid() && (Contents(), reply) == HllProof.PfAdd(old(Contents()), hash)
      ensures hash < TWO64 ==> Offered(old(RegsOf(Contents())), RegsOf(Contents()), hash, reply)
      ensures buf[5..15] == old(buf[5..15]) && buf[15] == if reply == 1 then Stale(old(buf[15])) else old(buf[15])
    {
      hide HllProof.PfAdd, Offered, RegsOf;
      PfAddMeans(Contents(), hash);
      if hash < TWO64 {
        PfAddOffers(Contents(), hash);
      }
      if buf[4] == 1 {
        reply := PfAddSparse(hash);
      } else {
        reply := PfAddDense(hash);
      }
    }

    method PfAddSparse(hash: nat) returns (reply: int)
      requires Valid() && buf[4] == 1
      modifies this
      ensures |buf| >= HDR && buf[..4] == MAGIC && (buf[4] == 0 || buf[4] == 1)
      ensures old(SketchOk(Contents())) && (Contents(), reply) == HllProof.PfAdd(old(Contents()), hash)
      ensures hash < TWO64 ==> SketchOk(Contents()) && Offered(old(RegsOf(Contents())), RegsOf(Contents()), hash, reply)
      ensures buf[5..15] == old(buf[5..15]) && buf[15] == if reply == 1 then Stale(old(buf[15])) else old(buf[15])
    {
      hide SparseSet, Unpack, IndexOf, CountOf, Offered, RegsOf;
      if hash < TWO64 {
        PfAddOffers(Contents(), hash);
      }
      var index, count := IndexOf(hash), CountOf(hash);
      var r := SparseUpdate(buf[HDR..], index, count);
      match r
      case Corrupt => return -1;
      case Unchanged => return 0;
      case Updated(body) =>
        buf := buf[..HDR] + body;
        buf := buf[15 := Stale(buf[15])];
        assert buf[HDR..] == body;
        return 1;
      case Promote =>
        var ok, d := SparseToDenseRegisters(buf[HDR..], Zeros(DENSE_BYTES + 1));
        if !ok {
          return -1;
        }
        var old0 := DenseGet(d, index);
        if count > old0 {
          d := DenseSet(d, index, count);
        }
        buf := buf[..HDR][4 := 0] + d;
        buf := buf[15 := Stale(buf[15])];
        assert buf[HDR..] == d;
        return 1;
    }

    /** Replies -1 for a buffer that is not a dense sketch. */
    method PfAddDense(hash: nat) returns (reply: int)
      requires |buf| == DENSE_SIZE + 1
      modifies this
      ensures |buf| == |old(buf)|
      ensures reply == -1 <==> old(buf[..4] != MAGIC || buf[4] != 0)
      ensures reply == -1 ==> buf == old(buf)
      ensures reply != -1 ==>
                && old(SketchOk(Contents())) && (Contents(), reply) == HllProof.PfAdd(old(Contents()), hash)
                && buf[..15] == old(buf[..15]) && buf[15] == if reply == 1 then Stale(old(buf[15])) else old(buf[15])
      ensures reply != -1 && hash < TWO64 ==>
                SketchOk(Contents()) && Offered(old(RegsOf(Contents())), RegsOf(Contents()), hash, reply)
    {
      hide DenseGet, DenseSet, IndexOf, CountOf, Offered, RegsOf;
      if buf[..4] != MAGIC || buf[4] != 0 {
        return -1;
      }
      if hash < TWO64 {
        PfAddOffers(Contents(), hash);
      }
      var index, count := IndexOf(hash), CountOf(hash);
      var d := buf[HDR..];
      if count > DenseGet(d, index) {
        var e := DenseSet(d, index, count);
        buf := buf[..HDR][15 := Stale(buf[15])] + e;
        assert buf[HDR..] == e;
        return 1;
      }
      return 0;
    }
  }

  /** Merge packed register arrays into one raw array of maxima, then pack it. */
  method PfMerge(ins: seq<Bytes>, out: Bytes) returns (reply: int, r: Bytes)
    requires |out| == DENSE_SIZE + 1
    ensures reply == 0 <==> DenseForm(out[..DENSE_SIZE]) && forall b :: b in ins ==> DenseForm(b)
    ensures reply == 0 || (reply == -1 && r == out)
    ensures reply == 0 ==>
              && (forall b :: b in Bodies(ins) ==> |b| >= DENSE_BYTES)
              && |r| == |out| && r[..15] == out[..15] && r[15] == Stale(out[15])
              && DenseRegs(r[HDR..]) == MergeAll(Bodies(ins))
  {
    hide DenseGet, DenseSet, DenseRegs, MaxRegs, MergeAll, DenseForm;
    NoBodies();
    r := out;
    if !IsDense(out[..DENSE_SIZE]) {
      return -1, r;
    }
    var raw := Blank();
    var k := 0;
    assert ins[..0] == [];
    while k < |ins|
      invariant 0 <= k <= |ins| && forall b :: b in ins[..k] ==> DenseForm(b)
      invariant (forall b :: b in Bodies(ins[..k]) ==> |b| >= DENSE_BYTES) && raw == MergeAll(Bodies(ins[..k]))
    {
      if !IsDense(ins[k]) {
        return -1, r;
      }
      assert ins[..k + 1] == ins[..k] + [ins[k]];
      BodiesSnoc(ins[..k], ins[k]);
      raw := MergeDense(raw, ins[k][HDR..]);
      k := k + 1;
    }
    assert ins[..k] == ins;
    MergeAllSmall(Bodies(ins));
    var d := DenseCompress(out[HDR..], raw);
    r := out[..HDR][15 := Stale(out[15])] + d;
    assert r[HDR..] == d;
    return 0, r;
  }

  predicate DenseForm(b: Bytes) { |b| == DENSE_SIZE && b[..4] == MAGIC && b[4] == 0 }

  /** `is_valid_hll(buf) == ValidDense`. */
  predicate IsDense(b: Bytes)
    ensures IsDense(b) <==> DenseForm(b)
  {
    |b| >= HDR && b[..4] == MAGIC && b[4] == 0 && |b| == DENSE_SIZE
  }

  function Bodies(ins: seq<Bytes>): (r: seq<Bytes>)
    ensures |r| == |ins|
  {
    seq(|ins|, i requires 0 <= i < |ins| => if |ins[i]| >= HDR then ins[i][HDR..] else [])
  }

  lemma NoBodies()
    ensures Bodies([]) == [] && MergeAll([]) == Blank()
  {
  }

  lemma BodiesSnoc(ins: seq<Bytes>, b: Bytes)
    requires DenseForm(b) && forall d :: d in Bodies(ins) ==> |d| >= DENSE_BYTES
    ensures Bodies(ins + [b]) == Bodies(ins) + [b[HDR..]]
    ensures forall d :: d in Bodies(ins + [b]) ==> |d| >= DENSE_BYTES
    ensures MergeAll(Bodies(ins + [b])) == MaxRegs(MergeAll(Bodies(ins)), DenseRegs(b[HDR..]))
  {
    var all := Bodies(ins + [b]);
    assert all == Bodies(ins) + [b[HDR..]];
    assert all[..|all| - 1] == Bodies(ins);
  }

  lemma {:induction false} MergeAllSmall(ins: seq<Bytes>)
    requires forall d :: d in ins ==> |d| >= DENSE_BYTES
    ensures forall i :: 0 <= i < REGISTERS ==> MergeAll(ins)[i] < 64
  {
    if ins != [] {
      MergeAllSmall(ins[..|ins| - 1]);
    }
  }

  method MergeDense(raw0: Regs, d: Bytes) returns (raw: Regs)
    requires |raw0| == REGISTERS && |d| >= DENSE_BYTES
    ensures raw == MaxRegs(raw0, DenseRegs(d))
  {
    hide DenseGet;
    raw := raw0;
    var i := 0;
    while i < REGISTERS
      invariant 0 <= i <= REGISTERS && |raw| == REGISTERS
      invariant forall j :: 0 <= j < i ==> raw[j] == MaxRegs(raw0, DenseRegs(d))[j]
      invariant forall j :: i <= j < REGISTERS ==> raw[j] == raw0[j]
    {
      var val := DenseGet(d, i);
      if val > raw[i] {
        raw := raw[i := val];
      }
      i := i + 1;
    }
  }

  method DenseCompress(d0: Bytes, raw: Regs) returns (d: Bytes)
    requires |d0| == DENSE_BYTES + 1 && |raw| == REGISTERS && forall i :: 0 <= i < REGISTERS ==> raw[i] < 64
    ensures |d| == |d0| && DenseRegs(d) == raw
  {
    hide DenseGet, DenseSet, DenseRegs;
    d := d0;
    var i := 0;
    while i < REGISTERS
      invariant 0 <= i <= REGISTERS && |d| == |d0|
      invariant DenseRegs(d)[..i] == raw[..i]
    {
      DenseSetRegs(d, i, raw[i]);
      d := DenseSet(d, i, raw[i]);
      i := i + 1;
      assert DenseRegs(d)[..i] == raw[..i - 1] + [raw[i - 1]];
    }
    assert DenseRegs(d)[..i] == DenseRegs(d);
  }
}
