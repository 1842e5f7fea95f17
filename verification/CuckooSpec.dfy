/**
 What one operation of the cuckoo filter does, as functions on values (src/core/cuckoo.rs).
 A sub-filter is a flat table of slots, `spb` of them per bucket, slot 0 meaning "empty".
 */
module CuckooSpec {
  import opened Bits

  const MIX: nat := 0x5bd1_e995
  const MAX_BUCKETS: nat := 0xFF_FFFF_FFFF_FFFF
  const U64_MAX: nat := 0xFFFF_FFFF_FFFF_FFFF

  type Table = seq<byte>

  datatype Params = Params(spb: nat, maxIterations: nat, expansion: nat, numBuckets: nat)

  datatype Filter = Filter(params: Params, filters: seq<Table>, numItems: int, numDeletes: nat, numKoInserts: nat)

  function Fp(h: nat): (fp: byte)
    ensures fp > 0
  {
    h % 255 + 1
  }

  function AltIndex(fp: byte, index: nat): nat {
    Xor(index, fp * MIX)
  }

  /** The two buckets in which the fingerprint of `h` may sit, in a table of `n` buckets. */
  predicate Candidate(h: nat, n: nat, b: nat)
    requires n > 0
  {
    b == h % n || b == AltIndex(Fp(h), h) % n
  }

  /** `filters[i][p] = b`. */
  function Set(fs: seq<Table>, i: nat, p: nat, b: byte): seq<Table>
    requires i < |fs| && p < |fs[i]|
  {
    var f: Table := fs[i];
    var g: Table := f[p := b];
    fs[i := g]
  }

  function Buckets(f: Table, spb: nat): nat
    requires spb > 0
  {
    |f| / spb
  }

  /** At least one bucket, and only whole buckets. */
  predicate TableOk(f: Table, spb: nat) {
    spb > 0 && |f| / spb > 0 && |f| % spb == 0
  }

  /** Slot `p` carries the fingerprint of `h` in one of the buckets of `h`. */
  ghost predicate Matches(f: Table, spb: nat, h: nat, p: nat)
    requires TableOk(f, spb)
  {
    p < |f| && f[p] == Fp(h) && Candidate(h, Buckets(f, spb), p / spb)
  }

  // ---- slot searches ----

  function FindIn(f: Table, lo: nat, hi: nat, target: byte): (r: Option<nat>)
    requires lo <= hi <= |f|
    ensures r.Some? ==> lo <= r.value < hi && f[r.value] == target && forall q :: lo <= q < r.value ==> f[q] != target
    ensures r.None? ==> forall q :: lo <= q < hi ==> f[q] != target
    decreases hi - lo
  {
    if lo == hi then None else if f[lo] == target then Some(lo) else FindIn(f, lo + 1, hi, target)
  }

  lemma BucketBounds(f: Table, spb: nat, b: nat)
    requires TableOk(f, spb) && b < Buckets(f, spb)
    ensures b * spb + spb <= |f|
  {
    var n := Buckets(f, spb);
    assert |f| == n * spb;
    MultipleBounds(spb, n - b);
    assert spb * (n - b) == n * spb - b * spb;
  }

  lemma SlotBucket(p: nat, b: nat, spb: nat)
    requires spb > 0
    ensures p / spb == b <==> b * spb <= p < b * spb + spb
  {
    if b * spb <= p < b * spb + spb {
      ModUnique(p, spb, b, p - b * spb);
    }
    if p / spb == b {
      assert p == spb * b + p % spb;
    }
  }

  function FindBucket(f: Table, spb: nat, b: nat, target: byte): (r: Option<nat>)
    requires TableOk(f, spb) && b < Buckets(f, spb)
    ensures r.Some? ==> r.value < |f| && r.value / spb == b && f[r.value] == target
    ensures r.None? ==> forall q :: 0 <= q < |f| && q / spb == b ==> f[q] != target
  {
    BucketBounds(f, spb, b);
    var r := FindIn(f, b * spb, b * spb + spb, target);
    assert r.Some? ==> r.value / spb == b by {
      if r.Some? { SlotBucket(r.value, b, spb); }
    }
    assert r.None? ==> forall q :: 0 <= q < |f| && q / spb == b ==> f[q] != target by {
      forall q | 0 <= q < |f| && q / spb == b && r.None?
        ensures f[q] != target
      {
        SlotBucket(q, b, spb);
      }
    }
    r
  }

  function FindSlot(f: Table, spb: nat, b1: nat, b2: nat, target: byte): (r: Option<nat>)
    requires TableOk(f, spb) && b1 < Buckets(f, spb) && b2 < Buckets(f, spb)
    ensures r.Some? ==> r.value < |f| && (r.value / spb == b1 || r.value / spb == b2) && f[r.value] == target
    ensures r.None? ==> forall q :: 0 <= q < |f| && (q / spb == b1 || q / spb == b2) ==> f[q] != target
  {
    var r := FindBucket(f, spb, b1, target);
    if r.Some? then r else FindBucket(f, spb, b2, target)
  }

  function FindCandidate(f: Table, spb: nat, h: nat, target: byte): (r: Option<nat>)
    requires TableOk(f, spb)
    ensures r.Some? ==> r.value < |f| && Candidate(h, Buckets(f, spb), r.value / spb) && f[r.value] == target
    ensures r.None? ==> forall q :: 0 <= q < |f| && Candidate(h, Buckets(f, spb), q / spb) ==> f[q] != target
  {
    var n := Buckets(f, spb);
    FindSlot(f, spb, h % n, AltIndex(Fp(h), h) % n, target)
  }

  predicate TablesOk(fs: seq<Table>, spb: nat) {
    forall i :: 0 <= i < |fs| ==> TableOk(fs[i], spb)
  }

  /** Among the oldest `k`: the newest sub-filter with a candidate slot holding `target`, and that slot. */
  function FindNewest(fs: seq<Table>, spb: nat, h: nat, target: byte, k: nat): (r: Option<(nat, nat)>)
    requires TablesOk(fs, spb) && k <= |fs|
    ensures r.Some? ==>
              && r.value.0 < k && FindCandidate(fs[r.value.0], spb, h, target) == Some(r.value.1)
              && forall j :: r.value.0 < j < k ==> FindCandidate(fs[j], spb, h, target).None?
    ensures r.None? ==> forall j :: 0 <= j < k ==> FindCandidate(fs[j], spb, h, target).None?
    decreases k
  {
    if k == 0 then None else
    var c := FindCandidate(fs[k - 1], spb, h, target);
    if c.Some? then Some((k - 1, c.value)) else FindNewest(fs, spb, h, target, k - 1)
  }

  // ---- parameters and sizes ----

  /** The victim slot one step back, in unsigned 8-bit arithmetic. */
  function PrevSlot(v: nat, spb: nat): nat
    requires spb > 0
  {
    ((v + spb - 1) % 256) % spb
  }

  /** The 8-bit sum of the rollback never wraps for these parameters. */
  predicate RollbackFits(p: Params) {
    Min(p.maxIterations, p.spb - 1) + p.spb <= 256
  }

  ghost predicate ParamsOk(p: Params) {
    && 0 < p.spb < 256
    && p.maxIterations < 65536
    && (p.expansion == 0 || IsPow2(p.expansion))
    && p.expansion < 65536
    && IsPow2(p.numBuckets)
  }

  /** `f64::from(expansion).powi(i) as u64`: exact on powers of two, saturating. */
  function Growth(p: Params, i: nat): nat {
    Min(Power(p.expansion, i), U64_MAX)
  }

  function SubFilterFits(p: Params, i: nat): bool
    requires p.spb > 0 && p.numBuckets > 0
  {
    && Growth(p, i) <= MAX_BUCKETS / p.numBuckets
    && p.numBuckets * Growth(p, i) <= U64_MAX / p.spb
  }

  function SubFilterSize(p: Params, i: nat): nat {
    p.numBuckets * Growth(p, i) * p.spb
  }

  ghost predicate Valid(s: Filter) {
    && ParamsOk(s.params)
    && (s.params.expansion == 0 ==> |s.filters| <= 1)
    && forall i :: 0 <= i < |s.filters| ==> SizeOk(s.params, s.filters, i)
  }

  predicate SizeOk(p: Params, fs: seq<Table>, i: nat)
    requires p.spb > 0 && p.numBuckets > 0 && i < |fs|
  {
    SubFilterFits(p, i) && |fs[i]| == SubFilterSize(p, i)
  }

  // ---- operations ----

  function New(p: Params): Filter
    requires p.spb > 0 && p.numBuckets > 0
  {
    Grow(Filter(p, [], 0, 0, 0))
  }

  function Grow(s: Filter): Filter
    requires s.params.spb > 0 && s.params.numBuckets > 0
  {
    if SubFilterFits(s.params, |s.filters|) then
      s.(filters := s.filters + [Zeros(SubFilterSize(s.params, |s.filters|))])
    else s
  }

  datatype Ko = Ko(table: Table, idx: nat, fp: byte, victim: nat)

  predicate KoOk(k: Ko, spb: nat) {
    TableOk(k.table, spb) && k.idx < Buckets(k.table, spb) && k.victim < spb
  }

  function KoPos(k: Ko, spb: nat): (p: nat)
    requires KoOk(k, spb)
    ensures p < |k.table| && p / spb == k.idx
  {
    BucketBounds(k.table, spb, k.idx);
    SlotBucket(k.idx * spb + k.victim, k.idx, spb);
    k.idx * spb + k.victim
  }

  /** One displacement: take the victim's slot and move on to the victim's other bucket. */
  function KoStep(k: Ko, spb: nat): (k': Ko)
    requires KoOk(k, spb)
    ensures KoOk(k', spb) && |k'.table| == |k.table|
  {
    var p := KoPos(k, spb);
    var out := k.table[p];
    Ko(k.table[p := k.fp], AltIndex(out, k.idx) % Buckets(k.table, spb), out, (k.victim + 1) % spb)
  }

  /** At most `fuel` displacements; None when every bucket visited was full. */
  function KoChain(k: Ko, spb: nat, fuel: nat): (r: Option<Table>)
    requires KoOk(k, spb)
    ensures r.Some? ==> |r.value| == |k.table|
    decreases fuel
  {
    if fuel == 0 then None else
    var k' := KoStep(k, spb);
    var e := FindBucket(k'.table, spb, k'.idx, 0);
    if e.Some? then Some(k'.table[e.value := k'.fp]) else KoChain(k', spb, fuel - 1)
  }

  function KoStart(f: Table, spb: nat, h: nat): (k: Ko)
    requires TableOk(f, spb)
    ensures KoOk(k, spb)
  {
    Ko(f, h % Buckets(f, spb), Fp(h), 0)
  }

  /** After `i` displacements. */
  function KoAfter(k: Ko, spb: nat, i: nat): (r: Ko)
    requires KoOk(k, spb)
    ensures KoOk(r, spb) && |r.table| == |k.table|
  {
    if i == 0 then k else KoStep(KoAfter(k, spb, i - 1), spb)
  }

  /** One rollback step: the victim slot and the bucket are recomputed from what is in hand. */
  function KoUndo(k: Ko, spb: nat): (k': Ko)
    requires KoOk(k, spb)
    ensures KoOk(k', spb) && |k'.table| == |k.table|
  {
    var v := PrevSlot(k.victim, spb);
    var b := AltIndex(k.fp, k.idx) % Buckets(k.table, spb);
    var p := KoPos(Ko(k.table, b, k.fp, v), spb);
    Ko(k.table[p := k.fp], b, k.table[p], v)
  }

  /** After `i` rollback steps. */
  function KoBack(k: Ko, spb: nat, i: nat): (r: Ko)
    requires KoOk(k, spb)
    ensures KoOk(r, spb) && |r.table| == |k.table|
  {
    if i == 0 then k else KoUndo(KoBack(k, spb, i - 1), spb)
  }

  /** What a failed displacement of `h` leaves of the table: `m` steps forward, then `m` steps back. */
  function RolledBack(f: Table, spb: nat, h: nat, m: nat): (r: Table)
    requires TableOk(f, spb)
    ensures |r| == |f|
  {
    KoBack(KoAfter(KoStart(f, spb, h), spb, m), spb, m).table
  }

  /** Where a fresh fingerprint goes without growing: first hole newest-first, else displacement. */
  function Place(s: Filter, h: nat): (r: Option<Filter>)
    requires TablesOk(s.filters, s.params.spb) && |s.filters| > 0
  {
    var spb := s.params.spb;
    var hole := FindNewest(s.filters, spb, h, 0, |s.filters|);
    if hole.Some? then
      var (i, p) := hole.value;
      Some(s.(filters := Set(s.filters, i, p, Fp(h)), numItems := s.numItems + 1))
    else
      var last := |s.filters| - 1;
      var ko := KoChain(KoStart(s.filters[last], spb, h), spb, s.params.maxIterations);
      if ko.Some? then
        Some(s.(filters := s.filters[last := ko.value], numItems := s.numItems + 1, numKoInserts := s.numKoInserts + 1))
      else None
  }

  /** The filter after a displacement that found no place. */
  function Failed(s: Filter, h: nat): Filter
    requires TablesOk(s.filters, s.params.spb) && |s.filters| > 0
  {
    var last := |s.filters| - 1;
    s.(filters := s.filters[last := RolledBack(s.filters[last], s.params.spb, h, s.params.maxIterations)])
  }

  predicate MayGrow(s: Filter)
    requires s.params.spb > 0 && s.params.numBuckets > 0
  {
    s.params.expansion != 0 && SubFilterFits(s.params, |s.filters|)
  }

  ghost function Insert(s: Filter, h: nat): (r: (Filter, bool))
    requires Valid(s) && |s.filters| > 0
  {
    ValidTables(s);
    var direct := Place(s, h);
    if direct.Some? then (direct.value, true)
    else
      FailedValid(s, h);
      var t := Failed(s, h);
      if !MayGrow(t) then (t, false)
      else
        GrowValid(t);
        ValidTables(Grow(t));
        var grown := Place(Grow(t), h);
        if grown.Some? then (grown.value, true) else (Grow(t), false)
  }

  ghost predicate Contains(s: Filter, h: nat)
    requires TablesOk(s.filters, s.params.spb)
  {
    exists i, p :: 0 <= i < |s.filters| && Matches(s.filters[i], s.params.spb, h, p)
  }

  function Delete(s: Filter, h: nat): (r: (Filter, bool))
    requires TablesOk(s.filters, s.params.spb)
  {
    var hit := FindNewest(s.filters, s.params.spb, h, Fp(h), |s.filters|);
    if hit.Some? then
      var (i, p) := hit.value;
      (s.(filters := Set(s.filters, i, p, 0), numItems := s.numItems - 1, numDeletes := s.numDeletes + 1), true)
    else (s, false)
  }

  /** The first sub-filter from `j` up to (not including) `i` with room for slot `p` of sub-filter `i`. */
  function FindPrior(fs: seq<Table>, spb: nat, i: nat, p: nat, j: nat): (r: Option<(nat, nat)>)
    requires TablesOk(fs, spb) && i < |fs| && p < |fs[i]| && j <= i
    ensures r.Some? ==>
              var (k, q) := r.value;
              && j <= k < i && q < |fs[k]| && fs[k][q] == 0
              && var b, n := p / spb, Buckets(fs[k], spb);
              (q / spb == b % n || q / spb == AltIndex(fs[i][p], b) % n)
    decreases i - j
  {
    if j == i then None else
    var n := Buckets(fs[j], spb);
    var b := p / spb;
    var e := FindSlot(fs[j], spb, b % n, AltIndex(fs[i][p], b) % n, 0);
    if e.Some? then Some((j, e.value)) else FindPrior(fs, spb, i, p, j + 1)
  }

  function Relocate(fs: seq<Table>, spb: nat, i: nat, p: nat): (r: (seq<Table>, bool))
    requires TablesOk(fs, spb) && i < |fs| && p < |fs[i]|
    ensures SameSizes(fs, r.0)
    ensures r.1 ==> r.0[i][p] == 0
    ensures forall q :: 0 <= q < |fs[i]| && q != p ==> r.0[i][q] == fs[i][q]
  {
    if fs[i][p] == 0 then (fs, true) else
    var room := FindPrior(fs, spb, i, p, 0);
    if room.None? then (fs, false) else
    var (j, q) := room.value;
    (Set(Set(fs, j, q, fs[i][p]), i, p, 0), true)
  }

  predicate SameSizes(fs: seq<Table>, gs: seq<Table>) {
    |fs| == |gs| && forall i :: 0 <= i < |fs| ==> |fs[i]| == |gs[i]|
  }

  /** Relocate slots `from`, `from + 1`, ... of sub-filter `i`; true when none had to stay. */
  function RelocateFrom(fs: seq<Table>, spb: nat, i: nat, from: nat): (r: (seq<Table>, bool))
    requires TablesOk(fs, spb) && i < |fs| && from <= |fs[i]|
    ensures SameSizes(fs, r.0)
    ensures forall q :: 0 <= q < from ==> r.0[i][q] == fs[i][q]
    ensures r.1 ==> forall q :: from <= q < |fs[i]| ==> r.0[i][q] == 0
    decreases |fs[i]| - from
  {
    if from == |fs[i]| then (fs, true) else
    var (gs, moved) := Relocate(fs, spb, i, from);
    var (hs, all) := RelocateFrom(gs, spb, i, from + 1);
    (hs, moved && all)
  }

  function CompactOne(fs: seq<Table>, spb: nat, i: nat): (r: (seq<Table>, bool))
    requires TablesOk(fs, spb) && i < |fs|
    ensures TablesOk(r.0, spb) && i <= |r.0| <= |fs|
  {
    var (gs, emptied) := RelocateFrom(fs, spb, i, 0);
    (if emptied && i == |fs| - 1 then gs[..i] else gs, emptied)
  }

  /** Sub-filters `i - 1` down to 1. */
  function CompactDown(fs: seq<Table>, spb: nat, i: nat, cont: bool): seq<Table>
    requires TablesOk(fs, spb) && i <= |fs|
    decreases i
  {
    if i <= 1 then fs else
    var (gs, emptied) := CompactOne(fs, spb, i - 1);
    if !emptied && !cont then gs else CompactDown(gs, spb, i - 1, cont)
  }

  function Compact(s: Filter, cont: bool): Filter
    requires TablesOk(s.filters, s.params.spb)
  {
    s.(filters := CompactDown(s.filters, s.params.spb, |s.filters|, cont), numDeletes := 0)
  }

  // ---- sizes stay powers of two, each dividing the next ----

  lemma {:induction false} PowerMonotone(b: nat, i: nat, j: nat)
    requires b >= 1 && i <= j
    ensures 1 <= Power(b, i) <= Power(b, j)
    decreases j
  {
    if i < j {
      PowerMonotone(b, i, j - 1);
      assert b * Power(b, j - 1) >= 1 * Power(b, j - 1);
    } else if i > 0 {
      PowerMonotone(b, i - 1, i - 1);
      assert b * Power(b, i - 1) >= 1 * 1;
    }
  }

  /** A sub-filter that fits is not clipped by the saturating conversion. */
  lemma GrowthExact(p: Params, i: nat)
    requires ParamsOk(p) && SubFilterFits(p, i)
    ensures Growth(p, i) == Power(p.expansion, i)
  {
    assert MAX_BUCKETS / p.numBuckets <= MAX_BUCKETS by { DivSmaller(MAX_BUCKETS, p.numBuckets); }
  }

  lemma DivSmaller(a: nat, b: nat)
    requires b > 0
    ensures a / b <= a
  {
    ProductLarger(a / b, b);
  }

  lemma ProductLarger(q: nat, b: nat)
    requires b > 0
    ensures b * q >= q
  {
    assert b * q == q + (b - 1) * q;
  }

  lemma SubFilterOk(s: Filter, i: nat)
    requires Valid(s) && i < |s.filters|
    ensures TableOk(s.filters[i], s.params.spb)
    ensures Buckets(s.filters[i], s.params.spb) == s.params.numBuckets * Power(s.params.expansion, i)
    ensures IsPow2(Buckets(s.filters[i], s.params.spb))
  {
    var p := s.params;
    assert SizeOk(p, s.filters, i);
    GrowthExact(p, i);
    var n := p.numBuckets * Power(p.expansion, i);
    ModUnique(n * p.spb, p.spb, n, 0);
    if p.expansion != 0 {
      PowerPow2(p.expansion, i);
      Pow2Product(p.numBuckets, Power(p.expansion, i));
    }
  }

  lemma ValidTables(s: Filter)
    requires Valid(s)
    ensures TablesOk(s.filters, s.params.spb)
  {
    forall i | 0 <= i < |s.filters|
      ensures TableOk(s.filters[i], s.params.spb)
    {
      SubFilterOk(s, i);
    }
  }

  lemma FailedValid(s: Filter, h: nat)
    requires Valid(s) && TablesOk(s.filters, s.params.spb) && |s.filters| > 0
    ensures Valid(Failed(s, h)) && TablesOk(Failed(s, h).filters, s.params.spb)
  {
    hide RolledBack, SubFilterFits, SubFilterSize;
    var t := Failed(s, h);
    forall i | 0 <= i < |t.filters|
      ensures SizeOk(t.params, t.filters, i)
    {
      assert SizeOk(s.params, s.filters, i);
    }
    ValidTables(t);
  }

  lemma GrowValid(s: Filter)
    requires Valid(s) && (|s.filters| == 0 || s.params.expansion != 0)
    ensures Valid(Grow(s))
  {
    var g := Grow(s);
    forall i | 0 <= i < |g.filters|
      ensures SizeOk(g.params, g.filters, i)
    {
      assert i < |s.filters| ==> SizeOk(s.params, s.filters, i);
    }
  }

  /** Each sub-filter's bucket count is a power-of-two multiple of every earlier one's. */
  lemma BucketsDivide(s: Filter, i: nat, j: nat) returns (c: nat)
    requires Valid(s) && i <= j < |s.filters|
    ensures c >= 1 && Buckets(s.filters[j], s.params.spb) == Buckets(s.filters[i], s.params.spb) * c
  {
    var p := s.params;
    SubFilterOk(s, i);
    SubFilterOk(s, j);
    c := Power(p.expansion, j - i);
    CountsDivide(p.numBuckets, p.expansion, i, j);
    if i < j {
      PowerMonotone(p.expansion, 0, j - i);
    }
  }

  lemma CountsDivide(n: nat, b: nat, i: nat, j: nat)
    requires i <= j
    ensures n * Power(b, j) == (n * Power(b, i)) * Power(b, j - i)
  {
    PowerAdd(b, i, j - i);
    MulAssoc(n, Power(b, i), Power(b, j - i));
  }

  lemma {:induction false} PowerAdd(b: nat, i: nat, j: nat)
    ensures Power(b, i + j) == Power(b, i) * Power(b, j)
  {
    if i > 0 {
      PowerAdd(b, i - 1, j);
      MulAssoc(b, Power(b, i - 1), Power(b, j));
    }
  }
}
