/**
 The cuckoo filter as the object that overwrites its slots in place (src/core/cuckoo.rs). Every
 method is proved equal to the operation of CuckooSpec it implements; CuckooProof says what those promise.
 */
module CuckooFilterModel {
  import opened Bits
  import opened CuckooSpec
  import opened CuckooRollback
  import opened CuckooProof
  import CuckooCompact

  /** `u64::next_power_of_two`, which wraps to zero beyond 2^63. */
  function NextPowerOfTwo(n: nat): (r: nat)
    ensures n <= 0x8000_0000_0000_0000 ==> IsPow2(r) && n <= r && (n >= 1 ==> r < 2 * n)
    ensures n > 0x8000_0000_0000_0000 ==> r == 0
  {
    if n > 0x8000_0000_0000_0000 then 0 else
    assert IsPow2(1) by { assert 1 == Pow2(0); }
    CeilPow2(n, 1)
  }

  function CeilPow2(n: nat, p: nat): (r: nat)
    requires IsPow2(p) && (n == 0 ==> p == 1) && (n >= 1 ==> p < 2 * n)
    ensures IsPow2(r) && n <= r && (n >= 1 ==> r < 2 * n)
    decreases n - p
  {
    if p >= n then p else
    assert IsPow2(2 * p) by {
      var k: nat :| p == Pow2(k);
      assert 2 * p == Pow2(k + 1);
    }
    CeilPow2(n, 2 * p)
  }

  /** The parameters a new filter derives from its options. */
  function ParamsFor(capacity: nat, spb: nat, maxIterations: nat, expansion: nat): Params
    requires spb > 0
  {
    var e := if expansion != 0 then NextPowerOfTwo(expansion) % 65536 else 0;
    var n := NextPowerOfTwo(capacity / spb);
    Params(spb, maxIterations, e, if n == 0 then 1 else n)
  }

  lemma SmallPow2Mod(x: nat)
    requires IsPow2(x) && x <= 131070
    ensures x % 65536 == 0 || x % 65536 == x
  {
    if x >= 65536 {
      var k: nat :| x == Pow2(k);
      Pow2Is65536(k);
    }
  }

  lemma Pow2Is65536(k: nat)
    requires 65536 <= Pow2(k) < 131072
    ensures Pow2(k) == 65536
  {
    hide Pow2;
    Pow2Of16(16);
    if k < 16 {
      Pow2Doubles(k, 16);
    } else if k > 16 {
      Pow2Doubles(16, k);
    }
  }

  lemma Pow2Of16(k: nat)
    requires k == 16
    ensures Pow2(k) == 65536
  {
    hide Pow2;
    Pow2Of4();
    Pow2Add(4, 4);
    Pow2Add(8, 8);
  }

  lemma Pow2Of4()
    ensures Pow2(4) == 16
  {
  }

  /** Any options give valid parameters. */
  lemma ParamsForOk(capacity: nat, spb: nat, maxIterations: nat, expansion: nat)
    requires 0 < spb < 256 && maxIterations < 65536 && expansion < 65536
    ensures ParamsOk(ParamsFor(capacity, spb, maxIterations, expansion))
  {
    if expansion != 0 {
      SmallPow2Mod(NextPowerOfTwo(expansion));
    }
    assert IsPow2(1) by { assert 1 == Pow2(0); }
  }

  /** A power of two below `2 * n` is at most any power of two from `n` on. */
  lemma OneCeiling(n: nat, x: nat, y: nat)
    requires IsPow2(x) && IsPow2(y) && x < 2 * n && n <= y
    ensures x <= y
  {
    var i: nat :| x == Pow2(i);
    var j: nat :| y == Pow2(j);
    if j < i {
      Pow2Doubles(j, i);
    } else if i < j {
      Pow2Doubles(i, j);
    }
  }

  /** `NextPowerOfTwo` gives the least power of two at or above `n`. */
  lemma LeastCeiling(n: nat, y: nat)
    requires n <= 0x8000_0000_0000_0000 && IsPow2(y) && n <= y
    ensures NextPowerOfTwo(n) <= y
  {
    if n > 0 {
      OneCeiling(n, NextPowerOfTwo(n), y);
    }
  }

  lemma WideExpansion(expansion: nat)
    requires 32768 < expansion < 65536
    ensures NextPowerOfTwo(expansion) == 65536
  {
    var r := NextPowerOfTwo(expansion);
    var i: nat :| r == Pow2(i);
    hide NextPowerOfTwo;
    Pow2Of16(16);
    if i < 16 {
      Pow2Doubles(i, 16);
    } else if i > 16 {
      Pow2Doubles(16, i);
    }
  }

  /**
   The number of buckets is the least power of two at or above capacity / slots, and the expansion the
   least one at or above the option. Above 2^63 the first wraps and one bucket is used; above 2^15 the
   second wraps to 0.
   */
  lemma ParamsForLeast(capacity: nat, spb: nat, maxIterations: nat, expansion: nat, y: nat)
    requires spb > 0 && expansion < 65536 && IsPow2(y)
    ensures var p, n := ParamsFor(capacity, spb, maxIterations, expansion), capacity / spb;
            && p.spb == spb && p.maxIterations == maxIterations
            && (n <= 0x8000_0000_0000_0000 ==> IsPow2(p.numBuckets) && n <= p.numBuckets && (n <= y ==> p.numBuckets <= y))
            && (n > 0x8000_0000_0000_0000 ==> p.numBuckets == 1)
            && (expansion == 0 || expansion > 32768 ==> p.expansion == 0)
            && (0 < expansion <= 32768 ==>
                  IsPow2(p.expansion) && expansion <= p.expansion && (expansion <= y ==> p.expansion <= y))
  {
    hide IsPow2, NextPowerOfTwo;
    var n := capacity / spb;
    if n <= 0x8000_0000_0000_0000 {
      SomeBuckets(n);
      if n <= y { LeastCeiling(n, y); }
    }
    if expansion <= y { LeastCeiling(expansion, y); }
    if expansion > 32768 { WideExpansion(expansion); }
  }

  lemma SomeBuckets(n: nat)
    requires n <= 0x8000_0000_0000_0000
    ensures NextPowerOfTwo(n) >= 1
  {
  }

  // ---- the object ----

  method ScanBucket(f: Table, lo: nat, hi: nat, target: byte) returns (r: Option<nat>)
    requires lo <= hi <= |f|
    ensures r == FindIn(f, lo, hi, target)
  {
    var s := lo;
    while s < hi
      invariant lo <= s <= hi
      invariant FindIn(f, lo, hi, target) == FindIn(f, s, hi, target)
    {
      if f[s] == target {
        return Some(s);
      }
      s := s + 1;
    }
    return None;
  }

  method ScanOne(f: Table, spb: nat, b: nat, target: byte) returns (r: Option<nat>)
    requires TableOk(f, spb) && b < Buckets(f, spb)
    ensures r == FindBucket(f, spb, b, target)
  {
    BucketBounds(f, spb, b);
    r := ScanBucket(f, b * spb, b * spb + spb, target);
  }

  method ScanPair(f: Table, spb: nat, b1: nat, b2: nat, target: byte) returns (r: Option<nat>)
    requires TableOk(f, spb) && b1 < Buckets(f, spb) && b2 < Buckets(f, spb)
    ensures r == FindSlot(f, spb, b1, b2, target)
  {
    r := ScanOne(f, spb, b1, target);
    if r.None? {
      r := ScanOne(f, spb, b2, target);
    }
  }

  class CuckooFilter {
    const params: Params
    var filters: seq<Table>
    var numItems: int
    var numDeletes: nat
    var numKoInserts: nat

    function State(): Filter
      reads this
    {
      Filter(params, filters, numItems, numDeletes, numKoInserts)
    }

    constructor (capacity: nat, slotsPerBucket: nat, maxIterations: nat, expansion: nat)
      requires slotsPerBucket > 0
      ensures State() == New(ParamsFor(capacity, slotsPerBucket, maxIterations, expansion))
    {
      params := ParamsFor(capacity, slotsPerBucket, maxIterations, expansion);
      filters := [];
      numItems, numDeletes, numKoInserts := 0, 0, 0;
      new;
      var grown := AddNewSubFilter();
    }

    method AddNewSubFilter() returns (ok: bool)
      requires params.spb > 0 && params.numBuckets > 0
      modifies this`filters
      ensures State() == Grow(old(State()))
      ensures ok == SubFilterFits(params, |old(filters)|)
    {
      var growth := Growth(params, |filters|);
      if growth > MAX_BUCKETS / params.numBuckets {
        return false;
      }
      var bucketCount := params.numBuckets * growth;
      if bucketCount > U64_MAX / params.spb {
        return false;
      }
      filters := filters + [Zeros(bucketCount * params.spb)];
      return true;
    }

    method Exists(h: nat) returns (found: bool)
      requires TablesOk(filters, params.spb)
      ensures found <==> Contains(State(), h)
      ensures found <==> exists i, p :: 0 <= i < |filters| && CuckooCompact.Hit(filters[i], params.spb, h, p)
    {
      forall i, p | 0 <= i < |filters| && 0 <= p
        ensures Matches(filters[i], params.spb, h, p) <==> CuckooCompact.Hit(filters[i], params.spb, h, p)
      {
        CuckooCompact.HitMeans(filters[i], params.spb, h, p);
      }
      var i := 0;
      while i < |filters|
        invariant 0 <= i <= |filters|
        invariant forall j, p :: 0 <= j < i && 0 <= p ==> !Matches(filters[j], params.spb, h, p)
      {
        assert TableOk(filters[i], params.spb);
        var n := |filters[i]| / params.spb;
        var r := ScanPair(filters[i], params.spb, h % n, AltIndex(Fp(h), h) % n, Fp(h));
        if r.Some? {
          assert Matches(filters[i], params.spb, h, r.value);
          return true;
        }
        i := i + 1;
      }
      return false;
    }

    /** The source's newest-first search over the candidate slots. */
    method ScanNewest(h: nat, target: byte) returns (r: Option<(nat, nat)>)
      requires TablesOk(filters, params.spb)
      ensures r == FindNewest(filters, params.spb, h, target, |filters|)
    {
      var i := |filters|;
      while i > 0
        invariant 0 <= i <= |filters|
        invariant FindNewest(filters, params.spb, h, target, |filters|) == FindNewest(filters, params.spb, h, target, i)
      {
        var n := |filters[i - 1]| / params.spb;
        var c := ScanPair(filters[i - 1], params.spb, h % n, AltIndex(Fp(h), h) % n, target);
        if c.Some? {
          return Some((i - 1, c.value));
        }
        i := i - 1;
      }
      return None;
    }

    /** One pass of the insertion loop: a hole in some sub-filter, else displacement in the newest. */
    method TryPlace(h: nat) returns (ok: bool)
      requires TablesOk(filters, params.spb) && |filters| > 0
      modifies this
      ensures var r := Place(old(State()), h);
              ok == r.Some? && State() == if ok then r.value else Failed(old(State()), h)
    {
      hide FindNewest, KoChain, TableOk, Fp, RolledBack;
      var hole := ScanNewest(h, 0);
      if hole.Some? {
        HoleInRange(filters, params.spb, h);
        filters := Set(filters, hole.value.0, hole.value.1, Fp(h));
        numItems := numItems + 1;
        return true;
      }
      ok := KoInsert(h);
      if ok {
        numItems := numItems + 1;
        numKoInserts := numKoInserts + 1;
      }
    }

    method Insert(h: nat) returns (ok: bool)
      requires Valid(State()) && |filters| > 0
      modifies this
      ensures (State(), ok) == CuckooSpec.Insert(old(State()), h)
    {
      hide Place, TableOk, SizeOk, RolledBack;
      ghost var s0 := State();
      ghost var grown := false;
      ValidTables(s0);
      FailedValid(s0, h);
      ghost var t0 := Failed(s0, h);
      while true
        invariant Valid(State()) && TablesOk(filters, params.spb) && |filters| > 0
        invariant !grown ==> State() == s0
        invariant grown ==> Place(s0, h).None? && MayGrow(t0) && State() == Grow(t0) && Place(State(), h).Some?
        decreases !grown
      {
        ok := TryPlace(h);
        if ok {
          return;
        }
        assert !grown;
        if params.expansion == 0 {
          return;
        }
        GrowStep(t0, h);
        var added := AddNewSubFilter();
        if !added {
          return;
        }
        grown := true;
      }
    }

    method InsertUnique(h: nat) returns (ok: bool)
      requires Valid(State()) && |filters| > 0
      modifies this
      ensures old(TablesOk(filters, params.spb))
      ensures (State(), ok) == if Contains(old(State()), h) then (old(State()), false) else CuckooSpec.Insert(old(State()), h)
    {
      ValidTables(State());
      var found := Exists(h);
      if found {
        return false;
      }
      ok := Insert(h);
    }

    /** Displacement in the newest sub-filter; a failed chain is rolled back slot by slot. */
    method KoInsert(h: nat) returns (ok: bool)
      requires TablesOk(filters, params.spb) && |filters| > 0
      modifies this`filters
      ensures var f := old(filters[|filters| - 1]);
              var r := KoChain(KoStart(f, params.spb, h), params.spb, params.maxIterations);
              && ok == r.Some?
              && filters == old(filters)[|old(filters)| - 1 :=
                   if ok then r.value else RolledBack(f, params.spb, h, params.maxIterations)]
    {
      hide KoAfter, KoBack, KoChain, Buckets, TableOk;
      var idx, fp, victim;
      ok, idx, fp, victim := Displace(h);
      if !ok {
        RollBack(idx, fp, victim);
      }
    }

    /** Take the victim's slot and go to the victim's other bucket. */
    method SwapVictim(idx: nat, fp: byte, victim: nat) returns (idx': nat, fp': byte, victim': nat)
      requires |filters| > 0 && KoOk(Ko(filters[|filters| - 1], idx, fp, victim), params.spb)
      modifies this`filters
      ensures |filters| == |old(filters)| && filters == old(filters)[|filters| - 1 := filters[|filters| - 1]]
      ensures Ko(filters[|filters| - 1], idx', fp', victim') == KoStep(Ko(old(filters[|filters| - 1]), idx, fp, victim), params.spb)
    {
      hide AltIndex, KoStep;
      var last := |filters| - 1;
      StepFields(Ko(filters[last], idx, fp, victim), params.spb);
      var pos := idx * params.spb + victim;
      fp' := filters[last][pos];
      idx' := AltIndex(fp', idx) % (|filters[last]| / params.spb);
      victim' := (victim + 1) % params.spb;
      filters := Set(filters, last, pos, fp);
    }

    /** One displacement, and a place for the displaced fingerprint if its other bucket has one. */
    method SwapAndPlace(idx: nat, fp: byte, victim: nat) returns (done: bool, idx': nat, fp': byte, victim': nat)
      requires |filters| > 0 && KoOk(Ko(filters[|filters| - 1], idx, fp, victim), params.spb)
      modifies this`filters
      ensures |filters| == |old(filters)| && filters == old(filters)[|filters| - 1 := filters[|filters| - 1]]
      ensures var k := KoStep(Ko(old(filters[|filters| - 1]), idx, fp, victim), params.spb);
              var e := FindBucket(k.table, params.spb, k.idx, 0);
              && done == e.Some?
              && (done ==> e.value < |k.table| && filters[|filters| - 1] == k.table[e.value := k.fp])
              && (!done ==> Ko(filters[|filters| - 1], idx', fp', victim') == k)
    {
      hide KoStep, FindBucket;
      var last := |filters| - 1;
      idx', fp', victim' := SwapVictim(idx, fp, victim);
      var e := ScanOne(filters[last], params.spb, idx', 0);
      done := e.Some?;
      if done {
        filters := Set(filters, last, e.value, fp');
      }
    }

    /** The displacement chain; when it fails, what is left in hand after the last step. */
    method Displace(h: nat) returns (ok: bool, idx: nat, fp: byte, victim: nat)
      requires TablesOk(filters, params.spb) && |filters| > 0
      modifies this`filters
      ensures |filters| == |old(filters)| && filters == old(filters)[|filters| - 1 := filters[|filters| - 1]]
      ensures var k := KoStart(old(filters[|filters| - 1]), params.spb, h);
              var r := KoChain(k, params.spb, params.maxIterations);
              && ok == r.Some?
              && (ok ==> filters[|filters| - 1] == r.value)
              && (!ok ==> KoAfter(k, params.spb, params.maxIterations) == Ko(filters[|filters| - 1], idx, fp, victim))
    {
      var spb := params.spb;
      var last := |filters| - 1;
      TableAt(filters, spb, last);
      hide AltIndex, IsPow2, Fp, TablesOk, ParamsOk, KoChain, KoAfter;
      var n := |filters[last]| / spb;
      ok, idx, fp, victim := Chain(h % n, Fp(h), KoStart(filters[last], spb, h));
    }

    method Chain(idx0: nat, fp0: byte, ghost start: Ko) returns (ok: bool, idx: nat, fp: byte, victim: nat)
      requires |filters| > 0 && KoOk(start, params.spb) && start == Ko(filters[|filters| - 1], idx0, fp0, 0)
      modifies this`filters
      ensures |filters| == |old(filters)| && filters == old(filters)[|filters| - 1 := filters[|filters| - 1]]
      ensures var r := KoChain(start, params.spb, params.maxIterations);
              && ok == r.Some?
              && (ok ==> filters[|filters| - 1] == r.value)
              && (!ok ==> KoAfter(start, params.spb, params.maxIterations) == Ko(filters[|filters| - 1], idx, fp, victim))
    {
      hide KoStep, FindBucket, KoChain, KoAfter, KoOk, TableOk;
      var last := |filters| - 1;
      ghost var fs, spb := filters, params.spb;
      idx, fp, victim := idx0, fp0, 0;
      AfterNone(start, spb);
      var i := 0;
      while i < params.maxIterations
        invariant 0 <= i <= params.maxIterations
        invariant |filters| == |fs| && KoAfter(start, spb, i) == Ko(filters[last], idx, fp, victim)
        invariant filters == fs[last := filters[last]]
        invariant KoChain(start, spb, params.maxIterations) == KoChain(KoAfter(start, spb, i), spb, params.maxIterations - i)
      {
        ChainStep(start, spb, i, params.maxIterations - i);
        ok, idx, fp, victim := SwapAndPlace(idx, fp, victim);
        if ok {
          return;
        }
        i := i + 1;
      }
      ChainEnd(KoAfter(start, spb, i), spb);
      ok := false;
    }

    /** Undo `maxIterations` displacements, from what the last one left in hand. */
    method RollBack(idx0: nat, fp0: byte, victim0: nat)
      requires |filters| > 0 && KoOk(Ko(filters[|filters| - 1], idx0, fp0, victim0), params.spb)
      modifies this`filters
      ensures var k := KoBack(Ko(old(filters[|filters| - 1]), idx0, fp0, victim0), params.spb, params.maxIterations);
              filters == old(filters)[|old(filters)| - 1 := k.table]
    {
      hide AltIndex, PrevSlot, KoUndo, KoOk, KoBack;
      var spb := params.spb;
      var last := |filters| - 1;
      ghost var start := Ko(filters[last], idx0, fp0, victim0);
      OkSizes(start, spb);
      var n := |filters[last]| / spb;
      var idx: nat, fp: byte, victim: nat := idx0, fp0, victim0;
      var i := 0;
      BackNone(start, spb);
      while i < params.maxIterations
        invariant 0 <= i <= params.maxIterations
        invariant |filters| == last + 1 && KoBack(start, spb, i) == Ko(filters[last], idx, fp, victim)
        invariant filters == old(filters)[last := filters[last]]
      {
        BackStep(start, spb, i);
        UndoFields(KoBack(start, spb, i), spb);
        victim := PrevSlot(victim, spb);
        idx := AltIndex(fp, idx) % n;
        var pos := idx * spb + victim;
        var out := filters[last][pos];
        filters := Set(filters, last, pos, fp);
        fp := out;
        i := i + 1;
      }
    }

    method Delete(h: nat) returns (ok: bool)
      requires TablesOk(filters, params.spb)
      modifies this
      ensures (State(), ok) == CuckooSpec.Delete(old(State()), h)
    {
      var hit := ScanNewest(h, Fp(h));
      if hit.None? {
        return false;
      }
      filters := Set(filters, hit.value.0, hit.value.1, 0);
      numItems := numItems - 1;
      numDeletes := numDeletes + 1;
      return true;
    }

    method RelocateSlot(i: nat, bucket: nat, slot: nat) returns (ok: bool)
      requires TablesOk(filters, params.spb) && i < |filters|
      requires bucket < Buckets(filters[i], params.spb) && slot < params.spb
      modifies this`filters
      ensures bucket * params.spb + slot < |old(filters[i])|
      ensures (filters, ok) == Relocate(old(filters), params.spb, i, bucket * params.spb + slot)
    {
      hide AltIndex, FindSlot;
      ghost var p := KoPos(Ko(filters[i], bucket, 0, slot), params.spb);
      var pos := bucket * params.spb + slot;
      var fp := filters[i][pos];
      if fp == 0 {
        return true;
      }
      var alt := AltIndex(fp, bucket);
      var j := 0;
      while j < i
        invariant 0 <= j <= i && filters == old(filters)
        invariant FindPrior(filters, params.spb, i, pos, 0) == FindPrior(filters, params.spb, i, pos, j)
      {
        var n := |filters[j]| / params.spb;
        var e := ScanPair(filters[j], params.spb, bucket % n, alt % n, 0);
        if e.Some? {
          filters := Set(Set(filters, j, e.value, fp), i, pos, 0);
          return true;
        }
        j := j + 1;
      }
      return false;
    }

    method CompactSingleFilter(i: nat) returns (emptied: bool)
      requires TablesOk(filters, params.spb) && i < |filters|
      modifies this`filters
      ensures (filters, emptied) == CompactOne(old(filters), params.spb, i)
    {
      hide Relocate, RelocateFrom, TablesOk;
      ghost var spb := params.spb;
      ghost var goal := RelocateFrom(filters, spb, i, 0);
      ghost var fs := filters;
      TableAt(filters, spb, i);
      var n := |filters[i]| / params.spb;
      emptied := true;
      var bucket := 0;
      ghost var base := 0;
      while bucket < n
        invariant 0 <= bucket <= n && base == bucket * spb
        invariant SameSizes(fs, filters)
        invariant base <= |filters[i]|
        invariant TablesOk(filters, spb) && goal == Combine(RelocateFrom(filters, spb, i, base), emptied)
      {
        TableAt(filters, spb, i);
        emptied := CompactBucket(i, bucket, emptied, base, goal);
        NextBucket(bucket, spb);
        base := base + spb;
        bucket := bucket + 1;
      }
      AllBuckets(|fs[i]|, n, spb);
      RelocateFromEnd(filters, spb, i);
      if emptied && i == |filters| - 1 {
        filters := filters[..i];
      }
    }

    /** Relocates the slots of one bucket. */
    method CompactBucket(i: nat, bucket: nat, before: bool, ghost base: nat, ghost goal: (seq<Table>, bool)) returns (emptied: bool)
      requires TablesOk(filters, params.spb) && i < |filters| && bucket < Buckets(filters[i], params.spb)
      requires base == bucket * params.spb && base <= |filters[i]|
      requires goal == Combine(RelocateFrom(filters, params.spb, i, base), before)
      modifies this`filters
      ensures SameSizes(old(filters), filters) && TablesOk(filters, params.spb) && base + params.spb <= |filters[i]|
      ensures goal == Combine(RelocateFrom(filters, params.spb, i, base + params.spb), emptied)
    {
      hide Relocate, RelocateFrom, TablesOk;
      ghost var spb := params.spb;
      ghost var fs := filters;
      TableAt(filters, spb, i);
      BucketBounds(filters[i], spb, bucket);
      emptied := before;
      var slot := 0;
      while slot < params.spb
        invariant 0 <= slot <= spb
        invariant SameSizes(fs, filters)
        invariant TablesOk(filters, spb) && goal == Combine(RelocateFrom(filters, spb, i, base + slot), emptied)
      {
        RelocateFromStep(filters, spb, i, base + slot, emptied);
        RelocateSizes(filters, spb, i, base + slot);
        SameBucketCount(fs, filters, spb, i);
        var moved := RelocateSlot(i, bucket, slot);
        if !moved {
          emptied := false;
        }
        slot := slot + 1;
      }
    }

    method Compact(cont: bool)
      requires TablesOk(filters, params.spb)
      modifies this
      ensures State() == CuckooSpec.Compact(old(State()), cont) && TablesOk(filters, params.spb)
      ensures |filters| <= 1 || CuckooCompact.Occupied(filters[|filters| - 1])
      ensures |filters| > 1 && !cont ==> CuckooCompact.Settled(filters, params.spb, |filters| - 1, |filters| - 1)
      ensures cont ==> forall k :: 1 <= k < |filters| ==> CuckooCompact.Settled(filters, params.spb, k, 1)
    {
      hide CuckooCompact.Settled, CuckooCompact.Occupied;
      CuckooCompact.CompactSettles(State(), cont);
      var i := |filters|;
      ghost var goal := CompactDown(filters, params.spb, i, cont);
      while i > 1
        invariant 0 <= i <= |filters| && TablesOk(filters, params.spb)
        invariant goal == CompactDown(filters, params.spb, i, cont)
        invariant numItems == old(numItems) && numKoInserts == old(numKoInserts)
      {
        var emptied := CompactSingleFilter(i - 1);
        i := i - 1;
        if !emptied && !cont {
          break;
        }
      }
      numDeletes := 0;
    }
  }

  lemma OkSizes(k: Ko, spb: nat)
    requires KoOk(k, spb)
    ensures spb > 0 && |k.table| / spb > 0
  {
  }

  lemma BackNone(k: Ko, spb: nat)
    requires KoOk(k, spb)
    ensures KoBack(k, spb, 0) == k
  {
  }

  lemma BackStep(k: Ko, spb: nat, i: nat)
    requires KoOk(k, spb)
    ensures KoBack(k, spb, i + 1) == KoUndo(KoBack(k, spb, i), spb)
  {
  }

  lemma AfterNone(k: Ko, spb: nat)
    requires KoOk(k, spb)
    ensures KoAfter(k, spb, 0) == k
  {
  }

  lemma ChainEnd(k: Ko, spb: nat)
    requires KoOk(k, spb)
    ensures KoChain(k, spb, 0).None?
  {
  }

  lemma ChainStep(start: Ko, spb: nat, i: nat, fuel: nat)
    requires KoOk(start, spb) && fuel > 0
    ensures var k := KoAfter(start, spb, i);
            var k' := KoStep(k, spb);
            var e := FindBucket(k'.table, spb, k'.idx, 0);
            && KoAfter(start, spb, i + 1) == k'
            && (e.Some? ==> e.value < |k'.table| && KoChain(k, spb, fuel) == Some(k'.table[e.value := k'.fp]))
            && (e.None? ==> KoChain(k, spb, fuel) == KoChain(k', spb, fuel - 1))
  {
  }

  lemma RelocateFromStep(fs: seq<Table>, spb: nat, i: nat, p: nat, before: bool)
    requires TablesOk(fs, spb) && i < |fs| && p < |fs[i]|
    ensures var r := Relocate(fs, spb, i, p);
            && TablesOk(r.0, spb)
            && Combine(RelocateFrom(fs, spb, i, p), before) == Combine(RelocateFrom(r.0, spb, i, p + 1), before && r.1)
  {
  }

  lemma TableAt(fs: seq<Table>, spb: nat, i: nat)
    requires TablesOk(fs, spb) && i < |fs|
    ensures TableOk(fs[i], spb) && spb > 0
  {
  }

  lemma NextBucket(bucket: nat, spb: nat)
    ensures (bucket + 1) * spb == bucket * spb + spb
  {
  }

  lemma AllBuckets(size: nat, n: nat, spb: nat)
    requires spb > 0 && size % spb == 0 && n == size / spb
    ensures n * spb == size
  {
  }

  lemma RelocateSizes(fs: seq<Table>, spb: nat, i: nat, p: nat)
    requires TablesOk(fs, spb) && i < |fs| && p < |fs[i]|
    ensures SameSizes(fs, Relocate(fs, spb, i, p).0)
  {
  }

  lemma SameBucketCount(fs: seq<Table>, gs: seq<Table>, spb: nat, i: nat)
    requires SameSizes(fs, gs) && i < |fs| && TablesOk(fs, spb) && TablesOk(gs, spb)
    ensures Buckets(gs[i], spb) == Buckets(fs[i], spb)
  {
  }

  lemma RelocateFromEnd(fs: seq<Table>, spb: nat, i: nat)
    requires TablesOk(fs, spb) && i < |fs|
    ensures RelocateFrom(fs, spb, i, |fs[i]|) == (fs, true)
  {
  }

  function Combine(r: (seq<Table>, bool), before: bool): (seq<Table>, bool) {
    (r.0, before && r.1)
  }

  lemma HoleInRange(fs: seq<Table>, spb: nat, h: nat)
    requires TablesOk(fs, spb)
    ensures var r := FindNewest(fs, spb, h, 0, |fs|); r.Some? ==> r.value.0 < |fs| && r.value.1 < |fs[r.value.0]|
  {
  }

  lemma GrowStep(s: Filter, h: nat)
    requires Valid(s) && TablesOk(s.filters, s.params.spb)
    ensures MayGrow(s) ==> Valid(Grow(s)) && TablesOk(Grow(s).filters, s.params.spb) && |Grow(s).filters| > 0 && Place(Grow(s), h).Some?
  {
    if MayGrow(s) {
      GrownHasRoom(s, h);
    }
  }
}
