/**
 A matching between the occupied slots of a list of tables and a multiset of live items, over any
 relation saying which slot may hold which item.
 */
module SlotMatching {
  import opened Bits
  import opened CuckooSpec

  type Slot = (nat, nat)

  ghost predicate Full(fs: seq<Table>, i: int, p: int) {
    0 <= i < |fs| && 0 <= p < |fs[i]| && fs[i][p] != 0
  }

  ghost function FullSlots(fs: seq<Table>): set<Slot> {
    set i: nat, p: nat | 0 <= i < |fs| && 0 <= p < |fs[i]| && Full(fs, i, p) :: (i, p)
  }

  ghost function SlotsOf(own: map<Slot, nat>, h: nat): set<Slot> {
    set sl | sl in own && own[sl] == h
  }

  ghost predicate Counts(own: map<Slot, nat>, live: multiset<nat>) {
    |own| == |live| && forall h: nat :: live[h] == |SlotsOf(own, h)|
  }

  lemma AddOwner(own: map<Slot, nat>, live: multiset<nat>, sl: Slot, h: nat)
    requires Counts(own, live) && sl !in own
    ensures Counts(own[sl := h], live + multiset{h})
  {
    var own' := own[sl := h];
    assert own'.Keys == own.Keys + {sl};
    forall g: nat
      ensures (live + multiset{h})[g] == |SlotsOf(own', g)|
    {
      SlotsAfterAdd(own, sl, h, g);
    }
  }

  lemma SlotsAfterAdd(own: map<Slot, nat>, sl: Slot, h: nat, g: nat)
    requires sl !in own
    ensures |SlotsOf(own[sl := h], g)| == |SlotsOf(own, g)| + if g == h then 1 else 0
  {
    assert SlotsOf(own[sl := h], g) == if g == h then SlotsOf(own, g) + {sl} else SlotsOf(own, g);
  }

  lemma DropOwner(own: map<Slot, nat>, live: multiset<nat>, sl: Slot)
    requires Counts(own, live) && sl in own
    ensures own[sl] in live && Counts(own - {sl}, live - multiset{own[sl]})
  {
    var own' := own - {sl};
    var h := own[sl];
    assert sl in SlotsOf(own, h);
    assert own'.Keys == own.Keys - {sl};
    forall g: nat
      ensures (live - multiset{h})[g] == |SlotsOf(own', g)|
    {
      assert SlotsOf(own', g) == if g == h then SlotsOf(own, g) - {sl} else SlotsOf(own, g);
    }
  }

  type Relation = (nat, nat, nat) -> bool

  /** `own` gives every occupied slot an owner related to it, and the owners are exactly the live items. */
  ghost predicate Matched(fs: seq<Table>, fits: Relation, own: map<Slot, nat>, live: multiset<nat>) {
    && (forall i: nat, p: nat :: (i, p) in own <==> Full(fs, i, p))
    && Counts(own, live)
    && OwnersFit(fs, fits, own)
  }

  ghost predicate OwnersFit(fs: seq<Table>, fits: Relation, own: map<Slot, nat>) {
    forall sl :: sl in own ==>
      sl.0 < |fs| && sl.1 < |fs[sl.0]| && fits(sl.0, sl.1, own[sl]) && fs[sl.0][sl.1] == Fp(own[sl])
  }

  lemma FullAfterSet(fs: seq<Table>, i: nat, p: nat, b: byte)
    requires i < |fs| && p < |fs[i]|
    ensures forall j, q :: Full(Set(fs, i, p, b), j, q) <==> if (j, q) == (i, p) then b != 0 else Full(fs, j, q)
  {
  }

  /** Filling an empty slot adds one live item. */
  lemma Fill(fs: seq<Table>, fits: Relation, own: map<Slot, nat>, live: multiset<nat>, i: nat, p: nat, h: nat)
    requires Matched(fs, fits, own, live) && i < |fs| && p < |fs[i]| && fits(i, p, h) && fs[i][p] == 0
    ensures Matched(Set(fs, i, p, Fp(h)), fits, own[(i, p) := h], live + multiset{h})
  {
    FullAfterSet(fs, i, p, Fp(h));
    AddOwner(own, live, (i, p), h);
  }

  /** Clearing an occupied slot removes its owner. */
  lemma Clear(fs: seq<Table>, fits: Relation, own: map<Slot, nat>, live: multiset<nat>, i: nat, p: nat)
    requires Matched(fs, fits, own, live) && Full(fs, i, p)
    ensures (i, p) in own && own[(i, p)] in live
    ensures Matched(Set(fs, i, p, 0), fits, own - {(i, p)}, live - multiset{own[(i, p)]})
  {
    FullAfterSet(fs, i, p, 0);
    DropOwner(own, live, (i, p));
  }

  /** An occupied slot may change hands between items with the same fingerprint. */
  lemma HandOver(fs: seq<Table>, fits: Relation, own: map<Slot, nat>, live: multiset<nat>, sl: Slot, g: nat)
    requires Matched(fs, fits, own, live) && sl in own
    requires fits(sl.0, sl.1, g) && Fp(g) == Fp(own[sl])
    ensures Matched(fs, fits, own[sl := g], live - multiset{own[sl]} + multiset{g})
  {
    hide Counts, Fp;
    assert sl == (sl.0, sl.1) && Full(fs, sl.0, sl.1);
    DropOwner(own, live, sl);
    AddOwner(own - {sl}, live - multiset{own[sl]}, sl, g);
    assert (own - {sl})[sl := g] == own[sl := g];
  }

  /** Moving a fingerprint from one slot to an empty one moves its owner. */
  lemma Move(fs: seq<Table>, fits: Relation, own: map<Slot, nat>, live: multiset<nat>, i: nat, p: nat, j: nat, q: nat)
    returns (own': map<Slot, nat>)
    requires Matched(fs, fits, own, live) && Full(fs, i, p)
    requires j < |fs| && q < |fs[j]| && fs[j][q] == 0
    requires (i, p) in own ==> fits(j, q, own[(i, p)])
    ensures Matched(Set(Set(fs, j, q, fs[i][p]), i, p, 0), fits, own', live)
  {
    var h := own[(i, p)];
    Clear(fs, fits, own, live, i, p);
    var fs1 := Set(fs, i, p, 0);
    Fill(fs1, fits, own - {(i, p)}, live - multiset{h}, j, q, h);
    own' := (own - {(i, p)})[(j, q) := h];
    assert live - multiset{h} + multiset{h} == live;
    SetCommutes(fs, i, p, 0, j, q, fs[i][p]);
  }

  lemma SetCommutes(fs: seq<Table>, i: nat, p: nat, a: byte, j: nat, q: nat, b: byte)
    requires i < |fs| && p < |fs[i]| && j < |fs| && q < |fs[j]| && (i, p) != (j, q)
    ensures Set(Set(fs, i, p, a), j, q, b) == Set(Set(fs, j, q, b), i, p, a)
  {
    if i == j {
      assert fs[i][p := a][q := b] == fs[i][q := b][p := a];
    }
  }

  lemma SetSet(fs: seq<Table>, i: nat, p: nat, a: byte, b: byte)
    requires i < |fs| && p < |fs[i]|
    ensures Set(Set(fs, i, p, a), i, p, b) == Set(fs, i, p, b)
  {
    assert fs[i][p := a][p := b] == fs[i][p := b];
  }

  lemma PutTable(fs: seq<Table>, i: nat, f: Table, p: nat, b: byte)
    requires i < |fs| && p < |f|
    ensures Set(fs[i := f], i, p, b) == fs[i := f[p := b]]
  {
  }

  lemma LiveHasSlot(fs: seq<Table>, fits: Relation, own: map<Slot, nat>, live: multiset<nat>, h: nat) returns (i: nat, p: nat)
    requires Matched(fs, fits, own, live) && h in live
    ensures (i, p) in own && own[(i, p)] == h
    ensures i < |fs| && p < |fs[i]| && fits(i, p, h) && fs[i][p] == Fp(h)
  {
    assert |SlotsOf(own, h)| > 0;
    var sl :| sl in SlotsOf(own, h);
    i, p := sl.0, sl.1;
  }

  lemma MatchedCount(fs: seq<Table>, fits: Relation, own: map<Slot, nat>, live: multiset<nat>)
    requires Matched(fs, fits, own, live)
    ensures |live| == |FullSlots(fs)|
  {
    forall sl: Slot
      ensures sl in own <==> sl in FullSlots(fs)
    {
      assert sl == (sl.0, sl.1);
    }
    assert own.Keys == FullSlots(fs);
  }

  /** The same owners match other tables with the same occupied slots, under another relation they satisfy. */
  lemma Rematch(fs: seq<Table>, fits: Relation, gs: seq<Table>, fits': Relation, own: map<Slot, nat>, live: multiset<nat>)
    requires Matched(fs, fits, own, live)
    requires forall i, p :: Full(fs, i, p) <==> Full(gs, i, p)
    requires forall i, p :: Full(fs, i, p) && Full(gs, i, p) ==> fs[i][p] == gs[i][p]
    requires forall i: nat, p: nat, h: nat :: Full(fs, i, p) && fits(i, p, h) ==> fits'(i, p, h)
    ensures Matched(gs, fits', own, live)
  {
    forall sl | sl in own
      ensures sl.0 < |gs| && sl.1 < |gs[sl.0]| && fits'(sl.0, sl.1, own[sl]) && gs[sl.0][sl.1] == Fp(own[sl])
    {
      assert (sl.0, sl.1) in own && Full(fs, sl.0, sl.1);
    }
  }
}

/**
 No operation of the cuckoo filter loses an item, as long as a failed displacement is rolled back exactly. The
 argument is a matching that gives each live item its own occupied slot, in a bucket where a lookup of that
 item will look.
 */
module CuckooProof {
  import opened Bits
  import opened CuckooSpec
  import opened CuckooRollback
  import opened SlotMatching

  // ---- the two buckets of an item ----

  /** Either candidate bucket determines the other one. */
  lemma CandidatePair(h: nat, n: nat, b: nat)
    requires IsPow2(n) && Candidate(h, n, b)
    ensures forall c :: Candidate(h, n, c) <==> c == b || c == AltIndex(Fp(h), b) % n
  {
    var k: nat :| n == Pow2(k);
    var m := Fp(h) * MIX;
    XorLowBits(h, m, k);
    XorLowBits(Xor(h, m), m, k);
    XorInvolution(h, m);
  }

  /** A bucket of `h` in a larger table reduces to a bucket of `h` in a smaller one. */
  lemma CandidateReduce(h: nat, n: nat, c: nat, b: nat)
    requires n >= 1 && c >= 1 && n * c >= 1 && Candidate(h, n * c, b)
    ensures Candidate(h, n, b % n)
  {
    ModMod(h, n, c);
    ModMod(AltIndex(Fp(h), h), n, c);
  }

  /** Two items that share a slot in one table share both buckets in every smaller table. */
  lemma SharedCandidates(h: nat, g: nat, n: nat, c: nat, b: nat)
    requires IsPow2(n) && c >= 1 && n * c >= 1 && Fp(h) == Fp(g)
    requires Candidate(h, n * c, b) && Candidate(g, n * c, b)
    ensures forall d :: Candidate(h, n, d) <==> Candidate(g, n, d)
  {
    assert n >= 1;
    CandidateReduce(h, n, c, b);
    CandidateReduce(g, n, c, b);
    CandidatePair(h, n, b % n);
    CandidatePair(g, n, b % n);
  }

  // ---- the invariant of a filter ----

  ghost function Sizes(fs: seq<Table>): seq<nat> {
    seq(|fs|, i requires 0 <= i < |fs| => |fs[i]|)
  }

  /** Slot `p` of a table may hold `h`: a lookup of `h` inspects it. */
  predicate Fits(size: nat, spb: nat, p: nat, h: nat)
    requires spb > 0
  {
    size / spb > 0 && Candidate(h, size / spb, p / spb)
  }

  ghost function FitsIn(sizes: seq<nat>, spb: nat): Relation
    requires spb > 0
  {
    (i: nat, p: nat, h: nat) => i < |sizes| && Fits(sizes[i], spb, p, h)
  }

  ghost predicate Tracks(s: Filter, live: multiset<nat>) {
    && Valid(s)
    && s.numItems == |live|
    && exists own :: Matched(s.filters, FitsIn(Sizes(s.filters), s.params.spb), own, live)
  }

  lemma TracksValid(s: Filter, live: multiset<nat>)
    requires Tracks(s, live)
    ensures Valid(s) && TablesOk(s.filters, s.params.spb) && s.numItems == |live|
  {
    ValidTables(s);
  }

  /** No false negatives, and `num_items` counts exactly the occupied slots. */
  lemma TracksFinds(s: Filter, live: multiset<nat>)
    requires Tracks(s, live)
    ensures TablesOk(s.filters, s.params.spb)
    ensures forall h :: h in live ==> Contains(s, h)
    ensures s.numItems == |FullSlots(s.filters)|
  {
    ValidTables(s);
    var fits := FitsIn(Sizes(s.filters), s.params.spb);
    var own :| Matched(s.filters, fits, own, live);
    MatchedCount(s.filters, fits, own, live);
    forall h | h in live
      ensures Contains(s, h)
    {
      MatchedContains(s, own, live, h);
    }
  }

  lemma MatchedContains(s: Filter, own: map<Slot, nat>, live: multiset<nat>, h: nat)
    requires TablesOk(s.filters, s.params.spb) && s.params.spb > 0
    requires Matched(s.filters, FitsIn(Sizes(s.filters), s.params.spb), own, live) && h in live
    ensures Contains(s, h)
  {
    var i, p := LiveHasSlot(s.filters, FitsIn(Sizes(s.filters), s.params.spb), own, live, h);
    assert Matches(s.filters[i], s.params.spb, h, p);
  }

  // ---- insertion ----

  lemma OneDisplacement(fs: seq<Table>, last: nat, k: Ko, spb: nat, fits: Relation, own: map<Slot, nat>, live: multiset<nat>, hand: nat)
    returns (own': map<Slot, nat>, next: nat)
    requires last < |fs| && KoOk(k, spb) && IsPow2(Buckets(k.table, spb)) && Matched(fs[last := k.table], fits, own, live)
    requires forall p: nat, h: nat :: fits(last, p, h) <==> Fits(|k.table|, spb, p, h)
    requires k.fp == Fp(hand) && Candidate(hand, Buckets(k.table, spb), k.idx)
    requires FindBucket(k.table, spb, k.idx, 0).None?
    ensures var k' := KoStep(k, spb);
            && next in live && Matched(fs[last := k'.table], fits, own', live - multiset{next} + multiset{hand})
            && k'.fp == Fp(next) && Candidate(next, Buckets(k'.table, spb), k'.idx)
  {
    var gs := fs[last := k.table];
    var p := KoPos(k, spb);
    assert Full(gs, last, p);
    Clear(gs, fits, own, live, last, p);
    next := own[(last, p)];
    assert fits(last, p, next);
    CandidatePair(next, Buckets(k.table, spb), k.idx);
    assert fits(last, p, hand);
    Fill(Set(gs, last, p, 0), fits, own - {(last, p)}, live - multiset{next}, last, p, hand);
    SetSet(gs, last, p, 0, k.fp);
    PutTable(fs, last, k.table, p, k.fp);
    own' := (own - {(last, p)})[(last, p) := hand];
  }

  lemma DropHand(fs: seq<Table>, last: nat, k: Ko, spb: nat, fits: Relation, own: map<Slot, nat>, live: multiset<nat>, hand: nat, e: nat)
    returns (own': map<Slot, nat>)
    requires last < |fs| && KoOk(k, spb) && Matched(fs[last := k.table], fits, own, live)
    requires forall p: nat, h: nat :: fits(last, p, h) <==> Fits(|k.table|, spb, p, h)
    requires k.fp == Fp(hand) && Candidate(hand, Buckets(k.table, spb), k.idx)
    requires e < |k.table| && e / spb == k.idx && k.table[e] == 0
    ensures Matched(fs[last := k.table[e := k.fp]], fits, own', live + multiset{hand})
  {
    assert fits(last, e, hand);
    Fill(fs[last := k.table], fits, own, live, last, e, hand);
    PutTable(fs, last, k.table, e, k.fp);
    own' := own[(last, e) := hand];
  }

  /** A successful displacement chain keeps every item it moved, and adds the one it carried in. */
  lemma {:induction false} KoChainKeeps(fs: seq<Table>, last: nat, k: Ko, spb: nat, fuel: nat, fits: Relation, own: map<Slot, nat>,
                                        live: multiset<nat>, hand: nat)
    returns (own': map<Slot, nat>)
    requires last < |fs| && KoOk(k, spb) && IsPow2(Buckets(k.table, spb)) && Matched(fs[last := k.table], fits, own, live)
    requires forall p: nat, h: nat :: fits(last, p, h) <==> Fits(|k.table|, spb, p, h)
    requires k.fp == Fp(hand) && Candidate(hand, Buckets(k.table, spb), k.idx)
    requires FindBucket(k.table, spb, k.idx, 0).None?
    requires KoChain(k, spb, fuel).Some?
    ensures Matched(fs[last := KoChain(k, spb, fuel).value], fits, own', live + multiset{hand})
    decreases fuel
  {
    hide Matched;
    var own1, next := OneDisplacement(fs, last, k, spb, fits, own, live, hand);
    var k' := KoStep(k, spb);
    var live1 := live - multiset{next} + multiset{hand};
    assert live1 + multiset{next} == live + multiset{hand};
    var e := FindBucket(k'.table, spb, k'.idx, 0);
    if e.Some? {
      own' := DropHand(fs, last, k', spb, fits, own1, live1, next, e.value);
    } else {
      own' := KoChainKeeps(fs, last, k', spb, fuel - 1, fits, own1, live1, next);
    }
  }

  lemma ValidSame(s: Filter, s': Filter)
    requires Valid(s) && s'.params == s.params && SameSizes(s.filters, s'.filters)
    ensures Valid(s') && Sizes(s'.filters) == Sizes(s.filters)
  {
    forall i | 0 <= i < |s'.filters|
      ensures SizeOk(s'.params, s'.filters, i)
    {
      assert SizeOk(s.params, s.filters, i);
    }
  }

  lemma PlaceKeeps(fs: seq<Table>, spb: nat, h: nat, maxIterations: nat, own: map<Slot, nat>, live: multiset<nat>) returns (own': map<Slot, nat>)
    requires TablesOk(fs, spb) && |fs| > 0 && IsPow2(Buckets(fs[|fs| - 1], spb)) && Matched(fs, FitsIn(Sizes(fs), spb), own, live)
    requires FindNewest(fs, spb, h, 0, |fs|).None?
    requires KoChain(KoStart(fs[|fs| - 1], spb, h), spb, maxIterations).Some?
    ensures Matched(fs[|fs| - 1 := KoChain(KoStart(fs[|fs| - 1], spb, h), spb, maxIterations).value], FitsIn(Sizes(fs), spb), own', live + multiset{h})
  {
    hide Matched, KoChain, Fp, AltIndex;
    var last := |fs| - 1;
    var k := KoStart(fs[last], spb, h);
    StartIsFull(fs[last], spb, h);
    assert fs[last := k.table] == fs;
    own' := KoChainKeeps(fs, last, k, spb, maxIterations, FitsIn(Sizes(fs), spb), own, live, h);
  }

  /** A step that keeps the table sizes and leaves a matching keeps the invariant. */
  lemma Retrack(s: Filter, s': Filter, own: map<Slot, nat>, live: multiset<nat>)
    requires Valid(s) && s'.params == s.params && SameSizes(s.filters, s'.filters) && s'.numItems == |live|
    requires Matched(s'.filters, FitsIn(Sizes(s.filters), s.params.spb), own, live)
    ensures Tracks(s', live)
  {
    ValidSame(s, s');
  }

  lemma FillHole(s: Filter, h: nat, own: map<Slot, nat>, live: multiset<nat>, i: nat, p: nat)
    requires Valid(s) && s.numItems == |live| && TablesOk(s.filters, s.params.spb)
    requires Matched(s.filters, FitsIn(Sizes(s.filters), s.params.spb), own, live)
    requires i < |s.filters| && FindCandidate(s.filters[i], s.params.spb, h, 0) == Some(p)
    ensures Tracks(s.(filters := Set(s.filters, i, p, Fp(h)), numItems := s.numItems + 1), live + multiset{h})
  {
    var fits := FitsIn(Sizes(s.filters), s.params.spb);
    assert fits(i, p, h);
    Fill(s.filters, fits, own, live, i, p, h);
    Retrack(s, s.(filters := Set(s.filters, i, p, Fp(h)), numItems := s.numItems + 1), own[(i, p) := h], live + multiset{h});
  }

  lemma SwapTable(s: Filter, f: Table, own: map<Slot, nat>, live: multiset<nat>)
    requires Valid(s) && s.numItems + 1 == |live| && |s.filters| > 0 && |f| == |s.filters[|s.filters| - 1]|
    requires Matched(s.filters[|s.filters| - 1 := f], FitsIn(Sizes(s.filters), s.params.spb), own, live)
    ensures Tracks(s.(filters := s.filters[|s.filters| - 1 := f], numItems := s.numItems + 1, numKoInserts := s.numKoInserts + 1), live)
  {
    Retrack(s, s.(filters := s.filters[|s.filters| - 1 := f], numItems := s.numItems + 1, numKoInserts := s.numKoInserts + 1), own, live);
  }

  lemma PlaceTracks(s: Filter, h: nat, live: multiset<nat>)
    requires Tracks(s, live) && TablesOk(s.filters, s.params.spb) && |s.filters| > 0 && Place(s, h).Some?
    ensures Tracks(Place(s, h).value, live + multiset{h})
  {
    hide Matched;
    var own :| Matched(s.filters, FitsIn(Sizes(s.filters), s.params.spb), own, live);
    var hole := FindNewest(s.filters, s.params.spb, h, 0, |s.filters|);
    if hole.Some? {
      FillHole(s, h, own, live, hole.value.0, hole.value.1);
    } else {
      SubFilterOk(s, |s.filters| - 1);
      var own' := PlaceKeeps(s.filters, s.params.spb, h, s.params.maxIterations, own, live);
      var f := KoChain(KoStart(s.filters[|s.filters| - 1], s.params.spb, h), s.params.spb, s.params.maxIterations).value;
      SwapTable(s, f, own', live + multiset{h});
    }
  }

  lemma StartIsFull(f: Table, spb: nat, h: nat)
    requires TableOk(f, spb) && FindCandidate(f, spb, h, 0).None?
    ensures FindBucket(f, spb, h % Buckets(f, spb), 0).None?
  {
  }

  lemma GrowTracks(s: Filter, live: multiset<nat>)
    requires Tracks(s, live) && (|s.filters| == 0 || s.params.expansion != 0)
    ensures Tracks(Grow(s), live)
  {
    GrowValid(s);
    var own :| Matched(s.filters, FitsIn(Sizes(s.filters), s.params.spb), own, live);
    if SubFilterFits(s.params, |s.filters|) {
      AppendEmpty(s.filters, Zeros(SubFilterSize(s.params, |s.filters|)), s.params.spb, own, live);
    }
  }

  lemma AppendEmpty(fs: seq<Table>, f: Table, spb: nat, own: map<Slot, nat>, live: multiset<nat>)
    requires spb > 0 && Matched(fs, FitsIn(Sizes(fs), spb), own, live)
    requires forall p :: 0 <= p < |f| ==> f[p] == 0
    ensures Matched(fs + [f], FitsIn(Sizes(fs + [f]), spb), own, live)
  {
    Rematch(fs, FitsIn(Sizes(fs), spb), fs + [f], FitsIn(Sizes(fs + [f]), spb), own, live);
  }

  /** After growing, the second attempt finds a hole: an insertion grows at most once. */
  lemma GrownHasRoom(s: Filter, h: nat)
    requires Valid(s) && TablesOk(s.filters, s.params.spb) && MayGrow(s)
    ensures Valid(Grow(s)) && TablesOk(Grow(s).filters, s.params.spb) && Place(Grow(s), h).Some?
    ensures var g := Grow(s).filters; FindCandidate(g[|g| - 1], s.params.spb, h, 0).Some?
  {
    GrowValid(s);
    var g := Grow(s);
    ValidTables(g);
    var spb := s.params.spb;
    var f := g.filters[|s.filters|];
    var n := Buckets(f, spb);
    BucketBounds(f, spb, h % n);
    SlotBucket((h % n) * spb, h % n, spb);
    assert f[(h % n) * spb] == 0;
    assert FindCandidate(f, spb, h, 0).Some?;
  }

  ghost predicate NoHole(s: Filter, h: nat)
    requires TablesOk(s.filters, s.params.spb)
  {
    forall i, p :: 0 <= i < |s.filters| && 0 <= p < |s.filters[i]| && Fits(|s.filters[i]|, s.params.spb, p, h) ==> s.filters[i][p] != 0
  }

  /** An insertion of `h` does not depend on a rollback that goes astray. */
  predicate Safe(s: Filter, h: nat)
    requires TablesOk(s.filters, s.params.spb) && |s.filters| > 0
  {
    RollbackFits(s.params) || Place(s, h).Some?
  }

  lemma FailedSame(s: Filter, h: nat)
    requires Valid(s) && TablesOk(s.filters, s.params.spb) && |s.filters| > 0 && RollbackFits(s.params)
    ensures Failed(s, h) == s
  {
    hide RolledBack, IsPow2;
    var last := |s.filters| - 1;
    SubFilterOk(s, last);
    RollbackRestores(s.filters[last], s.params, h);
    assert s.filters[last := s.filters[last]] == s.filters;
  }

  /**
   An insertion succeeds and adds exactly one live item, or it changes nothing; it fails exactly
   when every candidate slot is taken, displacement fails, and growth is off or over the size limit.
   */
  lemma InsertTracks(s: Filter, h: nat, live: multiset<nat>)
    requires Tracks(s, live) && |s.filters| > 0 && TablesOk(s.filters, s.params.spb) && Safe(s, h)
    ensures var (s', ok) := Insert(s, h);
            && Tracks(s', if ok then live + multiset{h} else live)
            && |s.filters| <= |s'.filters| <= |s.filters| + 1
            && (!ok ==> s' == s && NoHole(s, h))
            && (ok <==> Place(s, h).Some? || MayGrow(s))
  {
    hide Tracks;
    TracksValid(s, live);
    if Place(s, h).Some? {
      PlaceTracks(s, h, live);
    } else {
      FailedSame(s, h);
      if MayGrow(s) {
        GrownHasRoom(s, h);
        GrowTracks(s, live);
        PlaceTracks(Grow(s), h, live);
      } else {
        NoneFound(s, h);
      }
    }
  }

  lemma NoneFound(s: Filter, h: nat)
    requires TablesOk(s.filters, s.params.spb) && |s.filters| > 0 && Place(s, h).None?
    ensures NoHole(s, h)
  {
    forall i, p | 0 <= i < |s.filters| && 0 <= p < |s.filters[i]| && Fits(|s.filters[i]|, s.params.spb, p, h)
      ensures s.filters[i][p] != 0
    {
      assert FindCandidate(s.filters[i], s.params.spb, h, 0).None?;
    }
  }

  // ---- deletion ----

  lemma FindsWhenContained(s: Filter, h: nat)
    requires TablesOk(s.filters, s.params.spb)
    ensures Delete(s, h).1 <==> Contains(s, h)
  {
    var spb := s.params.spb;
    var hit := FindNewest(s.filters, spb, h, Fp(h), |s.filters|);
    if hit.Some? {
      assert Matches(s.filters[hit.value.0], spb, h, hit.value.1);
    } else {
      forall i, p | 0 <= i < |s.filters|
        ensures !Matches(s.filters[i], spb, h, p)
      {
        assert FindCandidate(s.filters[i], spb, h, Fp(h)).None?;
      }
    }
  }

  /** The slot that newest-first deletion clears may belong to another item, which then takes over the older slot. */
  lemma ClearNewest(fs: seq<Table>, fits: Relation, own: map<Slot, nat>, live: multiset<nat>, h: nat, j: nat, q: nat, i: nat, p: nat)
    returns (own': map<Slot, nat>)
    requires Matched(fs, fits, own, live) && h in live
    requires (j, q) in own && own[(j, q)] == h
    requires (i, p) in own && Fp(own[(i, p)]) == Fp(h) && fits(j, q, own[(i, p)])
    ensures i < |fs| && p < |fs[i]| && Matched(Set(fs, i, p, 0), fits, own', live - multiset{h})
  {
    var g := own[(i, p)];
    HandOver(fs, fits, own, live, (j, q), g);
    var own1, live1 := own[(j, q) := g], live - multiset{h} + multiset{g};
    assert Full(fs, i, p);
    Clear(fs, fits, own1, live1, i, p);
    own' := own1 - {(i, p)};
    assert live1 - multiset{g} == live - multiset{h};
  }

  /** Whoever shares slot `p` of sub-filter `i` with `h` shares both its buckets in every older sub-filter. */
  lemma SameBuckets(s: Filter, h: nat, g: nat, j: nat, q: nat, i: nat, p: nat)
    requires Valid(s) && TablesOk(s.filters, s.params.spb)
    requires j <= i < |s.filters| && q < |s.filters[j]| && Fp(h) == Fp(g)
    requires Fits(|s.filters[i]|, s.params.spb, p, h) && Fits(|s.filters[i]|, s.params.spb, p, g)
    requires Fits(|s.filters[j]|, s.params.spb, q, h)
    ensures Fits(|s.filters[j]|, s.params.spb, q, g)
  {
    var spb, fs := s.params.spb, s.filters;
    var c := BucketsDivide(s, j, i);
    SubFilterOk(s, j);
    SharedCandidates(h, g, Buckets(fs[j], spb), c, p / spb);
  }

  lemma NewestIsNewest(s: Filter, h: nat, j: nat, q: nat)
    requires TablesOk(s.filters, s.params.spb) && j < |s.filters| && Matches(s.filters[j], s.params.spb, h, q)
    ensures var hit := FindNewest(s.filters, s.params.spb, h, Fp(h), |s.filters|);
            && hit.Some? && j <= hit.value.0 < |s.filters|
            && Matches(s.filters[hit.value.0], s.params.spb, h, hit.value.1)
  {
    assert FindCandidate(s.filters[j], s.params.spb, h, Fp(h)).Some?;
  }

  lemma DeleteTracks(s: Filter, h: nat, live: multiset<nat>)
    requires Tracks(s, live) && h in live
    ensures TablesOk(s.filters, s.params.spb) && Delete(s, h).1
    ensures Tracks(Delete(s, h).0, live - multiset{h})
  {
    ValidTables(s);
    var own :| Matched(s.filters, FitsIn(Sizes(s.filters), s.params.spb), own, live);
    DeleteKeepsTracks(s, h, own, live);
  }

  lemma DeleteKeepsTracks(s: Filter, h: nat, own: map<Slot, nat>, live: multiset<nat>)
    requires Valid(s) && TablesOk(s.filters, s.params.spb) && h in live && s.numItems == |live|
    requires Matched(s.filters, FitsIn(Sizes(s.filters), s.params.spb), own, live)
    ensures Delete(s, h).1 && Tracks(Delete(s, h).0, live - multiset{h})
  {
    hide Matched;
    var i, p, own' := DeleteKeeps(s, h, own, live);
    ClearSlot(s, i, p, own', live - multiset{h});
  }

  lemma DeleteKeeps(s: Filter, h: nat, own: map<Slot, nat>, live: multiset<nat>) returns (i: nat, p: nat, own': map<Slot, nat>)
    requires Valid(s) && TablesOk(s.filters, s.params.spb) && h in live
    requires Matched(s.filters, FitsIn(Sizes(s.filters), s.params.spb), own, live)
    ensures FindNewest(s.filters, s.params.spb, h, Fp(h), |s.filters|) == Some((i, p))
    ensures i < |s.filters| && p < |s.filters[i]|
    ensures Matched(Set(s.filters, i, p, 0), FitsIn(Sizes(s.filters), s.params.spb), own', live - multiset{h})
  {
    var spb, fs := s.params.spb, s.filters;
    var fits := FitsIn(Sizes(fs), spb);
    var j, q := LiveHasSlot(fs, fits, own, live, h);
    NewestIsNewest(s, h, j, q);
    var hit := FindNewest(fs, spb, h, Fp(h), |fs|);
    i, p := hit.value.0, hit.value.1;
    assert Full(fs, i, p);
    var g := own[(i, p)];
    assert fits(i, p, g) && fs[i][p] == Fp(g);
    SameBuckets(s, h, g, j, q, i, p);
    own' := ClearNewest(fs, fits, own, live, h, j, q, i, p);
  }

  lemma ClearSlot(s: Filter, i: nat, p: nat, own: map<Slot, nat>, live: multiset<nat>)
    requires Valid(s) && s.numItems - 1 == |live| && i < |s.filters| && p < |s.filters[i]|
    requires Matched(Set(s.filters, i, p, 0), FitsIn(Sizes(s.filters), s.params.spb), own, live)
    ensures Tracks(s.(filters := Set(s.filters, i, p, 0), numItems := s.numItems - 1, numDeletes := s.numDeletes + 1), live)
  {
    Retrack(s, s.(filters := Set(s.filters, i, p, 0), numItems := s.numItems - 1, numDeletes := s.numDeletes + 1), own, live);
  }

  /** Deleting keeps the invariant exactly for live items and for items that are not found at all. */
  lemma DeleteTracksIff(s: Filter, h: nat, live: multiset<nat>)
    requires Tracks(s, live)
    ensures TablesOk(s.filters, s.params.spb)
    ensures Tracks(Delete(s, h).0, live - multiset{h}) <==> h in live || !Contains(s, h)
  {
    ValidTables(s);
    FindsWhenContained(s, h);
    if h in live {
      DeleteTracks(s, h, live);
    } else {
      assert live - multiset{h} == live;
    }
  }

  /** Slot `p` of sub-filter `i` is the one place where a lookup of `g` succeeds. */
  ghost predicate OnlyMatch(s: Filter, g: nat, i: nat, p: nat)
    requires TablesOk(s.filters, s.params.spb)
  {
    && i < |s.filters| && Matches(s.filters[i], s.params.spb, g, p)
    && forall j, q: nat :: 0 <= j < |s.filters| && Matches(s.filters[j], s.params.spb, g, q) ==> j == i && q == p
  }

  lemma ClearedMatches(f: Table, spb: nat, p: nat, g: nat, q: nat)
    requires TableOk(f, spb) && p < |f|
    ensures TableOk(f[p := 0], spb)
    ensures Matches(f[p := 0], spb, g, q) <==> Matches(f, spb, g, q) && q != p
  {
    hide Candidate;
  }

  lemma ClearForgets(s: Filter, t: Filter, i: nat, p: nat, g: nat)
    requires TablesOk(s.filters, s.params.spb) && t.params == s.params
    requires i < |s.filters| && p < |s.filters[i]| && t.filters == Set(s.filters, i, p, 0)
    ensures TablesOk(t.filters, t.params.spb)
    ensures Contains(s, g) && !Contains(t, g) <==> OnlyMatch(s, g, i, p)
  {
    var spb := s.params.spb;
    forall q: nat
      ensures TableOk(t.filters[i], spb) && (Matches(t.filters[i], spb, g, q) <==> Matches(s.filters[i], spb, g, q) && q != p)
    {
      ClearedMatches(s.filters[i], spb, p, g, q);
    }
    hide Matches;
    assert forall j :: 0 <= j < |s.filters| && j != i ==> t.filters[j] == s.filters[j];
    if OnlyMatch(s, g, i, p) {
      assert Contains(s, g);
    }
    if Contains(s, g) && !Contains(t, g) {
      var j, q :| 0 <= j < |s.filters| && Matches(s.filters[j], spb, g, q);
      assert j == i && q == p;
    }
  }

  /**
   Which items a deletion of `h`, live or not, makes disappear: exactly those with no other slot than the
   one it clears, and these have the fingerprint of `h`.
   */
  lemma DeleteForgets(s: Filter, h: nat, g: nat)
    requires TablesOk(s.filters, s.params.spb)
    ensures Delete(s, h).1 <==> Contains(s, h)
    ensures TablesOk(Delete(s, h).0.filters, s.params.spb)
    ensures var hit := FindNewest(s.filters, s.params.spb, h, Fp(h), |s.filters|);
            Contains(s, g) && !Contains(Delete(s, h).0, g) <==> hit.Some? && OnlyMatch(s, g, hit.value.0, hit.value.1)
    ensures Contains(s, g) && !Contains(Delete(s, h).0, g) ==> Fp(g) == Fp(h)
  {
    FindsWhenContained(s, h);
    var hit := FindNewest(s.filters, s.params.spb, h, Fp(h), |s.filters|);
    if hit.Some? {
      var f := s.filters[hit.value.0];
      assert hit.value.1 < |f| && f[hit.value.1] == Fp(h);
      hide FindNewest, FindCandidate, Candidate, Fp, Contains;
      ClearForgets(s, Delete(s, h).0, hit.value.0, hit.value.1, g);
    }
  }

  // ---- compaction ----

  /** The reduced bucket index and its alternate are the two buckets of the item in a smaller table. */
  lemma ReducedBuckets(h: nat, n: nat, c: nat, b: nat, d: nat)
    requires IsPow2(n) && c >= 1 && n * c >= 1 && Candidate(h, n * c, b)
    requires d == b % n || d == AltIndex(Fp(h), b) % n
    ensures Candidate(h, n, d)
  {
    CandidateReduce(h, n, c, b);
    CandidatePair(h, n, b % n);
    var k: nat :| n == Pow2(k);
    XorLowBits(b, Fp(h) * MIX, k);
  }

  lemma RelocateFits(s: Filter, i: nat, p: nat, j: nat, q: nat, h: nat)
    requires Valid(s) && TablesOk(s.filters, s.params.spb)
    requires j < i < |s.filters| && p < |s.filters[i]| && q < |s.filters[j]|
    requires Fits(|s.filters[i]|, s.params.spb, p, h)
    requires var n := Buckets(s.filters[j], s.params.spb);
             q / s.params.spb == p / s.params.spb % n || q / s.params.spb == AltIndex(Fp(h), p / s.params.spb) % n
    ensures Fits(|s.filters[j]|, s.params.spb, q, h)
  {
    var spb := s.params.spb;
    var c := BucketsDivide(s, j, i);
    SubFilterOk(s, j);
    ReducedBuckets(h, Buckets(s.filters[j], spb), c, p / spb, q / spb);
  }

  lemma RelocateKeeps(s: Filter, i: nat, p: nat, own: map<Slot, nat>, live: multiset<nat>)
    requires Valid(s) && TablesOk(s.filters, s.params.spb) && i < |s.filters| && p < |s.filters[i]| && s.numItems == |live|
    requires Matched(s.filters, FitsIn(Sizes(s.filters), s.params.spb), own, live)
    ensures Tracks(s.(filters := Relocate(s.filters, s.params.spb, i, p).0), live)
  {
    var spb, fs := s.params.spb, s.filters;
    var fits := FitsIn(Sizes(fs), spb);
    var r := Relocate(fs, spb, i, p);
    var room := FindPrior(fs, spb, i, p, 0);
    if fs[i][p] == 0 || room.None? {
      Retrack(s, s.(filters := r.0), own, live);
    } else {
      var j, q := room.value.0, room.value.1;
      assert Full(fs, i, p);
      var h := own[(i, p)];
      assert fits(i, p, h) && fs[i][p] == Fp(h);
      RelocateFits(s, i, p, j, q, h);
      var own' := Move(fs, fits, own, live, i, p, j, q);
      Retrack(s, s.(filters := r.0), own', live);
    }
  }

  lemma RelocateTracks(s: Filter, i: nat, p: nat, live: multiset<nat>)
    requires Tracks(s, live) && TablesOk(s.filters, s.params.spb) && i < |s.filters| && p < |s.filters[i]|
    ensures Tracks(s.(filters := Relocate(s.filters, s.params.spb, i, p).0), live)
  {
    var own :| Matched(s.filters, FitsIn(Sizes(s.filters), s.params.spb), own, live);
    RelocateKeeps(s, i, p, own, live);
  }

  lemma {:induction false} RelocateFromTracks(s: Filter, i: nat, from: nat, live: multiset<nat>)
    requires Tracks(s, live) && TablesOk(s.filters, s.params.spb) && i < |s.filters| && from <= |s.filters[i]|
    ensures Tracks(s.(filters := RelocateFrom(s.filters, s.params.spb, i, from).0), live)
    decreases |s.filters[i]| - from
  {
    hide Tracks;
    if from < |s.filters[i]| {
      RelocateTracks(s, i, from, live);
      var s' := s.(filters := Relocate(s.filters, s.params.spb, i, from).0);
      RelocateFromTracks(s', i, from + 1, live);
    }
  }

  predicate AllEmpty(f: Table) {
    forall p :: 0 <= p < |f| ==> f[p] == 0
  }

  lemma PopKeeps(s: Filter, own: map<Slot, nat>, live: multiset<nat>)
    requires Valid(s) && s.numItems == |live| && |s.filters| > 0
    requires AllEmpty(s.filters[|s.filters| - 1])
    requires Matched(s.filters, FitsIn(Sizes(s.filters), s.params.spb), own, live)
    ensures Tracks(s.(filters := s.filters[..|s.filters| - 1]), live)
  {
    var spb, fs := s.params.spb, s.filters;
    var gs := fs[..|fs| - 1];
    Rematch(fs, FitsIn(Sizes(fs), spb), gs, FitsIn(Sizes(gs), spb), own, live);
    forall i | 0 <= i < |gs|
      ensures SizeOk(s.params, gs, i)
    {
      assert SizeOk(s.params, fs, i);
    }
  }

  lemma PopTracks(s: Filter, live: multiset<nat>)
    requires Tracks(s, live) && |s.filters| > 0
    requires AllEmpty(s.filters[|s.filters| - 1])
    ensures Tracks(s.(filters := s.filters[..|s.filters| - 1]), live)
  {
    var own :| Matched(s.filters, FitsIn(Sizes(s.filters), s.params.spb), own, live);
    PopKeeps(s, own, live);
  }

  lemma CompactOneTracks(s: Filter, i: nat, live: multiset<nat>)
    requires Tracks(s, live) && TablesOk(s.filters, s.params.spb) && i < |s.filters|
    ensures Tracks(s.(filters := CompactOne(s.filters, s.params.spb, i).0), live)
  {
    hide Tracks;
    RelocateFromTracks(s, i, 0, live);
    var r := RelocateFrom(s.filters, s.params.spb, i, 0);
    if r.1 && i == |s.filters| - 1 {
      PopTracks(s.(filters := r.0), live);
    }
  }

  lemma {:induction false} CompactDownTracks(s: Filter, i: nat, cont: bool, live: multiset<nat>)
    requires Tracks(s, live) && TablesOk(s.filters, s.params.spb) && i <= |s.filters|
    ensures Tracks(s.(filters := CompactDown(s.filters, s.params.spb, i, cont)), live)
    ensures |s.filters| > 0 ==> |CompactDown(s.filters, s.params.spb, i, cont)| > 0
    decreases i
  {
    hide Tracks;
    if i > 1 {
      CompactOneTracks(s, i - 1, live);
      var r := CompactOne(s.filters, s.params.spb, i - 1);
      if r.1 || cont {
        CompactDownTracks(s.(filters := r.0), i - 1, cont, live);
      }
    }
  }

  lemma CompactTracks(s: Filter, cont: bool, live: multiset<nat>)
    requires Tracks(s, live)
    ensures TablesOk(s.filters, s.params.spb)
    ensures Tracks(Compact(s, cont), live)
    ensures |s.filters| > 0 ==> |Compact(s, cont).filters| > 0
  {
    hide Matched;
    TracksValid(s, live);
    CompactDownTracks(s, |s.filters|, cont, live);
  }

  lemma NewTracks(p: Params)
    requires ParamsOk(p)
    ensures Tracks(New(p), multiset{})
  {
    var s := Filter(p, [], 0, 0, 0);
    assert Matched([], FitsIn(Sizes([]), p.spb), map[], multiset{});
    GrowTracks(s, multiset{});
  }

  /** Another 64-bit hash with the fingerprint and both buckets of `h` in a table of `n` buckets. */
  function Double(h: nat, n: nat): nat { if h >= 255 * n then h - 255 * n else h + 255 * n }

  lemma Pow2Of55()
    ensures Pow2(55) == 0x80_0000_0000_0000
  {
    assert Pow2(11) == 2048 by {
      assert Pow2(5) == 32;
      Pow2Add(5, 6);
    }
    hide Pow2;
    Pow2Add(11, 11);
    Pow2Add(22, 22);
    Pow2Add(44, 11);
  }

  lemma LargestCount(n: nat)
    requires IsPow2(n) && n <= MAX_BUCKETS
    ensures n <= 0x80_0000_0000_0000
  {
    var k: nat :| n == Pow2(k);
    Pow2Of55();
    hide Pow2;
    if k > 55 {
      Pow2Doubles(55, k);
    } else if k < 55 {
      Pow2Doubles(k, 55);
    }
  }

  lemma DoubleFits(p: Params, h: nat)
    requires ParamsOk(p) && |New(p).filters| > 0 && h <= U64_MAX
    ensures Double(h, p.numBuckets) <= U64_MAX && Double(h, p.numBuckets) != h
  {
    assert Power(p.expansion, 0) == 1;
    DivSmaller(MAX_BUCKETS, p.numBuckets);
    assert p.numBuckets <= MAX_BUCKETS by {
      if p.numBuckets > MAX_BUCKETS { ModUnique(MAX_BUCKETS, p.numBuckets, 0, MAX_BUCKETS); }
    }
    LargestCount(p.numBuckets);
  }

  /** Deleting an item that was never inserted can lose a live one, whatever the parameters and the item. */
  lemma UnmatchedDeleteLosesItem(p: Params, h: nat)
    requires ParamsOk(p) && |New(p).filters| > 0 && h <= U64_MAX
    ensures Valid(New(p)) && Insert(New(p), h).1
    ensures Double(h, p.numBuckets) <= U64_MAX && Double(h, p.numBuckets) != h
    ensures var s := Insert(New(p), h).0;
            && TablesOk(s.filters, s.params.spb) && Contains(s, h)
            && var t := Delete(s, Double(h, p.numBuckets)).0;
            TablesOk(t.filters, t.params.spb) && !Contains(t, h)
  {
    DoubleFits(p, h);
    hide Tracks, Insert, Delete, Contains, Place, Valid, TablesOk, MayGrow;
    NewTracks(p);
    TracksValid(New(p), multiset{});
    FirstTableEmpty(p, h);
    InsertTracks(New(p), h, multiset{});
    var s := Insert(New(p), h).0;
    assert multiset{} + multiset{h} == multiset{h};
    TracksValid(s, multiset{h});
    TracksFinds(s, multiset{h});
    LoneItem(s, h);
  }

  lemma LoneItem(s: Filter, h: nat)
    requires Tracks(s, multiset{h}) && |s.filters| == 1 && Valid(s) && TablesOk(s.filters, s.params.spb)
    ensures var t := Delete(s, Double(h, s.params.numBuckets)).0;
            TablesOk(t.filters, t.params.spb) && !Contains(t, h)
  {
    hide Tracks;
    SubFilterOk(s, 0);
    TwinItems(s.filters, s.params.spb, h, Double(h, s.params.numBuckets), s.params.numBuckets);
    DeleteTracks(s, h, multiset{h});
    var t := Delete(s, h).0;
    assert multiset{h} - multiset{h} == multiset{};
    TracksValid(t, multiset{});
    TracksFinds(t, multiset{});
    NothingFound(t, h);
  }

  lemma NothingFound(s: Filter, h: nat)
    requires TablesOk(s.filters, s.params.spb) && |FullSlots(s.filters)| == 0
    ensures !Contains(s, h)
  {
    forall i, q: nat | 0 <= i < |s.filters|
      ensures !Matches(s.filters[i], s.params.spb, h, q)
    {
      assert Full(s.filters, i, q) ==> (i, q) in FullSlots(s.filters);
    }
  }

  lemma FirstTableEmpty(p: Params, h: nat)
    requires ParamsOk(p) && |New(p).filters| > 0 && Valid(New(p)) && TablesOk(New(p).filters, p.spb)
    ensures Place(New(p), h).Some? && |Insert(New(p), h).0.filters| == 1 && Insert(New(p), h).0.params == p
    ensures New(p).params == p
  {
    var f := New(p).filters[0];
    var n := Buckets(f, p.spb);
    BucketBounds(f, p.spb, h % n);
    SlotBucket((h % n) * p.spb, h % n, p.spb);
    assert f[(h % n) * p.spb] == 0;
    assert FindCandidate(f, p.spb, h, 0).Some?;
  }

  lemma TwinBuckets(h: nat, n: nat)
    requires IsPow2(n)
    ensures Fp(h + 255 * n) == Fp(h) && (h + 255 * n) % n == h % n
    ensures AltIndex(Fp(h), h + 255 * n) % n == AltIndex(Fp(h), h) % n
  {
    hide Xor;
    var g := h + 255 * n;
    ModUnique(g, n, h / n + 255, h % n);
    ModUnique(g, 255, h / 255 + n, h % 255);
    var k: nat :| n == Pow2(k);
    XorLowBits(h, Fp(h) * MIX, k);
    XorLowBits(g, Fp(h) * MIX, k);
  }

  lemma TwinItems(fs: seq<Table>, spb: nat, h: nat, g: nat, n: nat)
    requires TablesOk(fs, spb) && |fs| == 1 && Buckets(fs[0], spb) == n && IsPow2(n) && g == Double(h, n)
    ensures Fp(g) == Fp(h) && FindNewest(fs, spb, h, Fp(h), 1) == FindNewest(fs, spb, g, Fp(g), 1)
  {
    hide AltIndex, Fp;
    TwinBuckets(if g < h then g else h, n);
    assert FindCandidate(fs[0], spb, h, Fp(h)) == FindCandidate(fs[0], spb, g, Fp(g));
    assert FindNewest(fs, spb, h, Fp(h), 0).None? && FindNewest(fs, spb, g, Fp(g), 0).None?;
  }
}
