/**
 Every run of the cuckoo filter (src/core/cuckoo.rs), for all parameters: a displacement that fails and is not rolled
 back exactly costs at most one item, and nothing else ever loses one.
 */
module CuckooRuns {
  import opened Bits
  import opened CuckooSpec
  import opened CuckooRollback
  import opened SlotMatching
  import opened CuckooProof

  // ---- a displacement that fails, whatever the rollback makes of it ----

  /** The tables hold exactly the items of `own`; the item counter may say something else. */
  ghost predicate Holds(s: Filter, own: multiset<nat>) {
    Valid(s) && Matchable(s.filters, FitsIn(Sizes(s.filters), s.params.spb), own)
  }

  lemma HoldsTracks(s: Filter, own: multiset<nat>)
    requires Holds(s, own)
    ensures Tracks(s.(numItems := |own|), own)
  {
    ValidSame(s, s.(numItems := |own|));
  }

  lemma TracksHolds(s: Filter, t: Filter, own: multiset<nat>)
    requires Tracks(t, own) && s.params == t.params && s.filters == t.filters
    ensures Holds(s, own)
  {
    ValidSame(t, s);
  }

  lemma HoldsValid(s: Filter, own: multiset<nat>)
    requires Holds(s, own)
    ensures Valid(s) && TablesOk(s.filters, s.params.spb)
  {
    ValidTables(s);
  }

  /** What is in hand: an item, or nothing. */
  function Held(hand: Option<nat>): multiset<nat> { if hand.Some? then multiset{hand.value} else multiset{} }

  function HandFp(hand: Option<nat>): byte { if hand.Some? then Fp(hand.value) else 0 }

  ghost predicate Matchable(fs: seq<Table>, fits: Relation, own: multiset<nat>) {
    exists m :: Matched(fs, fits, m, own)
  }

  /** Emptying a slot. */
  lemma TakeOut(fs: seq<Table>, last: nat, f: Table, fits: Relation, own: multiset<nat>, p: nat) returns (own': multiset<nat>, out: Option<nat>)
    requires last < |fs| && p < |f| && Matchable(fs[last := f], fits, own)
    ensures Matchable(fs[last := f[p := 0]], fits, own')
    ensures own' + Held(out) == own && f[p] == HandFp(out) && (out.Some? ==> fits(last, p, out.value))
  {
    var gs := fs[last := f];
    var m :| Matched(gs, fits, m, own);
    if f[p] == 0 {
      assert f[p := 0] == f;
      own', out := own, None;
    } else {
      assert Full(gs, last, p);
      Clear(gs, fits, m, own, last, p);
      assert (last, p) in m && fits(last, p, m[(last, p)]) && f[p] == Fp(m[(last, p)]);
      hide Fp, Matched;
      PutTable(fs, last, f, p, 0);
      own', out := own - multiset{m[(last, p)]}, Some(m[(last, p)]);
    }
  }

  /** Filling an empty slot from the hand. */
  lemma PutIn(fs: seq<Table>, last: nat, f: Table, fits: Relation, own: multiset<nat>, hand: Option<nat>, p: nat)
    requires last < |fs| && p < |f| && f[p] == 0 && Matchable(fs[last := f], fits, own) && (hand.Some? ==> fits(last, p, hand.value))
    ensures Matchable(fs[last := f[p := HandFp(hand)]], fits, own + Held(hand))
  {
    var m :| Matched(fs[last := f], fits, m, own);
    if hand.Some? {
      Fill(fs[last := f], fits, m, own, last, p, hand.value);
      hide Fp;
      PutTable(fs, last, f, p, Fp(hand.value));
    } else {
      assert f[p := 0] == f;
      assert own + multiset{} == own;
    }
  }

  /** Swapping the hand with any slot it fits keeps everything, in the table or in hand. */
  lemma SwapKeeps(fs: seq<Table>, last: nat, f: Table, fits: Relation, own: multiset<nat>, hand: Option<nat>, p: nat)
    returns (own': multiset<nat>, out: Option<nat>)
    requires last < |fs| && p < |f| && Matchable(fs[last := f], fits, own) && (hand.Some? ==> fits(last, p, hand.value))
    ensures Matchable(fs[last := f[p := HandFp(hand)]], fits, own')
    ensures own' + Held(out) == own + Held(hand) && f[p] == HandFp(out) && (out.Some? ==> fits(last, p, out.value))
  {
    hide Matchable, Fp;
    var rest;
    rest, out := TakeOut(fs, last, f, fits, own, p);
    var e: Table := f[p := 0];
    PutIn(fs, last, e, fits, rest, hand, p);
    assert e[p := HandFp(hand)] == f[p := HandFp(hand)];
    own' := rest + Held(hand);
  }

  /** In the middle of a displacement or of its rollback: all of `all` is in the tables or in hand, and fits. */
  ghost predicate Carried(fs: seq<Table>, last: nat, k: Ko, spb: nat, fits: Relation, all: multiset<nat>) {
    && last < |fs| && KoOk(k, spb) && IsPow2(Buckets(k.table, spb))
    && (forall p: nat, h: nat :: fits(last, p, h) <==> Fits(|k.table|, spb, p, h))
    && exists own, hand :: CarriedBy(fs, last, k, spb, fits, all, own, hand)
  }

  ghost predicate CarriedBy(fs: seq<Table>, last: nat, k: Ko, spb: nat, fits: Relation, all: multiset<nat>, own: multiset<nat>, hand: Option<nat>)
    requires last < |fs| && KoOk(k, spb)
  {
    && Matchable(fs[last := k.table], fits, own)
    && own + Held(hand) == all && k.fp == HandFp(hand)
    && (hand.Some? ==> Candidate(hand.value, Buckets(k.table, spb), k.idx))
  }

  lemma SwapCarried(fs: seq<Table>, last: nat, k: Ko, spb: nat, fits: Relation, all: multiset<nat>, own: multiset<nat>, hand: Option<nat>,
                    k': Ko, p: nat)
    requires Carried(fs, last, k, spb, fits, all) && CarriedBy(fs, last, k, spb, fits, all, own, hand)
    requires KoOk(k', spb) && SwapsAt(k, k', spb, p, hand)
    ensures Carried(fs, last, k', spb, fits, all)
  {
    hide Matchable, Candidate, AltIndex, Fp, IsPow2;
    var n := Buckets(k.table, spb);
    assert hand.Some? ==> fits(last, p, hand.value);
    var own', out := SwapKeeps(fs, last, k.table, fits, own, hand, p);
    if out.Some? {
      assert Fits(|k.table|, spb, p, out.value);
      CandidatePair(out.value, n, p / spb);
      assert Candidate(out.value, n, k'.idx);
    }
    assert CarriedBy(fs, last, k', spb, fits, all, own', out);
  }

  /** The hand goes into slot `p`, where it fits, and what was there is carried on in the same bucket or the other one. */
  ghost predicate SwapsAt(k: Ko, k': Ko, spb: nat, p: nat, hand: Option<nat>)
    requires KoOk(k, spb)
  {
    && p < |k.table| && k'.table == k.table[p := k.fp] && k'.fp == k.table[p]
    && (hand.Some? ==> Candidate(hand.value, Buckets(k.table, spb), p / spb))
    && (k'.idx == p / spb || k'.idx == AltIndex(k'.fp, p / spb) % Buckets(k.table, spb))
  }

  lemma StepCarried(fs: seq<Table>, last: nat, k: Ko, spb: nat, fits: Relation, all: multiset<nat>)
    requires Carried(fs, last, k, spb, fits, all)
    ensures Carried(fs, last, KoStep(k, spb), spb, fits, all)
  {
    hide Matchable, Candidate, AltIndex, Fp, IsPow2;
    var own, hand :| CarriedBy(fs, last, k, spb, fits, all, own, hand);
    assert SwapsAt(k, KoStep(k, spb), spb, KoPos(k, spb), hand);
    SwapCarried(fs, last, k, spb, fits, all, own, hand, KoStep(k, spb), KoPos(k, spb));
  }

  lemma UndoCarried(fs: seq<Table>, last: nat, k: Ko, spb: nat, fits: Relation, all: multiset<nat>)
    requires Carried(fs, last, k, spb, fits, all)
    ensures Carried(fs, last, KoUndo(k, spb), spb, fits, all)
  {
    var own, hand :| CarriedBy(fs, last, k, spb, fits, all, own, hand);
    var n, v := Buckets(k.table, spb), PrevSlot(k.victim, spb);
    if hand.Some? {
      CandidatePair(hand.value, n, k.idx);
    }
    hide Matchable, Candidate, AltIndex, Fp, IsPow2, PrevSlot;
    var b := AltIndex(k.fp, k.idx) % n;
    var p := KoPos(Ko(k.table, b, k.fp, v), spb);
    assert SwapsAt(k, KoUndo(k, spb), spb, p, hand);
    SwapCarried(fs, last, k, spb, fits, all, own, hand, KoUndo(k, spb), p);
  }

  lemma CarriedOk(fs: seq<Table>, last: nat, k: Ko, spb: nat, fits: Relation, all: multiset<nat>)
    requires Carried(fs, last, k, spb, fits, all)
    ensures KoOk(k, spb)
  {
  }

  lemma {:induction false} AfterCarried(fs: seq<Table>, last: nat, k: Ko, spb: nat, fits: Relation, all: multiset<nat>, i: nat)
    requires Carried(fs, last, k, spb, fits, all)
    ensures KoOk(k, spb) && Carried(fs, last, KoAfter(k, spb, i), spb, fits, all)
  {
    CarriedOk(fs, last, k, spb, fits, all);
    hide Carried, KoStep, KoOk;
    if i > 0 {
      AfterCarried(fs, last, k, spb, fits, all, i - 1);
      StepCarried(fs, last, KoAfter(k, spb, i - 1), spb, fits, all);
    }
  }

  lemma {:induction false} BackCarried(fs: seq<Table>, last: nat, k: Ko, spb: nat, fits: Relation, all: multiset<nat>, i: nat)
    requires Carried(fs, last, k, spb, fits, all)
    ensures KoOk(k, spb) && Carried(fs, last, KoBack(k, spb, i), spb, fits, all)
  {
    CarriedOk(fs, last, k, spb, fits, all);
    hide Carried, KoUndo, KoOk;
    if i > 0 {
      BackCarried(fs, last, k, spb, fits, all, i - 1);
      UndoCarried(fs, last, KoBack(k, spb, i - 1), spb, fits, all);
    }
  }

  lemma StartCarried(fs: seq<Table>, spb: nat, h: nat, own: multiset<nat>)
    requires TablesOk(fs, spb) && |fs| > 0 && IsPow2(Buckets(fs[|fs| - 1], spb))
    requires Matchable(fs, FitsIn(Sizes(fs), spb), own)
    ensures Carried(fs, |fs| - 1, KoStart(fs[|fs| - 1], spb, h), spb, FitsIn(Sizes(fs), spb), own + multiset{h})
  {
    hide Matchable, AltIndex, IsPow2, Fp;
    var last := |fs| - 1;
    assert fs[last := fs[last]] == fs;
    assert CarriedBy(fs, last, KoStart(fs[last], spb, h), spb, FitsIn(Sizes(fs), spb), own + multiset{h}, own, Some(h));
  }

  lemma RolledBackCarried(fs: seq<Table>, spb: nat, h: nat, m: nat, own: multiset<nat>) returns (k: Ko)
    requires TablesOk(fs, spb) && |fs| > 0 && IsPow2(Buckets(fs[|fs| - 1], spb)) && Matchable(fs, FitsIn(Sizes(fs), spb), own)
    ensures k.table == RolledBack(fs[|fs| - 1], spb, h, m)
    ensures Carried(fs, |fs| - 1, k, spb, FitsIn(Sizes(fs), spb), own + multiset{h})
  {
    hide Matchable, KoAfter, KoBack, IsPow2, Carried;
    StartCarried(fs, spb, h, own);
    var last, fits, all := |fs| - 1, FitsIn(Sizes(fs), spb), own + multiset{h};
    var start := KoStart(fs[last], spb, h);
    AfterCarried(fs, last, start, spb, fits, all, m);
    BackCarried(fs, last, KoAfter(start, spb, m), spb, fits, all, m);
    k := KoBack(KoAfter(start, spb, m), spb, m);
  }

  /** After a failed displacement the tables hold all items and the new one, except at most one, the one in hand. */
  lemma FailedHolds(s: Filter, h: nat, own: multiset<nat>) returns (own': multiset<nat>, out: Option<nat>)
    requires Holds(s, own) && TablesOk(s.filters, s.params.spb) && |s.filters| > 0
    ensures Holds(Failed(s, h), own') && own' + Held(out) == own + multiset{h}
  {
    HoldsValid(s, own);
    SubFilterOk(s, |s.filters| - 1);
    FailedValid(s, h);
    FailedSizes(s, h);
    hide Matchable, RolledBack, IsPow2, Valid, TablesOk, Carried;
    var k := RolledBackCarried(s.filters, s.params.spb, h, s.params.maxIterations, own);
    own', out := CarriedEnds(s.filters, |s.filters| - 1, k, s.params.spb, FitsIn(Sizes(s.filters), s.params.spb), own + multiset{h});
  }

  lemma CarriedEnds(fs: seq<Table>, last: nat, k: Ko, spb: nat, fits: Relation, all: multiset<nat>)
    returns (own: multiset<nat>, out: Option<nat>)
    requires Carried(fs, last, k, spb, fits, all)
    ensures last < |fs| && Matchable(fs[last := k.table], fits, own) && own + Held(out) == all
  {
    hide Matchable, Fp, Candidate, IsPow2;
    own, out :| CarriedBy(fs, last, k, spb, fits, all, own, out);
  }

  lemma FailedSizes(s: Filter, h: nat)
    requires TablesOk(s.filters, s.params.spb) && |s.filters| > 0
    ensures Sizes(Failed(s, h).filters) == Sizes(s.filters)
  {
    hide RolledBack;
  }

  // ---- how many live items are missing ----

  lemma MissingLess(live: multiset<nat>, own: multiset<nat>, own': multiset<nat>, extra: multiset<nat>)
    requires own <= own' + extra
    ensures |live - own'| <= |live - own| + |extra|
  {
    assert live - own' <= (live - own) + extra;
    SubsetCard(live - own', (live - own) + extra);
  }

  lemma SubsetCard(a: multiset<nat>, b: multiset<nat>)
    requires a <= b
    ensures |a| <= |b|
  {
    assert b == a + (b - a);
  }

  lemma BothMore(live: multiset<nat>, own: multiset<nat>, h: nat)
    ensures (live + multiset{h}) - (own + multiset{h}) == live - own
  {
  }

  lemma BothLess(live: multiset<nat>, own: multiset<nat>, h: nat)
    requires h in live && h in own
    ensures (live - multiset{h}) - (own - multiset{h}) == live - own
  {
  }

  lemma LiveLess(live: multiset<nat>, own: multiset<nat>, h: nat)
    ensures |(live - multiset{h}) - own| <= |live - own|
  {
    SubsetCard((live - multiset{h}) - own, live - own);
  }

  lemma OtherLess(live: multiset<nat>, own: multiset<nat>, h: nat, g: nat)
    requires h in live && h !in own
    ensures |(live - multiset{h}) - (own - multiset{g})| <= |live - own|
  {
    var rest := (live - own) - multiset{h};
    assert (live - multiset{h}) - (own - multiset{g}) <= rest + multiset{g};
    SubsetCard((live - multiset{h}) - (own - multiset{g}), rest + multiset{g});
    assert h in live - own;
  }

  lemma InsertHolds(s: Filter, h: nat, own: multiset<nat>, live: multiset<nat>) returns (own': multiset<nat>)
    requires Holds(s, own) && TablesOk(s.filters, s.params.spb) && |s.filters| > 0
    ensures var (t, ok) := Insert(s, h);
            && Holds(t, own') && |t.filters| > 0
            && |(if ok then live + multiset{h} else live) - own'| <= |live - own| + if Astray(s, h) then 1 else 0
  {
    hide Holds, Place, RolledBack, MayGrow;
    if Place(s, h).Some? {
      PlaceHolds(s, h, own);
      own' := own + multiset{h};
      BothMore(live, own, h);
    } else {
      HoldsValid(s, own);
      FailedValid(s, h);
      var own1 := FailedMisses(s, h, own, live);
      var t := Failed(s, h);
      hide Failed, Astray;
      if MayGrow(t) {
        GrowHolds(t, h, own1);
        own' := own1 + multiset{h};
        BothMore(live, own1, h);
      } else {
        own' := own1;
      }
    }
  }

  lemma FailedMisses(s: Filter, h: nat, own: multiset<nat>, live: multiset<nat>) returns (own': multiset<nat>)
    requires Holds(s, own) && Valid(s) && TablesOk(s.filters, s.params.spb) && |s.filters| > 0 && Place(s, h).None?
    ensures Holds(Failed(s, h), own') && |live - own'| <= |live - own| + if Astray(s, h) then 1 else 0
  {
    hide Holds, Place, Failed, Valid, RollbackFits;
    if RollbackFits(s.params) {
      FailedSame(s, h);
      own' := own;
    } else {
      var out;
      own', out := FailedHolds(s, h, own);
      MissingLess(live, own, own', Held(out));
    }
  }

  /** A displacement that fails and may not be rolled back exactly. */
  predicate Astray(s: Filter, h: nat)
    requires TablesOk(s.filters, s.params.spb) && |s.filters| > 0
  {
    !Safe(s, h)
  }

  /** Nothing but the counter depends on the counter. */
  lemma PlaceSame(s: Filter, n: int, h: nat)
    requires TablesOk(s.filters, s.params.spb) && |s.filters| > 0
    ensures var a, b := Place(s, h), Place(s.(numItems := n), h);
            a.Some? == b.Some? && (a.Some? ==> a.value.filters == b.value.filters && a.value.params == b.value.params == s.params
                                               && |a.value.filters| == |s.filters|)
  {
    hide FindNewest, KoChain, Fp, TableOk;
  }

  lemma PlaceHolds(s: Filter, h: nat, own: multiset<nat>)
    requires Holds(s, own) && TablesOk(s.filters, s.params.spb) && |s.filters| > 0 && Place(s, h).Some?
    ensures Holds(Place(s, h).value, own + multiset{h}) && |Place(s, h).value.filters| > 0
  {
    hide Holds, Tracks, Place;
    HoldsTracks(s, own);
    PlaceSame(s, |own|, h);
    PlaceTracks(s.(numItems := |own|), h, own);
    TracksHolds(Place(s, h).value, Place(s.(numItems := |own|), h).value, own + multiset{h});
  }

  lemma GrowHolds(s: Filter, h: nat, own: multiset<nat>)
    requires Holds(s, own) && Valid(s) && TablesOk(s.filters, s.params.spb) && MayGrow(s)
    ensures Valid(Grow(s)) && TablesOk(Grow(s).filters, s.params.spb) && |Grow(s).filters| > 0
    ensures Place(Grow(s), h).Some? && Holds(Place(Grow(s), h).value, own + multiset{h}) && |Place(Grow(s), h).value.filters| > 0
  {
    hide Holds, Tracks, Place;
    GrownHasRoom(s, h);
    HoldsTracks(s, own);
    GrowTracks(s.(numItems := |own|), own);
    TracksHolds(Grow(s), Grow(s.(numItems := |own|)), own);
    PlaceHolds(Grow(s), h, own);
  }

  /** Deleting a live item, whether or not the tables still hold it. */
  lemma DeleteHolds(s: Filter, h: nat, own: multiset<nat>, live: multiset<nat>) returns (own': multiset<nat>)
    requires Holds(s, own) && TablesOk(s.filters, s.params.spb) && h in live
    ensures Holds(Delete(s, h).0, own') && |(live - multiset{h}) - own'| <= |live - own|
  {
    hide Holds, Matchable, Delete;
    if h in own {
      DeleteOwn(s, h, own);
      own' := own - multiset{h};
      BothLess(live, own, h);
    } else if Delete(s, h).1 {
      var g := DeleteOther(s, h, own);
      own' := own - multiset{g};
      OtherLess(live, own, h, g);
    } else {
      own' := own;
      DeleteCount(s, h);
      LiveLess(live, own, h);
    }
  }

  lemma DeleteOwn(s: Filter, h: nat, own: multiset<nat>)
    requires Holds(s, own) && TablesOk(s.filters, s.params.spb) && h in own
    ensures Holds(Delete(s, h).0, own - multiset{h})
  {
    HoldsTracks(s, own);
    var t := s.(numItems := |own|);
    DeleteTracks(t, h, own);
    hide Holds, Tracks, FindNewest, Fp;
    TracksHolds(Delete(s, h).0, Delete(t, h).0, own - multiset{h});
  }

  lemma DeleteOther(s: Filter, h: nat, own: multiset<nat>) returns (g: nat)
    requires Holds(s, own) && TablesOk(s.filters, s.params.spb) && Delete(s, h).1
    ensures Holds(Delete(s, h).0, own - multiset{g})
  {
    var fits := FitsIn(Sizes(s.filters), s.params.spb);
    var m :| Matched(s.filters, fits, m, own);
    var hit := FindNewest(s.filters, s.params.spb, h, Fp(h), |s.filters|);
    var i, p := hit.value.0, hit.value.1;
    assert Full(s.filters, i, p);
    Clear(s.filters, fits, m, own, i, p);
    hide FindNewest, Fp, FindCandidate, Matched;
    g := m[(i, p)];
    ValidSame(s, Delete(s, h).0);
    assert Matchable(Delete(s, h).0.filters, fits, own - multiset{g});
  }

  lemma CompactHolds(s: Filter, cont: bool, own: multiset<nat>)
    requires Holds(s, own) && TablesOk(s.filters, s.params.spb) && |s.filters| > 0
    ensures Holds(Compact(s, cont), own) && |Compact(s, cont).filters| > 0
  {
    hide Holds, Tracks, CompactDown;
    HoldsTracks(s, own);
    var t := s.(numItems := |own|);
    CompactTracks(t, cont, own);
    TracksHolds(Compact(s, cont), Compact(t, cont), own);
  }

  // ---- every run ----

  datatype Op = InsertOp(h: nat) | InsertUniqueOp(h: nat) | DeleteOp(h: nat) | CompactOp(cont: bool)

  ghost function Apply(s: Filter, op: Op): (r: (Filter, bool))
    requires Valid(s) && |s.filters| > 0
  {
    ValidTables(s);
    match op
    case InsertOp(h) => Insert(s, h)
    case InsertUniqueOp(h) => if Contains(s, h) then (s, false) else Insert(s, h)
    case DeleteOp(h) => Delete(s, h)
    case CompactOp(cont) => (Compact(s, cont), true)
  }

  /** The items a caller regards as present after `op` answered `ok`. */
  function LiveAfter(live: multiset<nat>, op: Op, ok: bool): multiset<nat> {
    match op
    case InsertOp(h) => if ok then live + multiset{h} else live
    case InsertUniqueOp(h) => if ok then live + multiset{h} else live
    case DeleteOp(h) => live - multiset{h}
    case CompactOp(_) => live
  }

  /** Callers delete only items they have inserted and not yet deleted. */
  predicate Allowed(live: multiset<nat>, op: Op) { op.DeleteOp? ==> op.h in live }

  /** 1 if the operation is an insertion with a failed displacement that may not be rolled back exactly. */
  ghost function Cost(s: Filter, op: Op): nat
    requires TablesOk(s.filters, s.params.spb) && |s.filters| > 0
  {
    match op
    case InsertOp(h) => if Astray(s, h) then 1 else 0
    case InsertUniqueOp(h) => if !Contains(s, h) && Astray(s, h) then 1 else 0
    case DeleteOp(_) => 0
    case CompactOp(_) => 0
  }

  lemma ApplyTracks(s: Filter, op: Op, live: multiset<nat>)
    requires Tracks(s, live) && |s.filters| > 0 && TablesOk(s.filters, s.params.spb) && Allowed(live, op) && Cost(s, op) == 0
    requires Valid(s)
    ensures var (t, ok) := Apply(s, op); Tracks(t, LiveAfter(live, op, ok)) && |t.filters| > 0
  {
    hide Tracks, Safe, Insert;
    match op
    case InsertOp(h) => InsertTracks(s, h, live);
    case InsertUniqueOp(h) => if !Contains(s, h) { InsertTracks(s, h, live); }
    case DeleteOp(h) => DeleteTracks(s, h, live);
    case CompactOp(cont) => CompactTracks(s, cont, live);
  }

  lemma ApplyHolds(s: Filter, op: Op, own: multiset<nat>, live: multiset<nat>) returns (own': multiset<nat>)
    requires Holds(s, own) && |s.filters| > 0 && TablesOk(s.filters, s.params.spb) && Allowed(live, op) && Valid(s)
    ensures var (t, ok) := Apply(s, op);
            Holds(t, own') && |t.filters| > 0 && |LiveAfter(live, op, ok) - own'| <= |live - own| + Cost(s, op)
  {
    hide Holds, Safe, Insert, Contains, Delete, Compact;
    match op
    case InsertOp(h) => own' := InsertHolds(s, h, own, live);
    case InsertUniqueOp(h) =>
      if Contains(s, h) {
        own' := own;
      } else {
        own' := InsertHolds(s, h, own, live);
      }
    case DeleteOp(h) =>
      own' := DeleteHolds(s, h, own, live);
      DeleteCount(s, h);
    case CompactOp(cont) =>
      own' := own;
      CompactHolds(s, cont, own);
  }

  lemma DeleteCount(s: Filter, h: nat)
    requires TablesOk(s.filters, s.params.spb)
    ensures |Delete(s, h).0.filters| == |s.filters| && (!Delete(s, h).1 ==> Delete(s, h).0 == s)
  {
  }

  lemma ApplyParams(s: Filter, op: Op)
    requires Valid(s) && |s.filters| > 0
    ensures Apply(s, op).0.params == s.params
  {
    hide FindNewest, KoChain, RolledBack, CompactDown, Contains, Fp;
  }

  /** After `lost` failed displacements that were not rolled back exactly. */
  ghost predicate Kept(s: Filter, live: multiset<nat>, lost: nat) {
    && |s.filters| > 0
    && (exists own :: Holds(s, own) && |live - own| <= lost)
    && (lost == 0 ==> Tracks(s, live))
  }

  lemma KeptValid(s: Filter, live: multiset<nat>, lost: nat)
    requires Kept(s, live, lost)
    ensures Valid(s) && TablesOk(s.filters, s.params.spb) && |s.filters| > 0
  {
    hide Matchable, Valid;
    var own :| Holds(s, own) && |live - own| <= lost;
    HoldsValid(s, own);
  }

  lemma TracksKept(s: Filter, live: multiset<nat>)
    requires Tracks(s, live) && |s.filters| > 0
    ensures Kept(s, live, 0)
  {
    TracksHolds(s, s, live);
    hide Holds, Tracks;
    assert |live - live| == 0 by { assert live - live == multiset{}; }
  }

  lemma ApplyKept(s: Filter, op: Op, live: multiset<nat>, lost: nat)
    requires Kept(s, live, lost) && TablesOk(s.filters, s.params.spb) && Valid(s) && Allowed(live, op)
    ensures var (t, ok) := Apply(s, op); Kept(t, LiveAfter(live, op, ok), lost + Cost(s, op))
  {
    hide Apply, LiveAfter, Cost, Tracks, Holds, Allowed, Valid;
    var (t, ok) := Apply(s, op);
    var own :| Holds(s, own) && |live - own| <= lost;
    if lost + Cost(s, op) == 0 {
      ApplyTracks(s, op, live);
      TracksKept(t, LiveAfter(live, op, ok));
    } else {
      var own' := ApplyHolds(s, op, own, live);
    }
  }

  /**
   A whole run, leaving out deletions of items that are not live: the filter, the live items, and how many displacements
   failed without being sure to be rolled back.
   */
  ghost function Execute(s: Filter, live: multiset<nat>, lost: nat, ops: seq<Op>): (r: (Filter, multiset<nat>, nat))
    requires Kept(s, live, lost)
    ensures Kept(r.0, r.1, r.2) && lost <= r.2 && (RollbackFits(s.params) ==> r.2 == lost)
    decreases |ops|
  {
    hide Kept, Apply, Valid, Allowed, TablesOk, RollbackFits;
    if ops == [] then (s, live, lost)
    else if !Allowed(live, ops[0]) then Execute(s, live, lost, ops[1..])
    else
      KeptValid(s, live, lost);
      ApplyKept(s, ops[0], live, lost);
      ApplyParams(s, ops[0]);
      CostFits(s, ops[0]);
      var (t, ok) := Apply(s, ops[0]);
      Execute(t, LiveAfter(live, ops[0], ok), lost + Cost(s, ops[0]), ops[1..])
  }

  lemma CostFits(s: Filter, op: Op)
    requires TablesOk(s.filters, s.params.spb) && |s.filters| > 0
    ensures RollbackFits(s.params) ==> Cost(s, op) == 0
  {
  }

  /**
   The promise of the filter, for all parameters: from a new filter, after any run of insertions, compactions and
   deletions of live items, every live item is found except at most one for each displacement that failed without being
   sure to be rolled back. There is none for the parameters of `RollbackExact`. Without one, `num_items` is
   both the number of live items and the number of occupied slots.
   */
  lemma NoFalseNegatives(p: Params, ops: seq<Op>)
    requires ParamsOk(p) && |New(p).filters| > 0
    ensures Kept(New(p), multiset{}, 0)
    ensures var (s, live, lost) := Execute(New(p), multiset{}, 0, ops);
            && TablesOk(s.filters, s.params.spb)
            && (exists found: multiset<nat> ::
                  found <= live && |live| <= |found| + lost && forall h :: h in found ==> Contains(s, h))
            && (lost == 0 ==> s.numItems == |live| == |FullSlots(s.filters)|)
            && (RollbackFits(p) ==> lost == 0)
  {
    hide Tracks, Execute, Contains, Holds, New;
    NewTracks(p);
    TracksKept(New(p), multiset{});
    NewParams(p);
    var (s, live, lost) := Execute(New(p), multiset{}, 0, ops);
    KeptValid(s, live, lost);
    var found := KeptFound(s, live, lost);
    if lost == 0 {
      TracksFinds(s, live);
      TracksValid(s, live);
    }
  }

  lemma KeptFound(s: Filter, live: multiset<nat>, lost: nat) returns (found: multiset<nat>)
    requires Kept(s, live, lost) && TablesOk(s.filters, s.params.spb)
    ensures found <= live && |live| <= |found| + lost && forall h :: h in found ==> Contains(s, h)
  {
    hide Contains, Holds, Tracks;
    var own :| Holds(s, own) && |live - own| <= lost;
    found := live * own;
    assert live == found + (live - own);
    HoldsFinds(s, own);
  }

  lemma NewParams(p: Params)
    requires ParamsOk(p)
    ensures New(p).params == p
  {
  }

  lemma HoldsFinds(s: Filter, own: multiset<nat>)
    requires Holds(s, own)
    ensures TablesOk(s.filters, s.params.spb)
    ensures forall h :: h in own ==> Contains(s, h)
  {
    HoldsTracks(s, own);
    HoldsValid(s, own);
    var t := s.(numItems := |own|);
    TracksFinds(t, own);
    hide Tracks, Holds;
    assert t.filters == s.filters && t.params == s.params;
    assert forall h :: Contains(t, h) <==> Contains(s, h);
  }
}
