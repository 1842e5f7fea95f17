/**
 What compacting a cuckoo filter achieves (src/core/cuckoo.rs): the newest sub-filter is freed as
 soon as it is empty, and what stays behind had nowhere earlier to go.
 */
module CuckooCompact {
  import opened Bits
  import opened CuckooSpec

  /** Neither of the two buckets of fingerprint `fp`, found in bucket `b`, has a free slot in `f`. */
  ghost predicate NoRoom(f: Table, spb: nat, fp: byte, b: nat)
    requires TableOk(f, spb)
  {
    var n := |f| / spb;
    forall q :: 0 <= q < |f| && (q / spb == b % n || q / spb == Xor(b, fp * 0x5bd1_e995) % n) ==> f[q] != 0
  }

  ghost predicate Occupied(f: Table) { exists p :: 0 <= p < |f| && f[p] != 0 }

  /** No occupied slot of sub-filter `i` has a free slot in any of the sub-filters before `m`. */
  ghost predicate Settled(fs: seq<Table>, spb: nat, i: nat, m: nat)
    requires TablesOk(fs, spb) && i < |fs| && m <= |fs|
  {
    forall p, k :: 0 <= p < |fs[i]| && fs[i][p] != 0 && 0 <= k < m ==> NoRoom(fs[k], spb, fs[i][p], p / spb)
  }

  /** The sub-filters before `i` are only filled up, and those after it are not touched. */
  ghost predicate FillsBefore(fs: seq<Table>, gs: seq<Table>, i: nat) {
    && SameSizes(fs, gs)
    && (forall k, q :: 0 <= k < i && k < |fs| && 0 <= q < |fs[k]| && fs[k][q] != 0 ==> gs[k][q] != 0)
    && (forall k :: i < k < |fs| ==> gs[k] == fs[k])
  }

  lemma {:induction false} NoPrior(fs: seq<Table>, spb: nat, i: nat, p: nat, j: nat, k: nat)
    requires TablesOk(fs, spb) && i < |fs| && p < |fs[i]| && j <= k < i
    requires FindPrior(fs, spb, i, p, j).None? || k < FindPrior(fs, spb, i, p, j).value.0
    ensures NoRoom(fs[k], spb, fs[i][p], p / spb)
    decreases i - j
  {
    hide FindSlot;
    if j < k {
      NoPrior(fs, spb, i, p, j + 1, k);
    }
  }

  lemma NoRoomStays(f: Table, g: Table, spb: nat, fp: byte, b: nat)
    requires TableOk(f, spb) && TableOk(g, spb) && |f| == |g| && NoRoom(f, spb, fp, b)
    requires forall q :: 0 <= q < |f| && f[q] != 0 ==> g[q] != 0
    ensures NoRoom(g, spb, fp, b)
  {
  }

  /** The fingerprint of slot `p` of sub-filter `i` is now in slot `q` of `k`, the earliest sub-filter with room for it. */
  ghost predicate MovedTo(fs: seq<Table>, gs: seq<Table>, spb: nat, i: nat, p: nat, k: nat, q: nat)
    requires TablesOk(fs, spb) && i < |fs| && p < |fs[i]|
  {
    && k < i && q < |fs[k]| && fs[k][q] == 0 && !NoRoom(fs[k], spb, fs[i][p], p / spb)
    && gs == Set(Set(fs, k, q, fs[i][p]), i, p, 0)
    && forall e :: 0 <= e < k ==> NoRoom(fs[e], spb, fs[i][p], p / spb)
  }

  /** A slot goes to the earliest sub-filter with room for it, or stays because there is none. */
  lemma RelocateOne(fs: seq<Table>, spb: nat, i: nat, p: nat)
    requires TablesOk(fs, spb) && i < |fs| && p < |fs[i]|
    ensures var (gs, moved) := Relocate(fs, spb, i, p);
            && FillsBefore(fs, gs, i)
            && (fs[i][p] == 0 ==> moved && gs == fs)
            && (!moved ==> gs == fs && fs[i][p] != 0 && forall k :: 0 <= k < i ==> NoRoom(fs[k], spb, fs[i][p], p / spb))
            && (moved && fs[i][p] != 0 ==> gs[i][p] == 0 && exists k, q :: MovedTo(fs, gs, spb, i, p, k, q))
  {
    hide FindPrior, NoRoom;
    if fs[i][p] == 0 {
      return;
    }
    var room := FindPrior(fs, spb, i, p, 0);
    forall k | 0 <= k < i && (room.None? || k < room.value.0)
      ensures NoRoom(fs[k], spb, fs[i][p], p / spb)
    {
      NoPrior(fs, spb, i, p, 0, k);
    }
    if room.Some? {
      var (k, q) := room.value;
      HasRoom(fs[k], spb, fs[i][p], p / spb, q);
      assert MovedTo(fs, Relocate(fs, spb, i, p).0, spb, i, p, k, q);
    }
  }

  lemma HasRoom(f: Table, spb: nat, fp: byte, b: nat, q: nat)
    requires TableOk(f, spb) && q < |f| && f[q] == 0
    requires q / spb == b % Buckets(f, spb) || q / spb == AltIndex(fp, b) % Buckets(f, spb)
    ensures !NoRoom(f, spb, fp, b)
  {
  }

  lemma FillsTransitive(fs: seq<Table>, gs: seq<Table>, hs: seq<Table>, i: nat)
    requires FillsBefore(fs, gs, i) && FillsBefore(gs, hs, i)
    ensures FillsBefore(fs, hs, i)
  {
    forall k, q | 0 <= k < i && k < |fs| && 0 <= q < |fs[k]| && fs[k][q] != 0
      ensures hs[k][q] != 0
    {
      assert gs[k][q] != 0;
    }
  }

  lemma FillsKeepNoRoom(fs: seq<Table>, gs: seq<Table>, spb: nat, i: nat, k: nat, fp: byte, b: nat)
    requires TablesOk(fs, spb) && TablesOk(gs, spb) && FillsBefore(fs, gs, i) && k < i && k < |fs| && NoRoom(fs[k], spb, fp, b)
    ensures NoRoom(gs[k], spb, fp, b)
  {
    hide NoRoom;
    NoRoomStays(fs[k], gs[k], spb, fp, b);
  }

  /** No occupied slot of sub-filter `i` from `from` on has a free slot in an earlier sub-filter. */
  ghost predicate SettledFrom(fs: seq<Table>, spb: nat, i: nat, from: nat)
    requires TablesOk(fs, spb) && i < |fs|
  {
    forall p, k :: from <= p < |fs[i]| && fs[i][p] != 0 && 0 <= k < i ==> NoRoom(fs[k], spb, fs[i][p], p / spb)
  }

  lemma SettledStep(gs: seq<Table>, hs: seq<Table>, spb: nat, i: nat, from: nat)
    requires TablesOk(gs, spb) && TablesOk(hs, spb) && FillsBefore(gs, hs, i) && i < |gs| && from < |gs[i]|
    requires hs[i][from] == gs[i][from] && SettledFrom(hs, spb, i, from + 1)
    requires gs[i][from] != 0 ==> forall k :: 0 <= k < i ==> NoRoom(gs[k], spb, gs[i][from], from / spb)
    ensures SettledFrom(hs, spb, i, from)
  {
    hide NoRoom;
    forall p, k | from <= p < |hs[i]| && hs[i][p] != 0 && 0 <= k < i
      ensures NoRoom(hs[k], spb, hs[i][p], p / spb)
    {
      if p == from {
        FillsKeepNoRoom(gs, hs, spb, i, k, gs[i][from], from / spb);
      }
    }
  }

  /** After the slots from `from` on were tried: those still occupied have no room before, and there is one if any had to stay. */
  lemma {:induction false} RelocateAll(fs: seq<Table>, spb: nat, i: nat, from: nat)
    requires TablesOk(fs, spb) && i < |fs| && from <= |fs[i]|
    ensures var (gs, all) := RelocateFrom(fs, spb, i, from);
            && FillsBefore(fs, gs, i) && TablesOk(gs, spb) && SettledFrom(gs, spb, i, from)
            && (!all ==> exists p :: from <= p < |gs[i]| && gs[i][p] != 0)
    decreases |fs[i]| - from
  {
    hide NoRoom, Relocate, FillsBefore, MovedTo;
    if from == |fs[i]| {
      FillsSelf(fs, i);
      return;
    }
    hide SettledFrom;
    RelocateOne(fs, spb, i, from);
    var (gs, moved) := Relocate(fs, spb, i, from);
    RelocateAll(gs, spb, i, from + 1);
    var (hs, all) := RelocateFrom(gs, spb, i, from + 1);
    FillsTransitive(fs, gs, hs, i);
    assert hs[i][from] == gs[i][from];
    SettledStep(gs, hs, spb, i, from);
  }

  lemma FillsSelf(fs: seq<Table>, i: nat)
    ensures FillsBefore(fs, fs, i)
  {
  }

  lemma OneSettles(fs: seq<Table>, spb: nat, i: nat)
    requires TablesOk(fs, spb) && i < |fs|
    ensures var (gs, all) := RelocateFrom(fs, spb, i, 0);
            && FillsBefore(fs, gs, i) && TablesOk(gs, spb) && Settled(gs, spb, i, i)
            && (!all ==> Occupied(gs[i])) && (all ==> !Occupied(gs[i]))
  {
    hide NoRoom, RelocateFrom, FillsBefore;
    RelocateAll(fs, spb, i, 0);
  }

  /** What is settled against sub-filter 0 stays so when sub-filters are filled up or dropped at the end. */
  lemma StillSettled(fs: seq<Table>, gs: seq<Table>, spb: nat, i: nat, k: nat)
    requires TablesOk(fs, spb) && TablesOk(gs, spb) && FillsBefore(fs, gs, i) && 0 < i < k < |fs| && Settled(fs, spb, k, 1)
    ensures Settled(gs, spb, k, 1)
  {
    hide NoRoom;
    forall p | 0 <= p < |gs[k]| && gs[k][p] != 0
      ensures NoRoom(gs[0], spb, gs[k][p], p / spb)
    {
      assert NoRoom(fs[0], spb, fs[k][p], p / spb);
      FillsKeepNoRoom(fs, gs, spb, i, 0, fs[k][p], p / spb);
    }
  }

  ghost predicate Tail(fs: seq<Table>, spb: nat, i: nat, cont: bool)
    requires TablesOk(fs, spb)
  {
    && (i < |fs| ==> cont && Occupied(fs[|fs| - 1]))
    && forall k :: i <= k < |fs| && 1 <= k ==> Settled(fs, spb, k, 1)
  }

  lemma TailStep(fs: seq<Table>, spb: nat, i: nat, cont: bool)
    requires TablesOk(fs, spb) && 2 <= i <= |fs| && Tail(fs, spb, i, cont)
    ensures var (gs, emptied) := CompactOne(fs, spb, i - 1);
            && (emptied || cont ==> Tail(gs, spb, i - 1, cont))
            && (!emptied && !cont ==> |gs| == i && Occupied(gs[i - 1]) && Settled(gs, spb, i - 1, i - 1))
  {
    hide NoRoom, RelocateFrom, Settled, Occupied, FillsBefore;
    OneSettles(fs, spb, i - 1);
    var (gs, emptied) := RelocateFrom(fs, spb, i - 1, 0);
    SameEnd(fs, gs, i - 1);
    forall k | i <= k < |gs|
      ensures Settled(gs, spb, k, 1)
    {
      StillSettled(fs, gs, spb, i - 1, k);
    }
    FewerSettled(gs, spb, i - 1, i - 1);
  }

  lemma SameEnd(fs: seq<Table>, gs: seq<Table>, i: nat)
    requires FillsBefore(fs, gs, i)
    ensures |gs| == |fs| && (i < |fs| - 1 ==> gs[|fs| - 1] == fs[|fs| - 1])
  {
  }

  lemma FewerSettled(fs: seq<Table>, spb: nat, i: nat, m: nat)
    requires TablesOk(fs, spb) && i < |fs| && 1 <= m <= |fs| && Settled(fs, spb, i, m)
    ensures Settled(fs, spb, i, 1)
  {
    hide NoRoom;
  }

  lemma {:induction false} DownSettles(fs: seq<Table>, spb: nat, i: nat, cont: bool)
    requires TablesOk(fs, spb) && i <= |fs| && Tail(fs, spb, i, cont)
    ensures var gs := CompactDown(fs, spb, i, cont);
            && TablesOk(gs, spb)
            && (|gs| <= 1 || Occupied(gs[|gs| - 1]))
            && (|gs| > 1 && !cont ==> Settled(gs, spb, |gs| - 1, |gs| - 1))
            && (cont ==> forall k :: 1 <= k < |gs| ==> Settled(gs, spb, k, 1))
    decreases i
  {
    hide NoRoom, Settled, Occupied, CompactOne;
    if i >= 2 {
      TailStep(fs, spb, i, cont);
      var (gs, emptied) := CompactOne(fs, spb, i - 1);
      if emptied || cont {
        DownSettles(gs, spb, i - 1, cont);
      }
    }
  }

  /**
   After compacting, either one sub-filter is left or the newest one is in use. Stopping at the first
   one that cannot be emptied, nothing left in the newest has room in any earlier one. Going on to
   the end, nothing left outside sub-filter 0 has room in it.
   */
  lemma CompactSettles(s: Filter, cont: bool)
    requires TablesOk(s.filters, s.params.spb)
    ensures var t, spb := Compact(s, cont), s.params.spb;
            && TablesOk(t.filters, spb) && t == s.(filters := t.filters, numDeletes := 0)
            && (|t.filters| <= 1 || Occupied(t.filters[|t.filters| - 1]))
            && (|t.filters| > 1 && !cont ==> Settled(t.filters, spb, |t.filters| - 1, |t.filters| - 1))
            && (cont ==> forall k :: 1 <= k < |t.filters| ==> Settled(t.filters, spb, k, 1))
  {
    hide Settled, Occupied, CompactDown;
    DownSettles(s.filters, s.params.spb, |s.filters|, cont);
  }

  // ---- where an item is found, in plain arithmetic ----

  /** Slot `p` holds the fingerprint of `h`, `h % 255 + 1`, in one of the two buckets of `h`. */
  ghost predicate Hit(f: Table, spb: nat, h: nat, p: nat)
    requires TableOk(f, spb)
  {
    var n, fp := |f| / spb, h % 255 + 1;
    p < |f| && f[p] == fp && (p / spb == h % n || p / spb == Xor(h, fp * 0x5bd1_e995) % n)
  }

  lemma HitMeans(f: Table, spb: nat, h: nat, p: nat)
    requires TableOk(f, spb)
    ensures Matches(f, spb, h, p) <==> Hit(f, spb, h, p)
  {
    hide Xor;
  }

  /** A deletion clears one slot, in the newest sub-filter where the item is found; it fails where it is found nowhere. */
  lemma DeleteClears(s: Filter, h: nat)
    requires TablesOk(s.filters, s.params.spb)
    ensures var (t, ok) := Delete(s, h);
            && (!ok ==> t == s && forall i, p :: 0 <= i < |s.filters| ==> !Hit(s.filters[i], s.params.spb, h, p))
            && (ok ==> exists i, p :: Cleared(s, t, h, i, p))
  {
    hide Hit, FindCandidate;
    var fs, spb := s.filters, s.params.spb;
    var hit := FindNewest(fs, spb, h, Fp(h), |fs|);
    forall i, p | 0 <= i < |fs| && 0 <= p && FindCandidate(fs[i], spb, h, Fp(h)).None?
      ensures !Hit(fs[i], spb, h, p)
    {
      NotFound(fs[i], spb, h, p);
    }
    if hit.Some? {
      var (i, p) := hit.value;
      FoundHit(fs[i], spb, h, p);
      assert Cleared(s, Delete(s, h).0, h, i, p);
    }
  }

  ghost predicate Cleared(s: Filter, t: Filter, h: nat, i: nat, p: nat)
    requires TablesOk(s.filters, s.params.spb)
  {
    && i < |s.filters| && Hit(s.filters[i], s.params.spb, h, p)
    && (forall j, q :: i < j < |s.filters| ==> !Hit(s.filters[j], s.params.spb, h, q))
    && t == s.(filters := Set(s.filters, i, p, 0), numItems := s.numItems - 1, numDeletes := s.numDeletes + 1)
  }

  lemma NotFound(f: Table, spb: nat, h: nat, p: nat)
    requires TableOk(f, spb) && FindCandidate(f, spb, h, Fp(h)).None?
    ensures !Hit(f, spb, h, p)
  {
    hide Xor, FindSlot;
  }

  lemma FoundHit(f: Table, spb: nat, h: nat, p: nat)
    requires TableOk(f, spb) && FindCandidate(f, spb, h, Fp(h)) == Some(p)
    ensures Hit(f, spb, h, p)
  {
    hide Xor, FindSlot;
  }
}
