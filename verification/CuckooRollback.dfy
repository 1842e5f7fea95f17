/**
 When a failed displacement gives the table back byte for byte (src/core/cuckoo.rs): the rollback finds its
 slots with an 8-bit sum, and it is exact precisely for the parameters for which that sum never wraps.
 */
module CuckooRollback {
  import opened Bits
  import opened CuckooSpec

  // ---- one step and its undoing ----

  lemma StepFields(k: Ko, spb: nat)
    requires KoOk(k, spb)
    ensures var p := k.idx * spb + k.victim;
            && p < |k.table|
            && KoStep(k, spb) == Ko(k.table[p := k.fp], AltIndex(k.table[p], k.idx) % (|k.table| / spb), k.table[p], (k.victim + 1) % spb)
  {
    var p := KoPos(k, spb);
  }

  lemma UndoFields(k: Ko, spb: nat)
    requires KoOk(k, spb)
    ensures var p := AltIndex(k.fp, k.idx) % (|k.table| / spb) * spb + PrevSlot(k.victim, spb);
            && p < |k.table|
            && KoUndo(k, spb) == Ko(k.table[p := k.fp], AltIndex(k.fp, k.idx) % (|k.table| / spb), k.table[p], PrevSlot(k.victim, spb))
  {
    var p := KoPos(Ko(k.table, AltIndex(k.fp, k.idx) % (|k.table| / spb), k.fp, PrevSlot(k.victim, spb)), spb);
  }

  lemma AltIndexBack(fp: byte, idx: nat, n: nat)
    requires IsPow2(n) && idx < n
    ensures AltIndex(fp, AltIndex(fp, idx) % n) % n == idx
  {
    hide Xor;
    var k: nat :| n == Pow2(k);
    var m := fp * MIX;
    XorLowBits(Xor(idx, m), m, k);
    XorInvolution(idx, m);
    ModUnique(idx, n, 0, idx);
  }

  lemma PrevSlotBack(v: nat, spb: nat)
    requires 0 < spb && v < spb && (v + 1) % spb + spb <= 256
    ensures PrevSlot((v + 1) % spb, spb) == v
  {
    var w := (v + 1) % spb;
    if v + 1 == spb {
      ModUnique(v + 1, spb, 1, 0);
      ModUnique(w + spb - 1, spb, 0, v);
    } else {
      ModUnique(v + 1, spb, 0, v + 1);
      ModUnique(w + spb - 1, spb, 1, v);
    }
    SmallByte(w + spb - 1);
  }

  lemma SmallByte(x: nat)
    requires x < 256
    ensures x % 256 == x
  {
  }

  /** Undoing a displacement restores the table byte for byte. */
  lemma KoUndoStep(k: Ko, spb: nat)
    requires KoOk(k, spb) && IsPow2(Buckets(k.table, spb)) && (k.victim + 1) % spb + spb <= 256
    ensures KoUndo(KoStep(k, spb), spb) == k
  {
    hide AltIndex, PrevSlot;
    var k' := KoStep(k, spb);
    PrevSlotBack(k.victim, spb);
    AltIndexBack(k'.fp, k.idx, Buckets(k.table, spb));
    assert k'.table[KoPos(k, spb) := k'.fp] == k.table;
  }

  lemma VictimSmall(j: nat, spb: nat)
    requires spb > 0
    ensures j % spb <= j && j % spb <= spb - 1
  {
    if j < spb { ModUnique(j, spb, 0, j); }
  }

  lemma VictimStep(j: nat, spb: nat)
    requires spb > 0 && j >= 1
    ensures ((j - 1) % spb + 1) % spb == j % spb
  {
    var q, r := (j - 1) / spb, (j - 1) % spb;
    assert j == spb * q + (r + 1);
    if r + 1 < spb {
      ModUnique(j, spb, q, r + 1);
      ModUnique(r + 1, spb, 0, r + 1);
    } else {
      ModUnique(j, spb, q + 1, 0);
      ModUnique(r + 1, spb, 1, 0);
    }
  }

  lemma {:induction false} VictimAfter(k: Ko, spb: nat, i: nat)
    requires KoOk(k, spb) && k.victim == 0
    ensures KoAfter(k, spb, i).victim == i % spb
  {
    if i > 0 {
      VictimAfter(k, spb, i - 1);
      VictimStep(i, spb);
    }
  }

  // ---- parameters that fit ----

  lemma UndoAfter(k: Ko, p: Params, i: nat)
    requires 0 < p.spb < 256 && RollbackFits(p) && 0 < i <= p.maxIterations
    requires KoOk(k, p.spb) && IsPow2(Buckets(k.table, p.spb)) && k.victim == 0
    ensures KoUndo(KoAfter(k, p.spb, i), p.spb) == KoAfter(k, p.spb, i - 1)
  {
    VictimAfter(k, p.spb, i - 1);
    VictimStep(i, p.spb);
    VictimSmall(i, p.spb);
    KoUndoStep(KoAfter(k, p.spb, i - 1), p.spb);
  }

  lemma {:induction false} UndoAll(k: Ko, p: Params, i: nat)
    requires 0 < p.spb < 256 && RollbackFits(p) && i <= p.maxIterations
    requires KoOk(k, p.spb) && IsPow2(Buckets(k.table, p.spb)) && k.victim == 0
    ensures KoBack(KoAfter(k, p.spb, p.maxIterations), p.spb, i) == KoAfter(k, p.spb, p.maxIterations - i)
    decreases i
  {
    hide KoUndo, KoStep, RollbackFits, IsPow2;
    if i > 0 {
      UndoAll(k, p, i - 1);
      UndoAfter(k, p, p.maxIterations - i + 1);
    }
  }

  lemma RollbackRestores(f: Table, p: Params, h: nat)
    requires 0 < p.spb < 256 && RollbackFits(p) && TableOk(f, p.spb) && IsPow2(Buckets(f, p.spb))
    ensures RolledBack(f, p.spb, h, p.maxIterations) == f
  {
    hide KoUndo, KoStep, RollbackFits, IsPow2;
    var k := KoStart(f, p.spb, h);
    UndoAll(k, p, p.maxIterations);
  }

  /** A displacement in this table fails, and is not rolled back. */
  ghost predicate NotRestored(f: Table, spb: nat, h: nat, m: nat) {
    && TableOk(f, spb) && IsPow2(Buckets(f, spb))
    && KoChain(KoStart(f, spb, h), spb, m).None?
    && RolledBack(f, spb, h, m) != f
  }

  // ---- a table without holes ----

  predicate NoZero(f: Table) { forall i :: 0 <= i < |f| ==> f[i] != 0 }

  /** Without an empty slot every displacement fails. */
  lemma {:induction false} FullChainFails(k: Ko, spb: nat, fuel: nat)
    requires KoOk(k, spb) && NoZero(k.table) && k.fp != 0
    ensures KoChain(k, spb, fuel).None?
    decreases fuel
  {
    if fuel > 0 {
      var k' := KoStep(k, spb);
      var p := KoPos(k, spb);
      assert k'.fp == k.table[p] && k'.table == k.table[p := k.fp];
      FullChainFails(k', spb, fuel - 1);
    }
  }

  // ---- fewer displacements than slots: one bucket of distinct fingerprints ----

  /** Slots 0, 1, 2, ... hold fingerprints 1, 2, 3, ... */
  function Ramp(s: nat): (f: Table)
    requires s < 256
    ensures |f| == s && forall i :: 0 <= i < s ==> f[i] == i + 1
  {
    seq(s, i requires 0 <= i < s => i + 1)
  }

  lemma OneBucket(f: Table, s: nat)
    requires s > 0 && |f| == s
    ensures TableOk(f, s) && Buckets(f, s) == 1
  {
  }

  lemma ModOne(x: nat)
    ensures x % 1 == 0
  {
  }

  /** In a single bucket a step swaps the hand with the victim's slot. */
  lemma LoneStep(k: Ko, s: nat)
    requires s > 0 && |k.table| == s && k.idx == 0 && k.victim < s && KoOk(k, s)
    ensures KoStep(k, s) == Ko(k.table[k.victim := k.fp], 0, k.table[k.victim], (k.victim + 1) % s)
  {
    hide KoStep, AltIndex;
    StepFields(k, s);
    OneBucket(k.table, s);
    ModOne(AltIndex(k.table[k.victim], 0));
  }

  lemma LoneUndo(k: Ko, s: nat)
    requires s > 0 && |k.table| == s && KoOk(k, s)
    ensures var v := PrevSlot(k.victim, s);
            v < s && KoUndo(k, s) == Ko(k.table[v := k.fp], 0, k.table[v], v)
  {
    hide KoUndo, AltIndex;
    UndoFields(k, s);
    OneBucket(k.table, s);
    ModOne(AltIndex(k.fp, k.idx));
  }

  /** After `i` steps the first `i` fingerprints have each moved up one slot, behind the new one. */
  predicate Shifted(k: Ko, s: nat, i: nat) {
    && |k.table| == s && k.idx == 0 && k.victim == i && k.fp == (if i == 0 then 2 else i)
    && forall x :: 0 <= x < s ==> k.table[x] == if x >= i then x + 1 else if x == 0 then 2 else x
  }

  lemma ShiftedStart(s: nat)
    requires 1 < s < 256 && TableOk(Ramp(s), s)
    ensures Shifted(KoStart(Ramp(s), s, 1), s, 0)
  {
    OneBucket(Ramp(s), s);
    ModOne(1);
  }

  lemma {:induction false} RampShifts(s: nat, i: nat)
    requires 1 < s < 256 && i < s && TableOk(Ramp(s), s)
    ensures Shifted(KoAfter(KoStart(Ramp(s), s, 1), s, i), s, i)
  {
    hide KoStep, Shifted, KoOk, TableOk;
    var start := KoStart(Ramp(s), s, 1);
    if i == 0 {
      ShiftedStart(s);
    } else {
      RampShifts(s, i - 1);
      ShiftOne(KoAfter(start, s, i - 1), s, i - 1);
    }
  }

  lemma ShiftOne(k: Ko, s: nat, i: nat)
    requires 1 < s < 256 && i + 1 < s && KoOk(k, s) && Shifted(k, s, i)
    ensures Shifted(KoStep(k, s), s, i + 1)
  {
    hide KoStep, KoOk;
    LoneStep(k, s);
    ModUnique(i + 1, s, 0, i + 1);
  }

  /** The slots that do not hold what they started with. */
  ghost function Wrong(f: Table): set<int> { set x | 0 <= x < |f| && f[x] != x + 1 }

  lemma {:induction false} CountTo(w: set<int>, m: nat)
    requires forall x :: 0 <= x < m ==> x in w
    ensures |w| >= m
  {
    if m > 0 {
      CountTo(w - {m - 1}, m - 1);
    }
  }

  /** Undoing changes one slot, so it repairs at most one. */
  lemma WrongAfter(f: Table, v: nat, b: byte)
    requires v < |f|
    ensures |Wrong(f[v := b])| >= |Wrong(f)| - 1
    ensures b != v + 1 ==> |Wrong(f[v := b])| >= |Wrong(f)|
  {
    var w, w' := Wrong(f), Wrong(f[v := b]);
    assert w - {v} <= w';
    SubsetSize(w - {v}, w');
    if b != v + 1 {
      assert w <= w';
      SubsetSize(w, w');
    }
  }

  lemma SubsetSize(a: set<int>, b: set<int>)
    requires a <= b
    ensures |a| <= |b|
  {
    assert b == a + (b - a);
  }

  /** The first rollback step goes to a wrong slot and repairs nothing; the others repair at most one each. */
  lemma {:induction false} StaysWrong(s: nat, m: nat, k: Ko, i: nat)
    requires 1 < s < 256 && m < s && m + s > 256 && KoOk(k, s) && Shifted(k, s, m) && 1 <= i <= m
    ensures |Wrong(KoBack(k, s, i).table)| >= m - i + 1
    decreases i
  {
    hide KoUndo, PrevSlot;
    if i == 1 {
      FirstUndo(s, m, k);
    } else {
      StaysWrong(s, m, k, i - 1);
      var b := KoBack(k, s, i - 1);
      LoneUndo(b, s);
      WrongAfter(b.table, PrevSlot(b.victim, s), b.fp);
    }
  }

  lemma FirstUndo(s: nat, m: nat, k: Ko)
    requires 1 < s < 256 && m < s && m + s > 256 && KoOk(k, s) && Shifted(k, s, m)
    ensures |Wrong(KoBack(k, s, 1).table)| >= m
  {
    CountTo(Wrong(k.table), m);
    LoneUndo(k, s);
    WrappedSlot(m, s);
    WrongAfter(k.table, m + s - 257, k.fp);
    assert KoBack(k, s, 0) == k;
  }

  lemma WrappedSlot(v: nat, s: nat)
    requires 0 < s < 256 && v < s && v + s > 256
    ensures PrevSlot(v, s) == v + s - 257
  {
    assert (v + s - 1) % 256 == v + s - 257;
    ModUnique(v + s - 257, s, 0, v + s - 257);
  }

  lemma FewStepsFail(s: nat, m: nat)
    requires 1 < s < 256 && m < s && m + s > 256
    ensures NotRestored(Ramp(s), s, 1, m)
  {
    OneBucket(Ramp(s), s);
    var k := KoStart(Ramp(s), s, 1);
    FullChainFails(k, s, m);
    RampShifts(s, m);
    StaysWrong(s, m, KoAfter(k, s, m), m);
    assert Wrong(Ramp(s)) == {};
    assert 1 == Pow2(0);
  }

  // ---- at least as many displacements as slots: a slow traveller between two buckets ----

  /** Bucket 0 holds 2 except for `va` in slot `a`; bucket 1 holds 1 except for `vy` in slot `y`. */
  function Twin(s: nat, a: nat, va: byte, y: nat, vy: byte): (f: Table)
    requires a < s
    ensures |f| == 2 * s
    ensures forall x :: 0 <= x < 2 * s ==>
              f[x] == if x == a then va else if x < s then 2 else if x == s + y then vy else 1
  {
    seq(2 * s, x requires 0 <= x < 2 * s => if x == a then va else if x < s then 2 else if x == s + y then vy else 1)
  }

  function At(s: nat, a: nat, va: byte, y: nat, vy: byte, v: nat): Ko
    requires a < s
  {
    Ko(Twin(s, a, va, y, vy), 0, 2, v)
  }

  lemma TwoBuckets(f: Table, s: nat)
    requires s > 0 && |f| == 2 * s
    ensures TableOk(f, s) && Buckets(f, s) == 2
  {
    ModUnique(|f|, s, 2, 0);
  }

  /** Even fingerprints stay in their bucket, odd ones change it. */
  lemma Flip(fp: byte, idx: nat)
    requires fp <= 3 && idx < 2
    ensures AltIndex(fp, idx) % 2 == (idx + fp) % 2
  {
    hide Xor;
    var m := fp * MIX;
    XorHalves(idx, m);
    OddFactor(idx, fp, MIX / 2, m);
  }

  lemma OddFactor(idx: nat, fp: nat, half: nat, m: nat)
    requires m == fp * (2 * half + 1)
    ensures (idx + m) % 2 == (idx + fp) % 2
  {
    assert m == 2 * (fp * half) + fp;
    Parity(idx + fp, fp * half);
  }

  lemma Parity(x: nat, y: nat)
    ensures (x + 2 * y) % 2 == x % 2
  {
  }

  function Tick(v: nat, s: nat): nat
    requires s > 0
  {
    (v + 1) % s
  }

  lemma TwinStep(k: Ko, s: nat)
    requires s > 0 && |k.table| == 2 * s && k.idx < 2 && k.victim < s
    requires forall x :: 0 <= x < 2 * s ==> k.table[x] <= 3
    ensures KoOk(k, s)
    ensures var p := k.idx * s + k.victim;
            && p < 2 * s
            && KoStep(k, s) == Ko(k.table[p := k.fp], (k.idx + k.table[p]) % 2, k.table[p], (k.victim + 1) % s)
  {
    hide KoStep, AltIndex;
    TwoBuckets(k.table, s);
    StepFields(k, s);
    Flip(k.table[k.idx * s + k.victim], k.idx);
  }

  lemma IdleStep(s: nat, a: nat, va: byte, y: nat, vy: byte, v: nat)
    requires a < s && v < s && v != a && va <= 3 && vy <= 3
    ensures KoOk(At(s, a, va, y, vy, v), s)
    ensures KoStep(At(s, a, va, y, vy, v), s) == At(s, a, va, y, vy, (v + 1) % s)
  {
    hide KoStep, KoOk;
    var k := At(s, a, va, y, vy, v);
    TwinStep(k, s);
    assert k.table[v := 2] == k.table;
  }

  lemma AtOk(s: nat, a: nat, va: byte, y: nat, vy: byte, v: nat)
    requires a < s && v < s
    ensures KoOk(At(s, a, va, y, vy, v), s)
  {
    TwoBuckets(Twin(s, a, va, y, vy), s);
  }

  lemma {:induction false} AfterAdd(k: Ko, spb: nat, i: nat, j: nat)
    requires KoOk(k, spb)
    ensures KoAfter(k, spb, i + j) == KoAfter(KoAfter(k, spb, i), spb, j)
    decreases j
  {
    hide KoStep, KoOk;
    if j > 0 {
      AfterAdd(k, spb, i, j - 1);
    }
  }

  lemma ModAdd(u: nat, c: nat, s: nat)
    requires s > 0
    ensures (u % s + c) % s == (u + c) % s
  {
    var q := (u % s + c) / s;
    assert u + c == s * (u / s) + s * q + (u % s + c) % s;
    assert s * (u / s) + s * q == s * (u / s + q);
    ModUnique(u + c, s, u / s + q, (u % s + c) % s);
  }

  lemma SameMod(u: nat, w: nat, s: nat)
    requires s > 0
    ensures (u + w) % s == u % s <==> w % s == 0
  {
    if w % s == 0 {
      ModAdd(w, u, s);
    }
    if (u + w) % s == u % s {
      assert w == s * ((u + w) / s) - s * (u / s);
      assert s * ((u + w) / s) - s * (u / s) == s * ((u + w) / s - u / s);
      ModUnique(w, s, (u + w) / s - u / s, 0);
    }
  }

  lemma NotYet(a: nat, i: nat, s: nat)
    requires a < s && i + 1 < s
    ensures (a + 1 + i) % s != a
  {
    SameMod(a, 1 + i, s);
    ModUnique(a, s, 0, a);
    ModUnique(1 + i, s, 0, 1 + i);
  }

  /** Until the clock comes to the traveller's slot nothing changes. */
  lemma {:induction false} Idles(s: nat, a: nat, va: byte, y: nat, vy: byte, i: nat, n: nat)
    requires a < s && va <= 3 && vy <= 3 && i + n < s
    ensures KoOk(At(s, a, va, y, vy, (a + 1 + i) % s), s)
    ensures KoAfter(At(s, a, va, y, vy, (a + 1 + i) % s), s, n) == At(s, a, va, y, vy, (a + 1 + i + n) % s)
    decreases n
  {
    hide KoStep, KoOk, At;
    AtOk(s, a, va, y, vy, (a + 1 + i) % s);
    if n > 0 {
      Idles(s, a, va, y, vy, i, n - 1);
      NotYet(a, i + (n - 1), s);
      var j := a + 1 + i + (n - 1);
      IdleStep(s, a, va, y, vy, j % s);
      ModAdd(j, 1, s);
    }
  }

  /** The traveller leaves for bucket 1. */
  lemma Leave(s: nat, a: nat, va: byte, y: nat, vy: byte)
    requires a < s && (va == 1 || va == 3) && vy <= 3
    ensures KoOk(At(s, a, va, y, vy, a), s)
    ensures KoStep(At(s, a, va, y, vy, a), s) == Ko(Twin(s, a, 2, y, vy), 1, va, Tick(a, s))
  {
    hide KoStep, KoOk;
    var k := At(s, a, va, y, vy, a);
    TwinStep(k, s);
    assert k.table[a := 2] == Twin(s, a, 2, y, vy);
  }

  /** It takes a slot there, and what it finds comes back. */
  lemma Arrive(s: nat, a: nat, va: byte, y: nat, vy: byte, b: nat)
    requires a < s && b < s && va <= 3 && (vy == 1 || vy == 3)
    ensures var away := Twin(s, a, 2, y, vy);
            && KoOk(Ko(away, 1, va, b), s)
            && KoStep(Ko(away, 1, va, b), s) == Ko(away[s + b := va], 0, if b == y then vy else 1, Tick(b, s))
  {
    hide KoStep, KoOk;
    TwinStep(Ko(Twin(s, a, 2, y, vy), 1, va, b), s);
  }

  lemma Return(s: nat, a: nat, va: byte, y: nat, vy: byte, b: nat, out: byte, c: nat)
    requires a < s && b < s && c < s && va <= 3 && vy <= 3
    ensures var there: Table := Twin(s, a, 2, y, vy)[s + b := va];
            && KoOk(Ko(there, 0, out, c), s)
            && KoStep(Ko(there, 0, out, c), s) == Ko(there[c := out], 0, 2, Tick(c, s))
  {
    hide KoStep, KoOk;
    TwinStep(Ko(Twin(s, a, 2, y, vy)[s + b := va], 0, out, c), s);
  }

  lemma ThreeSteps(k: Ko, spb: nat)
    requires KoOk(k, spb)
    ensures KoAfter(k, spb, 1) == KoStep(k, spb)
    ensures KoAfter(k, spb, 2) == KoStep(KoAfter(k, spb, 1), spb)
    ensures KoAfter(k, spb, 3) == KoStep(KoAfter(k, spb, 2), spb)
  {
    assert KoAfter(k, spb, 0) == k;
  }

  /** The traveller goes to bucket 1, and what it finds there comes back to bucket 0, two slots on. */
  lemma Trip(s: nat, a: nat, va: byte, y: nat, vy: byte, b: nat, c: nat)
    requires a < s && b < s && c < s && (va == 1 || va == 3) && (vy == 1 || vy == 3)
    requires b == Tick(a, s) && c == Tick(b, s)
    ensures KoOk(At(s, a, va, y, vy, a), s)
    ensures var k, away := At(s, a, va, y, vy, a), Twin(s, a, 2, y, vy);
            var out: byte := if b == y then vy else 1;
            var there: Table := away[s + b := va];
            && KoAfter(k, s, 1) == Ko(away, 1, va, b)
            && KoAfter(k, s, 2) == Ko(there, 0, out, c)
            && KoAfter(k, s, 3) == Ko(there[c := out], 0, 2, Tick(c, s))
  {
    hide KoStep, KoOk, KoAfter, At, Twin, Tick;
    Leave(s, a, va, y, vy);
    ThreeSteps(At(s, a, va, y, vy, a), s);
    Arrive(s, a, va, y, vy, b);
    Return(s, a, va, y, vy, b, if b == y then vy else 1, c);
  }

  lemma TickTwice(v: nat, s: nat)
    requires s > 0
    ensures Tick(Tick(v, s), s) == (v + 2) % s && Tick(Tick(Tick(v, s), s), s) == (v + 3) % s
  {
    ModAdd(v + 1, 1, s);
    ModAdd(v + 2, 1, s);
  }

  /**
   The table after `q` round trips of fingerprint 3, and `e` trips of a 1 since it was last left in bucket 1;
   for `e == 0` it is in bucket 0.
   */
  function Slot(s: nat, q: nat, e: nat): (a: nat)
    requires s > 2
    ensures a < s
  {
    (s - 2 + 2 * q + 2 * e) % s
  }

  function Stage(s: nat, q: nat, e: nat, v: nat): Ko
    requires s > 2
  {
    At(s, Slot(s, q, e), if e == 0 then 3 else 1, (s - 1 + 2 * q) % s, if e == 0 then 1 else 3, v)
  }

  function Next(s: nat, q: nat, e: nat): (nat, nat)
    requires s > 2
  {
    if e > 0 && 2 * e % s == 0 then (q + 1, 0) else (q, e + 1)
  }

  /** Where the slots of a stage lie relative to each other. */
  lemma SlotsMeet(s: nat, q: nat, e: nat)
    requires s > 2
    ensures var a, n := Slot(s, q, e), Next(s, q, e);
            && (Tick(a, s) == (s - 1 + 2 * q) % s <==> 2 * e % s == 0) && (e == 0 ==> 2 * e % s == 0)
            && Slot(s, n.0, n.1) == (a + 2) % s
            && (Slot(s, n.0, n.1) + 1) % s == (a + 3) % s
  {
    var u := s - 2 + 2 * q + 2 * e;
    ModAdd(u, 1, s);
    SameMod(s - 1 + 2 * q, 2 * e, s);
    ModAdd(u, 2, s);
    SameMod(s - 2 + 2 * q + 2, 2 * e, s);
    ModAdd(u, 3, s);
    ModAdd(u + 2, 1, s);
  }

  predicate Quiet(k: Ko, s: nat) {
    2 <= s && |k.table| == 2 * s && k.table[s - 2] != 3
  }

  /** The table a trip leaves, when a 3 sets out, when a 1 meets the 3, and when it does not. */
  lemma TripTable(s: nat, a: nat, va: byte, y: nat, vy: byte, b: nat, c: nat, y': nat)
    requires 3 < s && a < s && b < s && c < s && (va, vy) in {(3, 1), (1, 3)}
    ensures var away := Twin(s, a, 2, y, vy);
            var there: Table := away[s + b := va];
            && away[s - 2] != 3 && there[s - 2] != 3
            && (b == y && va == 3 ==> there[c := vy] == Twin(s, c, 1, y, 3))
            && (b == y && va == 1 ==> there[c := vy] == Twin(s, c, 3, y', 1))
            && (b != y && va == 1 ==> there[c := 1] == Twin(s, c, 1, y, 3))
  {
  }

  /** A trip as a step from one such table to the next. */
  lemma TripEnd(s: nat, a: nat, va: byte, y: nat, vy: byte, b: nat, c: nat, y': nat)
    requires 3 < s && a < s && b < s && c < s && (va, vy) in {(3, 1), (1, 3)} && (va == 3 ==> b == y)
    requires b == Tick(a, s) && c == Tick(b, s)
    ensures var k := At(s, a, va, y, vy, a);
            && KoOk(k, s) && Quiet(KoAfter(k, s, 1), s) && Quiet(KoAfter(k, s, 2), s)
            && KoAfter(k, s, 3) == if b == y && va == 1 then At(s, c, 3, y', 1, Tick(c, s)) else At(s, c, 1, y, 3, Tick(c, s))
  {
    hide KoStep, KoOk, KoAfter, Tick;
    Trip(s, a, va, y, vy, b, c);
    TripTable(s, a, va, y, vy, b, c, y');
    hide Twin;
  }

  lemma StageTrip(s: nat, q: nat, e: nat)
    requires 3 < s
    ensures var k, n := Stage(s, q, e, Slot(s, q, e)), Next(s, q, e);
            && KoOk(k, s)
            && Quiet(KoAfter(k, s, 1), s) && Quiet(KoAfter(k, s, 2), s)
            && KoAfter(k, s, 3) == Stage(s, n.0, n.1, (Slot(s, n.0, n.1) + 1) % s)
  {
    hide KoStep, KoOk, KoAfter, Slot, Twin, Quiet, At;
    var a, y, y', n := Slot(s, q, e), (s - 1 + 2 * q) % s, (s - 1 + 2 * (q + 1)) % s, Next(s, q, e);
    SlotsMeet(s, q, e);
    TickTwice(a, s);
    TripEnd(s, a, if e == 0 then 3 else 1, y, if e == 0 then 1 else 3, Tick(a, s), (a + 2) % s, y');
  }

  lemma StageIdles(s: nat, q: nat, e: nat, i: nat, n: nat)
    requires 3 < s && i + n < s
    ensures var a := Slot(s, q, e);
            && KoOk(Stage(s, q, e, (a + 1 + i) % s), s)
            && KoAfter(Stage(s, q, e, (a + 1 + i) % s), s, n) == Stage(s, q, e, (a + 1 + i + n) % s)
  {
    hide KoStep, KoOk, KoAfter, At;
    Idles(s, Slot(s, q, e), if e == 0 then 3 else 1, (s - 1 + 2 * q) % s, if e == 0 then 1 else 3, i, n);
  }

  lemma ClockBack(s: nat, a: nat)
    requires a < s
    ensures (a + s) % s == a
  {
    ModUnique(a + s, s, 1, a);
  }

  /** From just behind the traveller's slot all the way round and through the trip. */
  lemma Round(s: nat, q: nat, e: nat, j: nat)
    requires 3 < s && j <= s + 2
    requires Quiet(Stage(s, q, e, 0), s) && Quiet(Stage(s, Next(s, q, e).0, Next(s, q, e).1, 0), s)
    ensures var k, n := Stage(s, q, e, (Slot(s, q, e) + 1) % s), Next(s, q, e);
            && KoOk(k, s) && Quiet(KoAfter(k, s, j), s)
            && (j == s + 2 ==> KoAfter(k, s, j) == Stage(s, n.0, n.1, (Slot(s, n.0, n.1) + 1) % s))
  {
    hide KoStep, KoOk, KoAfter, Slot, Next, Twin;
    var a := Slot(s, q, e);
    if j < s {
      StageIdles(s, q, e, 0, j);
    } else {
      StageIdles(s, q, e, 0, s - 1);
      ClockBack(s, a);
      StageTrip(s, q, e);
      AfterAdd(Stage(s, q, e, (a + 1) % s), s, s - 1, j - (s - 1));
    }
  }

  /** The first round starts at slot 0 and is one step shorter. */
  lemma FirstRound(s: nat, m: nat)
    requires 3 < s && s - 1 <= m <= s + 1
    ensures KoOk(Stage(s, 0, 0, 0), s) && Quiet(KoAfter(Stage(s, 0, 0, 0), s, m), s)
    ensures m == s + 1 ==> KoAfter(Stage(s, 0, 0, 0), s, m) == Stage(s, 0, 1, (Slot(s, 0, 1) + 1) % s)
  {
    hide KoStep, KoOk, KoAfter, Twin;
    assert Slot(s, 0, 0) == s - 2 by { ModUnique(s - 2, s, 0, s - 2); }
    ClockBack(s, 0);
    ClockBack(s, s - 2);
    StageIdles(s, 0, 0, 1, s - 2);
    StageTrip(s, 0, 0);
    AfterAdd(Stage(s, 0, 0, 0), s, s - 2, m - (s - 2));
  }

  /** A 1 meets the 3 in bucket 1 only after at least half as many trips as there are slots. */
  lemma TripsBound(s: nat, q: nat, e: nat, r: nat)
    requires 129 <= s && (q, e) != (0, 0) && 65 * q + e <= r
    ensures var n := Next(s, q, e); n != (0, 0) && 65 * n.0 + n.1 <= r + 1
  {
    if e > 0 && 2 * e % s == 0 && 2 * e < s {
      ModUnique(2 * e, s, 0, 2 * e);
    }
  }

  /** In fewer than 512 rounds the 3 does not come back to where it started. */
  lemma StageQuiet(s: nat, q: nat, e: nat, r: nat)
    requires 129 <= s && (q, e) != (0, 0) && 65 * q + e <= r < 512
    ensures Quiet(Stage(s, q, e, 0), s)
  {
    if e == 0 {
      ModUnique(s - 2 + 2 * q, s, 1, 2 * q - 2);
    }
  }

  lemma OneMoreRound(s: nat, t: nat, q: nat, e: nat)
    requires 3 < s && KoOk(Stage(s, 0, 0, 0), s)
    requires KoAfter(Stage(s, 0, 0, 0), s, t) == Stage(s, q, e, (Slot(s, q, e) + 1) % s)
    requires Quiet(Stage(s, q, e, 0), s) && Quiet(Stage(s, Next(s, q, e).0, Next(s, q, e).1, 0), s)
    ensures var n := Next(s, q, e);
            KoAfter(Stage(s, 0, 0, 0), s, t + s + 2) == Stage(s, n.0, n.1, (Slot(s, n.0, n.1) + 1) % s)
    ensures forall m :: t < m <= t + s + 2 ==> Quiet(KoAfter(Stage(s, 0, 0, 0), s, m), s)
  {
    hide *;
    var start := Stage(s, 0, 0, 0);
    forall m | t < m <= t + s + 2
      ensures Quiet(KoAfter(start, s, m), s)
    {
      Round(s, q, e, m - t);
      AfterAdd(start, s, t, m - t);
    }
    Round(s, q, e, s + 2);
    AfterAdd(start, s, t, s + 2);
  }

  lemma {:induction false} Rounds(s: nat, r: nat) returns (q: nat, e: nat)
    requires 129 <= s && 1 <= r < 511
    ensures KoOk(Stage(s, 0, 0, 0), s) && (q, e) != (0, 0) && 65 * q + e <= r
    ensures KoAfter(Stage(s, 0, 0, 0), s, r * (s + 2) - 1) == Stage(s, q, e, (Slot(s, q, e) + 1) % s)
    ensures forall m :: s - 1 <= m < r * (s + 2) ==> Quiet(KoAfter(Stage(s, 0, 0, 0), s, m), s)
    decreases r
  {
    hide *;
    if r == 1 {
      FirstRound(s, s + 1);
      forall m | s - 1 <= m < s + 2
        ensures Quiet(KoAfter(Stage(s, 0, 0, 0), s, m), s)
      {
        FirstRound(s, m);
      }
      q, e := 0, 1;
    } else {
      var q0, e0 := Rounds(s, r - 1);
      var t := (r - 1) * (s + 2) - 1;
      assert t + s + 2 == r * (s + 2) - 1;
      TripsBound(s, q0, e0, r - 1);
      StageQuiet(s, q0, e0, r - 1);
      var n := Next(s, q0, e0);
      q, e := n.0, n.1;
      StageQuiet(s, q, e, r);
      OneMoreRound(s, t, q0, e0);
    }
  }

  /** The rollback never looks at the last slot but one. */
  lemma {:induction false} SlotUntouched(k: Ko, s: nat, i: nat)
    requires 129 <= s < 256 && |k.table| == 2 * s && KoOk(k, s)
    ensures KoBack(k, s, i).table[s - 2] == k.table[s - 2]
    decreases i
  {
    hide KoUndo, KoOk, PrevSlot, AltIndex;
    if i > 0 {
      SlotUntouched(k, s, i - 1);
      var b := KoBack(k, s, i - 1);
      UndoFields(b, s);
      assert b.victim < s by { VictimOk(b, s); }
      PrevNotThere(b.victim, s);
      var n := AltIndex(b.fp, b.idx) % (|b.table| / s);
      assert n == 0 || n * s >= s;
    }
  }

  lemma VictimOk(k: Ko, s: nat)
    requires KoOk(k, s)
    ensures k.victim < s
  {
  }

  lemma PrevNotThere(v: nat, s: nat)
    requires 129 <= s < 256 && v < s
    ensures PrevSlot(v, s) != s - 2
  {
    var w := v + s - 1;
    if w >= 256 {
      WrappedSlot(v, s);
    } else if v == 0 {
      ModUnique(w, s, 0, w);
    } else {
      ModUnique(w, s, 1, v - 1);
    }
  }

  lemma ManyStepsFail(s: nat, m: nat)
    requires 129 <= s < 256 && s - 1 <= m < 65536
    ensures NotRestored(Stage(s, 0, 0, 0).table, s, 256, m)
  {
    hide KoStep, KoAfter, KoBack;
    var start := Stage(s, 0, 0, 0);
    var f := start.table;
    assert Slot(s, 0, 0) == s - 2 by { ModUnique(s - 2, s, 0, s - 2); }
    TwoBuckets(f, s);
    assert KoStart(f, s, 256) == start;
    FullChainFails(start, s, m);
    var r := m / (s + 2) + 1;
    RoundsEnough(s, m, r);
    var q, e := Rounds(s, r);
    SlotUntouched(KoAfter(start, s, m), s, m);
    assert 2 == Pow2(1);
  }

  lemma RoundsEnough(s: nat, m: nat, r: nat)
    requires 129 <= s && m < 65536 && r == m / (s + 2) + 1
    ensures 1 <= r < 511 && m < r * (s + 2)
  {
    assert m == (s + 2) * (m / (s + 2)) + m % (s + 2);
    assert (s + 2) * (r - 1) >= 131 * (r - 1);
  }

  // ---- the exact condition ----

  /**
   A failed displacement gives every table back byte for byte, whatever the item, if and only if the
   8-bit slot sum of the rollback cannot wrap.
   */
  lemma RollbackExact(p: Params)
    requires 0 < p.spb < 256 && p.maxIterations < 65536
    ensures RollbackFits(p) <==>
            forall f: Table, h: nat ::
              TableOk(f, p.spb) && IsPow2(Buckets(f, p.spb)) && KoChain(KoStart(f, p.spb, h), p.spb, p.maxIterations).None?
              ==> RolledBack(f, p.spb, h, p.maxIterations) == f
  {
    hide RolledBack, KoChain, IsPow2, TableOk;
    if RollbackFits(p) {
      forall f: Table, h: nat | TableOk(f, p.spb) && IsPow2(Buckets(f, p.spb))
        ensures RolledBack(f, p.spb, h, p.maxIterations) == f
      {
        RollbackRestores(f, p, h);
      }
    } else if p.maxIterations < p.spb {
      FewStepsFail(p.spb, p.maxIterations);
    } else {
      ManyStepsFail(p.spb, p.maxIterations);
    }
  }
}
