/**
 What a rollback that goes astray costs (src/core/cuckoo.rs): for every bucket size and every number of displacements
 below it whose 8-bit slot sum can wrap, there is a run in which a failed displacement makes a live item disappear.
 */
module CuckooLoss {
  import opened Bits
  import opened CuckooSpec
  import opened CuckooRollback
  import opened CuckooProof

  // ---- one bucket, its slots told apart ----

  /** What each slot holds and what is in hand, by where it started; the newcomer has the number of slots. */
  datatype Spin = Spin(tab: seq<nat>, hand: nat, v: nat)

  predicate SpinOk(k: Spin) { k.v < |k.tab| < 256 }

  function Ahead(k: Spin): (r: Spin)
    requires SpinOk(k)
    ensures SpinOk(r) && |r.tab| == |k.tab|
  {
    Spin(k.tab[k.v := k.hand], k.tab[k.v], (k.v + 1) % |k.tab|)
  }

  function Back(k: Spin): (r: Spin)
    requires SpinOk(k)
    ensures SpinOk(r) && |r.tab| == |k.tab|
  {
    var v := PrevSlot(k.v, |k.tab|);
    Spin(k.tab[v := k.hand], k.tab[v], v)
  }

  function AheadBy(k: Spin, i: nat): (r: Spin)
    requires SpinOk(k)
    ensures SpinOk(r) && |r.tab| == |k.tab|
  {
    if i == 0 then k else Ahead(AheadBy(k, i - 1))
  }

  function BackBy(k: Spin, i: nat): (r: Spin)
    requires SpinOk(k)
    ensures SpinOk(r) && |r.tab| == |k.tab|
  {
    if i == 0 then k else Back(BackBy(k, i - 1))
  }

  lemma {:induction false} BackAdd(k: Spin, i: nat, j: nat)
    requires SpinOk(k)
    ensures BackBy(k, i + j) == BackBy(BackBy(k, i), j)
    decreases j
  {
    hide Back, SpinOk;
    if j > 0 {
      BackAdd(k, i, j - 1);
    }
  }

  function Begin(s: nat): Spin { Spin(seq(s, i requires 0 <= i < s => i), s, 0) }

  /** Everything is somewhere, once. */
  predicate Spread(k: Spin) {
    && SpinOk(k) && k.hand <= |k.tab|
    && (forall i :: 0 <= i < |k.tab| ==> k.tab[i] <= |k.tab| && k.tab[i] != k.hand)
    && (forall i, j :: 0 <= i < j < |k.tab| ==> k.tab[i] != k.tab[j])
  }

  lemma BackSpread(k: Spin)
    requires Spread(k)
    ensures Spread(Back(k))
  {
    hide PrevSlot;
  }

  lemma SpreadOk(k: Spin)
    requires Spread(k)
    ensures SpinOk(k)
  {
  }

  lemma {:induction false} BackAllSpread(k: Spin, i: nat)
    requires Spread(k)
    ensures Spread(BackBy(k, i))
    decreases i
  {
    SpreadOk(k);
    hide Spread, Back;
    if i > 0 {
      BackAllSpread(k, i - 1);
      BackSpread(BackBy(k, i - 1));
    }
  }

  /** After `i` steps the newcomer is in slot 0 and the first `i` have each moved up one slot. */
  predicate Moved(k: Spin, s: nat, i: nat) {
    && SpinOk(k) && |k.tab| == s && k.v == i && k.hand == (if i == 0 then s else i - 1)
    && forall x :: 0 <= x < s ==> k.tab[x] == if x >= i then x else if x == 0 then s else x - 1
  }

  lemma {:induction false} AheadMoves(s: nat, i: nat)
    requires i < s < 256
    ensures SpinOk(Begin(s)) && Moved(AheadBy(Begin(s), i), s, i)
  {
    if i > 0 {
      AheadMoves(s, i - 1);
      MoveOne(AheadBy(Begin(s), i - 1), s, i - 1);
    }
  }

  lemma MoveOne(k: Spin, s: nat, i: nat)
    requires i + 1 < s && Moved(k, s, i)
    ensures Moved(Ahead(k), s, i + 1)
  {
    ModUnique(i + 1, s, 0, i + 1);
  }

  lemma MovedSpread(k: Spin, s: nat, i: nat)
    requires Moved(k, s, i) && i < s
    ensures Spread(k)
  {
  }

  // ---- the way the rollback takes through the slots ----

  lemma PrevIs(v: nat, s: nat)
    requires 129 <= s < 256 && v < s
    ensures var g := 257 - s;
            PrevSlot(v, s) == if v >= g then v - g else if v == 0 then s - 1 else v - 1
  {
    var w := v + s - 1;
    if w >= 256 {
      WrappedSlot(v, s);
    } else if v == 0 {
      ModUnique(w, s, 0, w);
    } else {
      ModUnique(w, s, 1, v - 1);
    }
  }

  /** How many steps it is from slot `v` to slot 0. */
  function Rank(v: nat, g: nat): nat
    requires g > 0
  {
    v / g + v % g
  }

  lemma RankPrev(v: nat, s: nat)
    requires 129 <= s < 256 && v < s
    ensures var g := 257 - s; v > 0 ==> Rank(v, g) == Rank(PrevSlot(v, s), g) + 1
    ensures Rank(v, 257 - s) == 0 <==> v == 0
  {
    hide PrevSlot, Rank;
    PrevIs(v, s);
    RankSteps(v, 257 - s);
  }

  lemma RankSteps(v: nat, g: nat)
    requires g > 0
    ensures v >= g ==> Rank(v, g) == Rank(v - g, g) + 1
    ensures 0 < v < g ==> Rank(v, g) == Rank(v - 1, g) + 1
    ensures Rank(v, g) == 0 <==> v == 0
  {
    if v >= g {
      ModUnique(v - g, g, v / g - 1, v % g);
    } else {
      ModUnique(v, g, 0, v);
      if v > 0 {
        ModUnique(v - 1, g, 0, v - 1);
      }
    }
  }

  /** The newcomer waits in slot 0 until the rollback comes there. */
  lemma {:induction false} Descends(k: Spin, s: nat, r: nat)
    requires 129 <= s < 256 && SpinOk(k) && |k.tab| == s && k.v > 0 && k.tab[0] == s && r == Rank(k.v, 257 - s)
    ensures BackBy(k, r).v == 0 && BackBy(k, r).hand == s
    decreases r
  {
    hide PrevSlot, Rank;
    RankPrev(k.v, s);
    var b := Back(k);
    RankPrev(b.v, s);
    assert BackBy(k, 0) == k && BackBy(k, 1) == b;
    BackAdd(k, 1, r - 1);
    if b.v > 0 {
      Descends(b, s, r - 1);
    }
  }

  /** The slots of the cycle, by their distance from slot 0: singly up to `b`, then in strides of `g`. */
  function Stop(r: nat, g: nat, b: nat): nat { if r <= b then r else b + (r - b) * g }

  predicate Cycle(s: nat, g: nat, a: nat, b: nat) { 129 <= s < 256 && g == 257 - s && s - 1 == g * a + b && b < g }

  lemma StopPrev(s: nat, g: nat, a: nat, b: nat, r: nat)
    requires Cycle(s, g, a, b) && r <= a + b
    ensures Stop(r, g, b) < s
    ensures PrevSlot(Stop(r, g, b), s) == Stop(if r == 0 then a + b else r - 1, g, b)
  {
    hide PrevSlot;
    if r > b {
      assert (r - b) * g == (r - b - 1) * g + g;
      MultipleBounds(g, a - (r - b));
      assert g * (a - (r - b)) == g * a - (r - b) * g;
      assert (r - b - 1) * g >= 0;
    }
    PrevIs(Stop(r, g, b), s);
    assert a > 0;
  }

  lemma StopsDiffer(g: nat, b: nat, q: nat, r: nat)
    requires g > 0 && q < r
    ensures Stop(q, g, b) < Stop(r, g, b)
  {
    if q > b {
      assert (r - b) * g == (q - b) * g + (r - q) * g;
      MultipleBounds(g, r - q);
    } else if r > b {
      MultipleBounds(g, r - b);
    }
  }

  /** The rollback is at stop `rv`; it has the newcomer in hand, or left it `u` steps ago at stop `rw`. */
  predicate Phase(k: Spin, s: nat, g: nat, a: nat, b: nat, u: nat, rv: nat, rw: nat) {
    && Cycle(s, g, a, b) && Spread(k) && |k.tab| == s && rv <= a + b && rw <= a + b && u <= a + b + 1
    && k.v == Stop(rv, g, b)
    && (u == 0 ==> k.hand == s)
    && (u > 0 ==> HoldsAt(k, Stop(rw, g, b), s) && rv == if rw >= u - 1 then rw - (u - 1) else rw - (u - 1) + a + b + 1)
  }

  predicate HoldsAt(k: Spin, i: nat, x: nat) { i < |k.tab| && k.tab[i] == x }

  lemma PhaseStep(k: Spin, s: nat, g: nat, a: nat, b: nat, u: nat, rv: nat, rw: nat)
    requires Phase(k, s, g, a, b, u, rv, rw)
    ensures var rv' := if rv == 0 then a + b else rv - 1;
            Phase(Back(k), s, g, a, b, if u == a + b + 1 then 0 else u + 1, rv', if u == 0 then rv' else rw)
  {
    var rv' := if rv == 0 then a + b else rv - 1;
    StopPrev(s, g, a, b, rv);
    StopPrev(s, g, a, b, rv');
    BackSpread(k);
    if rv' < rw {
      StopsDiffer(g, b, rv', rw);
    } else if rw < rv' {
      StopsDiffer(g, b, rw, rv');
    }
    hide PrevSlot, Stop, Spread, Cycle;
  }

  lemma {:induction false} PhaseRun(k: Spin, s: nat, g: nat, a: nat, b: nat, t: nat) returns (rv: nat, rw: nat)
    requires Phase(k, s, g, a, b, 0, 0, 0)
    ensures Phase(BackBy(k, t), s, g, a, b, t % (a + b + 2), rv, rw)
    decreases t
  {
    hide Back, Phase, SpinOk, PrevSlot;
    PhaseOk(k, s, g, a, b, 0, 0, 0);
    if t == 0 {
      rv, rw := 0, 0;
    } else {
      var rv0, rw0 := PhaseRun(k, s, g, a, b, t - 1);
      var u := (t - 1) % (a + b + 2);
      PhaseStep(BackBy(k, t - 1), s, g, a, b, u, rv0, rw0);
      Tock(t - 1, a + b + 2);
      rv := if rv0 == 0 then a + b else rv0 - 1;
      rw := if u == 0 then rv else rw0;
    }
  }

  lemma PhaseOk(k: Spin, s: nat, g: nat, a: nat, b: nat, u: nat, rv: nat, rw: nat)
    requires Phase(k, s, g, a, b, u, rv, rw)
    ensures SpinOk(k)
  {
  }

  lemma Tock(t: nat, n: nat)
    requires n > 1
    ensures (t + 1) % n == if t % n == n - 1 then 0 else t % n + 1
  {
    if t % n == n - 1 {
      ModUnique(t + 1, n, t / n + 1, 0);
    } else {
      ModUnique(t + 1, n, t / n, t % n + 1);
    }
  }

  // ---- 257 is prime ----

  lemma SmallDivisor(n: nat, q: nat)
    requires 1 < n <= 16
    ensures n * q != 257
  {
    if n <= 6 {
      assert n == 2 || n == 3 || n == 4 || n == 5 || n == 6;
    } else if n <= 11 {
      assert n == 7 || n == 8 || n == 9 || n == 10 || n == 11;
    } else {
      assert n == 12 || n == 13 || n == 14 || n == 15 || n == 16;
    }
  }

  lemma NoDivisor(n: nat, q: nat)
    requires 1 < n < 257
    ensures n * q != 257
  {
    if n <= 16 {
      SmallDivisor(n, q);
    } else if q <= 1 {
      assert n * q <= n;
    } else if q <= 16 {
      SmallDivisor(q, n);
      assert n * q == q * n;
    } else {
      assert n * q >= 17 * q;
    }
  }

  lemma SignOf(r: nat, m: nat, x: int)
    requires r * m == 257 * x
    ensures x >= 0
  {
  }

  /** A prime that divides a product with a smaller factor divides the other one. */
  lemma {:induction false} Euclid(n: nat, m: nat, c: nat) returns (d: nat)
    requires 0 < n < 257 && n * m == 257 * c
    ensures m == 257 * d
    decreases n
  {
    if n == 1 {
      d := c;
    } else {
      var q, r := 257 / n, 257 % n;
      NoDivisor(n, q);
      assert 257 == n * q + r;
      Reduced(n, m, c, q, r);
      SignOf(r, m, m - q * c);
      d := Euclid(r, m, m - q * c);
    }
  }

  lemma Reduced(n: nat, m: nat, c: nat, q: nat, r: nat)
    requires n * m == 257 * c && 257 == n * q + r
    ensures r * m == 257 * (m - q * c)
  {
    assert 257 * m == (n * q + r) * m == q * (n * m) + r * m;
    assert q * (n * m) == 257 * (q * c);
  }

  /** No multiple of `f` below `n` times `f` is a multiple of `n`, when `n` and a multiple of `f` add up to 257. */
  lemma NoMultiple(f: nat, e: nat, n: nat, c: nat)
    requires f * e + n == 257 && f > 0 && e > 0 && 0 < c < n
    ensures c * f % n != 0
  {
    if c * f % n == 0 {
      var k := c * f / n;
      assert c * f == n * k;
      TimesSum(f, e, n, c, k);
      assert f * e > 0;
      var d := Euclid(n, k * e + c, c);
      assert n * (257 * d) == 257 * (n * d);
      MultipleBounds(n, d);
    }
  }

  lemma TimesSum(f: nat, e: nat, n: nat, c: nat, k: nat)
    requires f * e + n == 257 && c * f == n * k
    ensures n * (k * e + c) == 257 * c
  {
    assert n * (k * e + c) == (n * k) * e + n * c;
    assert (c * f) * e == c * (f * e);
    assert c * (f * e) + c * n == c * (f * e + n);
  }

  /** The rollback does not end with the newcomer in hand. */
  lemma NotAtEnd(s: nat, g: nat, a: nat, b: nat, c: nat)
    requires Cycle(s, g, a, b) && 1 <= c <= a
    ensures Saved(c, g) % (a + b + 2) != 0
  {
    assert (g - 1) * (a + 1) == g * a + g - a - 1;
    NoMultiple(g - 1, a + 1, a + b + 2, c);
  }

  // ---- the newcomer stays in the bucket, and something else is left in hand ----

  /** The steps that `c` strides save against single steps. */
  function Saved(c: nat, g: nat): nat
    requires g > 0
  {
    c * (g - 1)
  }

  lemma RankAt(m: nat, g: nat)
    requires g > 0
    ensures m == Rank(m, g) + Saved(m / g, g)
  {
    assert m == g * (m / g) + m % g;
  }

  lemma Quotients(p: int, q: nat, x: int, y: nat, g: nat)
    requires g > 0 && q < g && y < g && g * p + q <= g * x + y
    ensures p <= x
  {
    MultipleBounds(g, p - x);
    assert g * (p - x) == g * p - g * x;
  }

  lemma DivBound(m: nat, n: nat, g: nat)
    requires g > 0 && g <= m <= n
    ensures 1 <= m / g <= n / g
  {
    Quotients(m / g, m % g, n / g, n % g, g);
    Quotients(1, 0, m / g, m % g, g);
  }

  lemma CycleOf(s: nat, m: nat)
    requires s < 256 && m < s && m + s > 256
    ensures var g := 257 - s; Cycle(s, g, (s - 1) / g, (s - 1) % g) && 1 <= m / g <= (s - 1) / g
  {
    var g := 257 - s;
    DivBound(m, s - 1, g);
    assert s - 1 == g * ((s - 1) / g) + (s - 1) % g;
  }

  /** Where the newcomer is, `Saved(c, g)` steps after it was first picked up again. */
  lemma StaysIn(k: Spin, s: nat, g: nat, a: nat, b: nat, c: nat) returns (i: nat)
    requires Cycle(s, g, a, b) && 1 <= c <= a && Spread(k) && |k.tab| == s && k.v == 0 && k.hand == s
    ensures SpinOk(k) && HoldsAt(BackBy(k, Saved(c, g)), i, s)
  {
    SpreadOk(k);
    NotAtEnd(s, g, a, b, c);
    assert Phase(k, s, g, a, b, 0, 0, 0);
    hide Cycle, Spread, Stop, Saved, SpinOk;
    var rv, rw := PhaseRun(k, s, g, a, b, Saved(c, g));
    i := Stop(rw, g, b);
  }

  lemma EndsWithOther(s: nat, m: nat)
    requires s < 256 && m < s && m + s > 256
    ensures SpinOk(Begin(s))
    ensures var k := BackBy(AheadBy(Begin(s), m), m); Spread(k) && |k.tab| == s && k.hand < s
  {
    hide Spread, BackBy, AheadBy, Rank, Saved, Cycle;
    var g := 257 - s;
    var a, b, c := (s - 1) / g, (s - 1) % g, m / g;
    CycleOf(s, m);
    RankAt(m, g);
    AheadMoves(s, m);
    var k := AheadBy(Begin(s), m);
    MovedSpread(k, s, m);
    BackAllSpread(k, m);
    Ends(k, s, g, a, b, c, m);
  }

  lemma Ends(k: Spin, s: nat, g: nat, a: nat, b: nat, c: nat, m: nat)
    requires Cycle(s, g, a, b) && 1 <= c <= a && 0 < m == Rank(m, g) + Saved(c, g)
    requires Spread(k) && |k.tab| == s && k.v == m && k.tab[0] == s
    ensures SpinOk(k) && BackBy(k, m).hand < s
  {
    SpreadOk(k);
    var r := Rank(m, g);
    assert g == 257 - s && 129 <= s < 256;
    hide Spread, BackBy, Rank, Saved, Cycle;
    Descends(k, s, r);
    BackAllSpread(k, r);
    var i := StaysIn(BackBy(k, r), s, g, a, b, c);
    BackAdd(k, r, Saved(c, g));
    BackAllSpread(k, m);
    OtherInHand(BackBy(k, m), s, i);
  }

  lemma OtherInHand(k: Spin, s: nat, i: nat)
    requires Spread(k) && |k.tab| == s && HoldsAt(k, i, s)
    ensures k.hand < s
  {
  }

  // ---- the fingerprints ----

  /** The item that is left in hand in the end has fingerprint 2, all others have 1. */
  function Mark(t: nat, x: nat): byte { if t == x then 2 else 1 }

  function Marks(tab: seq<nat>, x: nat): (f: Table)
    ensures |f| == |tab| && forall i :: 0 <= i < |tab| ==> f[i] == Mark(tab[i], x)
  {
    seq(|tab|, i requires 0 <= i < |tab| => Mark(tab[i], x))
  }

  function Shown(k: Spin, x: nat): Ko { Ko(Marks(k.tab, x), 0, Mark(k.hand, x), k.v) }

  lemma ShownOk(k: Spin, x: nat)
    requires SpinOk(k)
    ensures KoOk(Shown(k, x), |k.tab|)
  {
    OneBucket(Marks(k.tab, x), |k.tab|);
  }

  lemma ShownAhead(k: Spin, x: nat)
    requires SpinOk(k) && KoOk(Shown(k, x), |k.tab|)
    ensures KoStep(Shown(k, x), |k.tab|) == Shown(Ahead(k), x)
  {
    hide KoStep, KoOk, Mark;
    LoneStep(Shown(k, x), |k.tab|);
    assert Marks(k.tab, x)[k.v := Mark(k.hand, x)] == Marks(k.tab[k.v := k.hand], x);
  }

  lemma ShownBack(k: Spin, x: nat)
    requires SpinOk(k) && KoOk(Shown(k, x), |k.tab|)
    ensures KoUndo(Shown(k, x), |k.tab|) == Shown(Back(k), x)
  {
    hide KoUndo, KoOk, Mark, PrevSlot;
    LoneUndo(Shown(k, x), |k.tab|);
    var v := PrevSlot(k.v, |k.tab|);
    assert Marks(k.tab, x)[v := Mark(k.hand, x)] == Marks(k.tab[v := k.hand], x);
  }

  lemma {:induction false} ShownAfter(k: Spin, x: nat, i: nat)
    requires SpinOk(k)
    ensures KoOk(Shown(k, x), |k.tab|) && KoAfter(Shown(k, x), |k.tab|, i) == Shown(AheadBy(k, i), x)
  {
    hide KoStep, Ahead, Shown, KoOk, SpinOk;
    ShownOk(k, x);
    if i > 0 {
      ShownAfter(k, x, i - 1);
      var j := AheadBy(k, i - 1);
      ShownOk(j, x);
      ShownAhead(j, x);
    }
  }

  lemma {:induction false} ShownUndone(k: Spin, x: nat, i: nat)
    requires SpinOk(k)
    ensures KoOk(Shown(k, x), |k.tab|) && KoBack(Shown(k, x), |k.tab|, i) == Shown(BackBy(k, i), x)
  {
    hide KoUndo, Back, Shown, KoOk, SpinOk;
    ShownOk(k, x);
    if i > 0 {
      ShownUndone(k, x, i - 1);
      var j := BackBy(k, i - 1);
      ShownOk(j, x);
      ShownBack(j, x);
    }
  }

  /** The full bucket: fingerprint 2 in slot `x`, 1 elsewhere. */
  function Full(w: nat, x: nat): Table { Marks(Begin(w).tab, x) }

  lemma BeginShown(w: nat, x: nat)
    requires 0 < w < 256 && x < w
    ensures TableOk(Full(w, x), w) && KoStart(Full(w, x), w, 255 * w) == Shown(Begin(w), x)
  {
    OneBucket(Full(w, x), w);
    ModOne(255 * w);
    ModUnique(255 * w, 255, w, 0);
  }

  /** The rollback leaves no 2 in the bucket. */
  lemma BucketLoses(w: nat, m: nat) returns (x: nat)
    requires w < 256 && m < w && m + w > 256
    ensures x < w && TableOk(Full(w, x), w)
    ensures forall i :: 0 <= i < w ==> RolledBack(Full(w, x), w, 255 * w, m)[i] == 1
  {
    hide KoStart, KoAfter, KoBack, AheadBy, BackBy, Full, TableOk;
    EndsWithOther(w, m);
    var fwd := AheadBy(Begin(w), m);
    var k := BackBy(fwd, m);
    x := k.hand;
    BeginShown(w, x);
    ShownAfter(Begin(w), x, m);
    ShownUndone(fwd, x, m);
  }

  // ---- the run ----

  /** One bucket. */
  ghost predicate Lone(p: Params) { ParamsOk(p) && p.numBuckets == 1 }

  /** The first `n` slots of the full bucket. */
  function Part(w: nat, x: nat, n: nat): (f: Table)
    requires n <= w
    ensures |f| == w && forall i :: 0 <= i < w ==> f[i] == if i < n then Mark(i, x) else 0
  {
    seq(w, i requires 0 <= i < w => if i < n then Mark(i, x) else 0)
  }

  function Filled(p: Params, x: nat, n: nat): Filter
    requires n <= p.spb
  {
    Filter(p, [Part(p.spb, x, n)], n, 0, 0)
  }

  /** Different items: item `x` has fingerprint 2, the others have 1. */
  function Hash(i: nat, x: nat): nat { 255 * i + if i == x then 1 else 0 }

  lemma HashMark(i: nat, x: nat)
    ensures Fp(Hash(i, x)) == Mark(i, x)
  {
    ModUnique(Hash(i, x), 255, i, if i == x then 1 else 0);
  }

  lemma LoneFits(p: Params)
    requires Lone(p)
    ensures SubFilterFits(p, 0) && SubFilterSize(p, 0) == p.spb
  {
    assert Power(p.expansion, 0) == 1;
    assert 1 <= U64_MAX / p.spb by { ModUnique(U64_MAX, p.spb, U64_MAX / p.spb, U64_MAX % p.spb); }
  }

  lemma LoneNew(p: Params, x: nat)
    requires Lone(p)
    ensures New(p) == Filled(p, x, 0)
  {
    LoneFits(p);
    assert Zeros(p.spb) == Part(p.spb, x, 0);
  }

  lemma FilledOk(p: Params, x: nat, n: nat)
    requires Lone(p) && n <= p.spb
    ensures Valid(Filled(p, x, n)) && TablesOk(Filled(p, x, n).filters, p.spb)
  {
    LoneFits(p);
    assert SizeOk(p, Filled(p, x, n).filters, 0);
    OneBucket(Part(p.spb, x, n), p.spb);
  }

  lemma FirstZero(f: Table, lo: nat, n: nat)
    requires lo <= n < |f| && f[n] == 0 && forall i :: lo <= i < n ==> f[i] != 0
    ensures FindIn(f, lo, |f|, 0) == Some(n)
  {
    var r := FindIn(f, lo, |f|, 0);
    hide FindIn;
    assert r.Some? && f[r.value] == 0;
  }

  lemma NextHole(f: Table, n: nat, h: nat)
    requires n < |f| && f[n] == 0 && forall i :: 0 <= i < n ==> f[i] != 0
    ensures TableOk(f, |f|) && FindNewest([f], |f|, h, 0, 1) == Some((0, n))
  {
    OneBucket(f, |f|);
    ModOne(h);
    FirstZero(f, 0, n);
    assert FindBucket(f, |f|, 0, 0) == Some(n);
    hide FindBucket, AltIndex, Fp;
    assert FindCandidate(f, |f|, h, 0) == Some(n);
  }

  /** The next item goes to the next slot. */
  lemma FillNext(p: Params, x: nat, n: nat)
    requires n < p.spb && Valid(Filled(p, x, n)) && TablesOk(Filled(p, x, n).filters, p.spb)
    ensures Insert(Filled(p, x, n), Hash(n, x)) == (Filled(p, x, n + 1), true)
  {
    hide FindNewest, KoChain, Valid, TableOk, Hash, Fp;
    var f: Table := Part(p.spb, x, n);
    NextHole(f, n, Hash(n, x));
    HashMark(n, x);
    assert f[n := Fp(Hash(n, x))] == Part(p.spb, x, n + 1);
    var fs: seq<Table> := [f];
    assert Filled(p, x, n).filters == fs && Set(fs, 0, n, Fp(Hash(n, x))) == [Part(p.spb, x, n + 1)];
    assert Place(Filled(p, x, n), Hash(n, x)) == Some(Filled(p, x, n + 1));
  }

  /** Inserting items one after the other; the flag says that all were accepted. */
  ghost function InsertAll(s: Filter, hs: seq<nat>): (r: (Filter, bool))
    requires Valid(s) && |s.filters| > 0
    ensures Valid(r.0) && |r.0.filters| > 0
  {
    if hs == [] then (s, true)
    else
      var n := |hs| - 1;
      var (t, ok) := InsertAll(s, hs[..n]);
      InsertValid(t, hs[n]);
      (Insert(t, hs[n]).0, ok && Insert(t, hs[n]).1)
  }

  lemma InsertValid(s: Filter, h: nat)
    requires Valid(s) && |s.filters| > 0
    ensures Valid(Insert(s, h).0) && |Insert(s, h).0.filters| > 0
  {
    ValidTables(s);
    if Place(s, h).Some? {
      PlaceValid(s, h);
    } else {
      FailedValid(s, h);
      var t := Failed(s, h);
      if MayGrow(t) {
        GrowValid(t);
        ValidTables(Grow(t));
        if Place(Grow(t), h).Some? {
          PlaceValid(Grow(t), h);
        }
      }
    }
  }

  lemma PlaceValid(s: Filter, h: nat)
    requires Valid(s) && TablesOk(s.filters, s.params.spb) && |s.filters| > 0 && Place(s, h).Some?
    ensures Valid(Place(s, h).value) && |Place(s, h).value.filters| > 0
  {
    hide FindNewest, KoChain, SubFilterFits, SubFilterSize, TableOk;
    var t := Place(s, h).value;
    forall i | 0 <= i < |t.filters|
      ensures SizeOk(t.params, t.filters, i)
    {
      assert SizeOk(s.params, s.filters, i);
    }
  }

  function Hashes(x: nat, n: nat): (hs: seq<nat>)
    ensures |hs| == n && forall i :: 0 <= i < n ==> hs[i] == Hash(i, x)
  {
    seq(n, i requires 0 <= i < n => Hash(i, x))
  }

  lemma {:induction false} FillAll(p: Params, x: nat, n: nat)
    requires Lone(p) && n <= p.spb && Valid(Filled(p, x, 0))
    ensures InsertAll(Filled(p, x, 0), Hashes(x, n)) == (Filled(p, x, n), true)
  {
    hide Insert, Valid, Filled, Hash;
    if n > 0 {
      FillAll(p, x, n - 1);
      FilledOk(p, x, n - 1);
      FillNext(p, x, n - 1);
      assert Hashes(x, n)[..n - 1] == Hashes(x, n - 1);
    }
  }

  lemma FullHasNoHole(f: Table, spb: nat, h: nat)
    requires TableOk(f, spb) && NoZero(f)
    ensures FindNewest([f], spb, h, 0, 1).None?
  {
    hide FindNewest, FindCandidate, Candidate;
    var r, c := FindNewest([f], spb, h, 0, 1), FindCandidate(f, spb, h, 0);
    assert c.None?;
  }

  lemma NoPlaceLeft(s: Filter, f: Table, h: nat)
    requires TablesOk(s.filters, s.params.spb) && s.filters == [f] && NoZero(f)
    ensures Place(s, h).None?
  {
    hide FindNewest, KoChain, TableOk, Fp;
    assert TableOk(s.filters[0], s.params.spb);
    FullHasNoHole(f, s.params.spb, h);
    StartFp(f, s.params.spb, h);
    FullChainFails(KoStart(f, s.params.spb, h), s.params.spb, s.params.maxIterations);
  }

  lemma StartFp(f: Table, spb: nat, h: nat)
    requires TableOk(f, spb)
    ensures KoStart(f, spb, h).fp != 0 && KoStart(f, spb, h).table == f
  {
  }

  lemma FoundBefore(p: Params, x: nat)
    requires Lone(p) && x < p.spb && TablesOk(Filled(p, x, p.spb).filters, p.spb)
    ensures Contains(Filled(p, x, p.spb), Hash(x, x))
  {
    var f := Part(p.spb, x, p.spb);
    OneBucket(f, p.spb);
    HashMark(x, x);
    ModUnique(x, p.spb, 0, x);
    assert Candidate(Hash(x, x), 1, x / p.spb) by { ModOne(Hash(x, x)); }
    hide Hash, Candidate, Fp;
    assert Matches(f, p.spb, Hash(x, x), x);
    assert f == Filled(p, x, p.spb).filters[0];
  }

  predicate Nowhere(fs: seq<Table>, b: byte) { forall i, q :: 0 <= i < |fs| && 0 <= q < |fs[i]| ==> fs[i][q] != b }

  lemma NotFound(t: Filter, h: nat)
    requires TablesOk(t.filters, t.params.spb) && Nowhere(t.filters, Fp(h))
    ensures !Contains(t, h)
  {
    hide Fp, Candidate;
  }

  /** If the filter grows, the new item goes to the new sub-filter. */
  lemma GrownPlace(s: Filter, h: nat, b: byte)
    requires Valid(s) && TablesOk(s.filters, s.params.spb) && MayGrow(s) && Nowhere(s.filters, b) && b != 0 && b != Fp(h)
    ensures Valid(Grow(s)) && TablesOk(Grow(s).filters, s.params.spb)
    ensures var r := Place(Grow(s), h); r.Some? && Nowhere(r.value.filters, b)
  {
    GrownHasRoom(s, h);
    var g := Grow(s).filters;
    NewestHole(g, s.params.spb, h);
    hide FindNewest, FindCandidate, KoChain, Fp, SubFilterFits, SubFilterSize, Valid, TableOk;
  }

  lemma NewestHole(fs: seq<Table>, spb: nat, h: nat)
    requires TablesOk(fs, spb) && |fs| > 0 && FindCandidate(fs[|fs| - 1], spb, h, 0).Some?
    ensures var r := FindNewest(fs, spb, h, 0, |fs|); r.Some? && r.value.0 < |fs| && r.value.1 < |fs[r.value.0]|
  {
  }

  lemma LastInsert(s: Filter, h: nat, b: byte)
    requires Valid(s) && TablesOk(s.filters, s.params.spb) && |s.filters| > 0 && Place(s, h).None? && b != 0 && b != Fp(h)
    requires Nowhere(Failed(s, h).filters, b)
    ensures var (t, ok) := Insert(s, h); TablesOk(t.filters, t.params.spb) && Nowhere(t.filters, b)
  {
    InsertValid(s, h);
    ValidTables(Insert(s, h).0);
    FailedValid(s, h);
    var t := Failed(s, h);
    if MayGrow(t) {
      GrownPlace(t, h, b);
    }
    hide Place, Valid, RolledBack, Grow, MayGrow, Fp, TablesOk, Nowhere;
  }

  /**
   A false negative, for every bucket size and every number of displacements below it that `RollbackExact` excludes,
   and whatever the expansion: a new filter of one bucket is filled, every item accepted; the next insertion does
   not find a place there, and afterwards a live item is not found any more.
   */
  lemma FailedInsertLosesItem(p: Params) returns (x: nat)
    requires Lone(p) && p.maxIterations < p.spb && !RollbackFits(p)
    ensures x < p.spb && Valid(New(p)) && |New(p).filters| > 0
    ensures var (s, accepted) := InsertAll(New(p), Hashes(x, p.spb));
            var t := Insert(s, Hash(p.spb, x)).0;
            && accepted && TablesOk(s.filters, s.params.spb) && Contains(s, Hash(x, x))
            && TablesOk(t.filters, t.params.spb) && !Contains(t, Hash(x, x))
  {
    var w := p.spb;
    x := BucketLoses(w, p.maxIterations);
    LoneNew(p, x);
    FilledOk(p, x, 0);
    FilledOk(p, x, w);
    var s := Filled(p, x, w);
    assert Part(w, x, w) == Full(w, x);
    NoPlaceLeft(s, Full(w, x), Hash(w, x));
    HashMark(w, x);
    HashMark(x, x);
    assert Hash(w, x) == 255 * w;
    hide Insert, InsertAll, Contains, Valid, TablesOk, New, RolledBack, Lone, Hash, Fp, Place;
    LastInsert(s, Hash(w, x), 2);
    FillAll(p, x, w);
    FoundBefore(p, x);
    NotFound(Insert(s, Hash(w, x)).0, Hash(x, x));
  }
}
