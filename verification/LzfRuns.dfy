/**
 A long run of one byte always compresses, to a small fraction of its length: the first two bytes go out as
 literals, and every further step is one match, as long as the format allows (src/core/lzf.rs).
 */
module LzfRuns {
  import opened Bits
  import opened LzfSpec

  /** Nothing but zero bytes. */
  predicate Zero(data: Bytes) { forall i :: 0 <= i < |data| ==> data[i] == 0 }

  lemma ZeroAt(data: Bytes, i: nat)
    requires Zero(data) && i < |data|
    ensures data[i] == 0
  {
  }

  // ---- matches ----

  lemma SameZeros(data: Bytes, ref: nat, ip: nat, len: nat)
    requires Zero(data) && ref < ip && ip + len <= |data|
    ensures Same(data, ref, ip, len)
  {
  }

  lemma {:induction false} ScanZeros(data: Bytes, ref: nat, ip: nat, len: nat, limit: int)
    requires Zero(data) && ref < ip && ip + limit <= |data| && ip + len <= |data| && Same(data, ref, ip, len)
    ensures Scan(data, ref, ip, len, limit) == if len < limit then limit else len
    decreases limit - len
  {
    if len < limit {
      SameZeros(data, ref, ip, len + 1);
      ScanZeros(data, ref, ip, len + 1, limit);
    }
  }

  lemma UsableZeros(data: Bytes, ip: nat)
    requires Zero(data) && 2 <= ip && ip + 2 < |data|
    ensures SameThree(data, ip - 1, ip) && Usable(data, ip - 1, ip)
  {
  }

  /** A match takes 264 bytes, or leaves at most two. */
  lemma ZeroMatch(data: Bytes, ip: nat)
    requires Zero(data) && 2 <= ip && ip + 2 < |data| && SameThree(data, ip - 1, ip)
    ensures var len := MatchLen(data, ip - 1, ip); len == MAX_REF || ip + len + 2 >= |data|
  {
    hide Same, SameAt, Scan, Zero;
    var maxlen := Min(|data| - ip - 2, MAX_REF);
    SameZeros(data, ip - 1, ip, 3);
    if maxlen > 16 {
      ScanZeros(data, ip - 1, ip, 3, 19);
      SameZeros(data, ip - 1, ip, 19);
      ScanZeros(data, ip - 1, ip, 19, maxlen);
    } else {
      ScanZeros(data, ip - 1, ip, 3, maxlen);
    }
  }

  // ---- hashes ----

  /** `k` is where the hash of three zeros is kept. */
  predicate ZeroSlot(k: nat) { k == Idx(0) }

  lemma SlotOf(k: nat, h: nat)
    requires ZeroSlot(k) && h == 0
    ensures Idx(h) == k < HSIZE
  {
  }

  lemma FrstZero(a: byte, b: byte)
    requires a == 0 && b == 0
    ensures Frst(a, b) == 0
  {
  }

  lemma NextZero(h: nat, c: byte)
    requires h == 0 && c == 0
    ensures Next(h, c) == 0
  {
    ModUnique(256 * h, TWO32, 0, 0);
  }

  lemma Small(x: nat)
    requires x < TWO32
    ensures x % TWO32 == x
  {
    ModUnique(x, TWO32, 0, x);
  }

  lemma ReindexZeros(data: Bytes, s: State, k: nat)
    requires Zero(data) && ZeroSlot(k) && k < HSIZE && StateOk(data, s) && 2 <= s.ip && s.ip + 2 < |data| < TWO32
    ensures Reindex(data, s).hval == 0 && Reindex(data, s).htab[k] == s.ip - 1
  {
    hide Idx, Next, Frst, ZeroSlot, Zero;
    ZeroAt(data, s.ip - 2);
    ZeroAt(data, s.ip - 1);
    ZeroAt(data, s.ip);
    ZeroAt(data, s.ip + 1);
    var h0 := Frst(data[s.ip - 2], data[s.ip - 1]);
    FrstZero(data[s.ip - 2], data[s.ip - 1]);
    var h1 := Next(h0, data[s.ip]);
    NextZero(h0, data[s.ip]);
    var h2 := Next(h1, data[s.ip + 1]);
    NextZero(h1, data[s.ip + 1]);
    SlotOf(k, h1);
    SlotOf(k, h2);
    Small(s.ip - 1);
  }

  // ---- steps ----

  lemma MatchSize(toks: Bytes, lits: Bytes, len: nat)
    requires |lits| <= MAX_LIT && 1 <= len <= 262
    ensures |Flush(toks, lits) + RefToken(0, len)| <= |toks| + 3 + if lits == [] then 0 else |lits| + 1
  {
  }

  /** One match: at most six bytes more, and the table points at the byte before the next position. */
  lemma MatchAdds(data: Bytes, s: State, k: nat)
    requires Zero(data) && ZeroSlot(k) && k < HSIZE && StateOk(data, s) && 2 <= s.ip && s.ip + 2 < |data| < TWO32
    requires Usable(data, s.ip - 1, s.ip)
    ensures var s' := AddMatch(data, s, s.ip - 1);
            && s'.lits == 0 && |s'.toks| <= |s.toks| + 3 + (if s.lits == 0 then 0 else s.lits + 1)
            && (s'.ip == s.ip + MAX_REF || s'.ip + 2 >= |data|)
            && (s'.ip + 2 < |data| ==> s'.hval == 0 && s'.htab[k] == s'.ip - 1)
  {
    hide MatchLen, Idx, Reindex, Flush, RefToken, Zero, ZeroSlot, SameThree, Usable;
    UsableZeros(data, s.ip);
    ZeroMatch(data, s.ip);
    var len := MatchLen(data, s.ip - 1, s.ip);
    var lits := data[s.ip - s.lits..s.ip];
    MatchSize(s.toks, lits, len - 2);
    var s1 := s.(ip := s.ip + len, lits := 0, toks := Flush(s.toks, lits) + RefToken(0, len - 2));
    assert AddMatch(data, s, s.ip - 1) == if s1.ip + 2 >= |data| then s1 else Reindex(data, s1);
    if s1.ip + 2 < |data| {
      ReindexZeros(data, s1, k);
    }
  }

  lemma StepMatches(data: Bytes, s: State, hval: nat, ref: nat)
    requires StateOk(data, s) && s.ip + 2 < |data| && hval == Next(s.hval, data[s.ip + 2]) && ref == s.htab[Idx(hval)]
    requires Usable(data, ref, s.ip) && Op(s) + 4 <= |data|
    ensures var s1 := s.(hval := hval, htab := s.htab[Idx(hval) := s.ip % TWO32]);
            Step(data, s) == Some(AddMatch(data, s1, ref))
  {
    hide Idx, Next, AddMatch, Usable;
  }

  lemma StepLiteral(data: Bytes, s: State, hval: nat)
    requires StateOk(data, s) && s.ip + 2 < |data| && hval == Next(s.hval, data[s.ip + 2])
    requires s.htab[Idx(hval)] == 0 && Op(s) <= |data|
    ensures Step(data, s) == Some(AddLiteral(data, s.(hval := hval, htab := s.htab[Idx(hval) := s.ip % TWO32])))
  {
    hide Idx, Next, AddMatch, AddLiteral;
  }

  /** In the run: the hash slot of three zeros holds the previous position, and little was put out. */
  predicate Running(data: Bytes, s: State, k: nat) {
    && StateOk(data, s) && k < HSIZE && s.hval == 0 && 2 <= s.ip && s.htab[k] == s.ip - 1
    && s.lits <= 2 && 88 * (|s.toks| + s.lits) <= s.ip + 262 && (s.lits > 0 ==> s.ip == 2 && s.toks == [])
  }

  predicate Finished(data: Bytes, s: State) {
    StateOk(data, s) && s.ip + 2 >= |data| && s.lits == 0 && 88 * |s.toks| <= |data| + 790
  }

  lemma RunStep(data: Bytes, s: State, k: nat)
    requires Zero(data) && 1000 <= |data| < TWO32 && ZeroSlot(k) && Running(data, s, k) && s.ip + 2 < |data|
    ensures Step(data, s).Some?
    ensures var s' := Step(data, s).value; if s'.ip + 2 < |data| then Running(data, s', k) else Finished(data, s')
  {
    hide Idx, Next, AddMatch, Usable, Step, Zero, ZeroSlot, SameThree;
    UsableZeros(data, s.ip);
    var hval := Next(s.hval, data[s.ip + 2]);
    ZeroAt(data, s.ip + 2);
    NextZero(s.hval, data[s.ip + 2]);
    SlotOf(k, hval);
    StepMatches(data, s, hval, s.ip - 1);
    MatchAdds(data, s.(hval := hval, htab := s.htab[Idx(hval) := s.ip % TWO32]), k);
  }

  lemma {:induction false} LoopRuns(data: Bytes, s: State, k: nat)
    requires Zero(data) && 1000 <= |data| < TWO32 && ZeroSlot(k) && Running(data, s, k) && s.ip + 2 < |data|
    ensures Loop(data, s).Some? && Finished(data, Loop(data, s).value)
    decreases |data| - s.ip
  {
    hide Step, Zero, ZeroSlot;
    RunStep(data, s, k);
    var s' := Step(data, s).value;
    if s'.ip + 2 < |data| {
      LoopRuns(data, s', k);
    }
  }

  /** The first two zeros go out as literals. */
  lemma LiteralStep(data: Bytes, s: State, k: nat)
    requires Zero(data) && 1000 <= |data| < TWO32 && ZeroSlot(k) && k < HSIZE && StateOk(data, s)
    requires s.ip < 2 && s.lits == s.ip && s.toks == [] && s.hval == 0 && s.htab[k] == 0
    ensures Step(data, s) == Some(State(s.ip + 1, s.ip + 1, [], 0, s.htab[k := s.ip]))
  {
    hide Idx, Next, Step, Zero, ZeroSlot;
    var hval := Next(s.hval, data[s.ip + 2]);
    ZeroAt(data, s.ip + 2);
    NextZero(s.hval, data[s.ip + 2]);
    SlotOf(k, hval);
    Small(s.ip);
    StepLiteral(data, s, hval);
  }

  lemma StartRuns(data: Bytes, k: nat) returns (s: State)
    requires Zero(data) && 1000 <= |data| < TWO32 && ZeroSlot(k) && k < HSIZE
    ensures Running(data, s, k) && s.ip == 2 && Loop(data, Start(data)) == Loop(data, s)
  {
    hide Step, Zero, ZeroSlot, Frst;
    ZeroAt(data, 0);
    ZeroAt(data, 1);
    var s0 := Start(data);
    FrstZero(data[0], data[1]);
    LiteralStep(data, s0, k);
    var s1 := State(1, 1, [], 0, s0.htab[k := 0]);
    LiteralStep(data, s1, k);
    s := State(2, 2, [], 0, s1.htab[k := 1]);
  }

  lemma {:induction false} TailShort(data: Bytes, s: State)
    requires StateOk(data, s) && s.lits + (|data| - s.ip) <= 2
    ensures |Tail(data, s)| <= |s.toks| + 3
    decreases |data| - s.ip
  {
    if s.ip < |data| {
      TailShort(data, AddLiteral(data, s));
    }
  }

  /** A long run of zeros compresses about 88 to 1. */
  lemma ZerosCompress(data: Bytes)
    requires Zero(data) && 1000 <= |data| < TWO32
    ensures Compress(data).Some? && 88 * |Compress(data).value| <= |data| + 1054
  {
    var k := Idx(0);
    hide Loop, Tail, Zero, Idx;
    var s := StartRuns(data, k);
    LoopRuns(data, s, k);
    TailShort(data, Loop(data, s).value);
  }
}
