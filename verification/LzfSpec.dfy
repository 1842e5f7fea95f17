/**
 LZF compression (src/core/lzf.rs): what a stream means, what the compressor emits as a list of
 finished tokens, and the proof that the meaning of its output is its input.
 */
module LzfSpec {
  import opened Bits

  const HSIZE: nat := 65536
  const MAX_LIT: nat := 32
  const MAX_OFF: nat := 8192
  const MAX_REF: nat := 264

  // ---- meaning of a stream ----

  /** `n` more bytes, each copied from `d` positions back; the copy may overlap itself. */
  function Repeat(out: Bytes, d: nat, n: nat): (r: Bytes)
    requires 1 <= d <= |out|
    ensures |r| == |out| + n && out <= r
    decreases n
  {
    if n == 0 then out else Repeat(out + [out[|out| - d]], d, n - 1)
  }

  function BackReference(size: nat, out: Bytes, d: nat, n: nat): Option<(nat, Bytes)> {
    if 1 <= d <= |out| then Some((size, Repeat(out, d, n))) else None
  }

  function Distance(ctrl: nat, low: nat): nat { ctrl % 32 * 256 + low + 1 }

  function Plus(a: nat, b: nat): nat { a + b }

  /** The first token of a non-empty stream: its size, and the output it leads to. */
  function First(c: Bytes, out: Bytes): (r: Option<(nat, Bytes)>)
    requires c != []
    ensures r.Some? ==> 1 <= r.value.0 <= |c| && |r.value.1| >= |out|
  {
    if c[0] < 32 then
      if |c| < c[0] + 2 then None else Some((c[0] + 2, out + c[1..c[0] + 2]))
    else if c[0] / 32 < 7 then
      if |c| < 2 then None else BackReference(2, out, Distance(c[0], c[1]), c[0] / 32 + 2)
    else
      if |c| < 3 then None else BackReference(3, out, Distance(c[0], c[2]), Plus(c[1], 9))
  }

  /** Append what stream `c` says to `out`; None when the stream is malformed. */
  function Inflate(c: Bytes, out: Bytes): (r: Option<Bytes>)
    ensures r.Some? ==> |r.value| >= |out|
    decreases |c|
  {
    if c == [] then Some(out) else
    var t := First(c, out);
    if t.None? then None else Inflate(c[t.value.0..], t.value.1)
  }

  /** Decompression into a buffer of exactly `expected` bytes; a shorter output is padded with zeros. */
  function Decompress(c: Bytes, expected: nat): Option<Bytes> {
    var r := Inflate(c, []);
    if r.Some? && |r.value| <= expected then Some(r.value + Zeros(expected - |r.value|)) else None
  }

  // ---- the compressor ----

  /** Finished tokens, a pending run of the last `lits` bytes before `ip`, and the hash state. */
  datatype State = State(ip: nat, lits: nat, toks: Bytes, hval: nat, htab: seq<nat>)

  function Frst(a: byte, b: byte): nat { 256 * a + b }

  function Next(hval: nat, c: byte): nat { (256 * hval) % TWO32 + c }

  function Idx(h: nat): (i: nat)
    ensures i < HSIZE
  {
    ((h / 256 - 5 * h) % TWO32) % HSIZE
  }

  /** Close the pending literal run. */
  function Flush(toks: Bytes, lits: Bytes): Bytes
    requires |lits| <= MAX_LIT
  {
    if lits == [] then toks else toks + [|lits| - 1] + lits
  }

  /** A back reference `off + 1` bytes back, `len + 2` bytes long. */
  function RefToken(off: nat, len: nat): (t: Bytes)
    requires off < MAX_OFF && 1 <= len <= 262
  {
    if len < 7 then [off / 256 + len * 32, off % 256]
    else [off / 256 + 7 * 32, len - 7, off % 256]
  }

  predicate SameAt(data: Bytes, a: nat, b: nat, k: nat)
    requires a + k < |data| && b + k < |data|
  {
    data[a + k] == data[b + k]
  }

  /** The `n` bytes at `a` and at the later position `b` agree. */
  predicate Same(data: Bytes, a: nat, b: nat, n: nat)
    requires a <= b && b + n <= |data|
  {
    forall k :: 0 <= k < n ==> SameAt(data, a, b, k)
  }

  /** First length from `len` on that reaches `limit` or where the two positions differ. */
  function Scan(data: Bytes, ref: nat, ip: nat, len: nat, limit: int): (r: nat)
    requires ref < ip && ip + limit <= |data| && ip + len <= |data| && Same(data, ref, ip, len)
    ensures len <= r && (r <= limit || r == len) && ip + r <= |data| && Same(data, ref, ip, r)
    decreases limit - len
  {
    if len >= limit || data[ref + len] != data[ip + len] then len else
    assert SameAt(data, ref, ip, len);
    Scan(data, ref, ip, len + 1, limit)
  }

  predicate SameThree(data: Bytes, ref: nat, ip: nat)
    requires ref < ip && ip + 2 < |data|
  {
    data[ref] == data[ip] && data[ref + 1] == data[ip + 1] && data[ref + 2] == data[ip + 2]
  }

  /** Length of the match; the first sixteen comparisons ignore the limit, as the buffer allows. */
  function MatchLen(data: Bytes, ref: nat, ip: nat): (len: nat)
    requires ref < ip && ip + 2 < |data| && SameThree(data, ref, ip)
    ensures 3 <= len <= MAX_REF && ip + len <= |data| && Same(data, ref, ip, len)
  {
    var maxlen := Min(|data| - ip - 2, MAX_REF);
    assert SameAt(data, ref, ip, 0) && SameAt(data, ref, ip, 1) && SameAt(data, ref, ip, 2);
    if maxlen > 16 then
      var l := Scan(data, ref, ip, 3, 19);
      if l < 19 then l else Scan(data, ref, ip, 19, maxlen)
    else Scan(data, ref, ip, 3, maxlen)
  }

  predicate Usable(data: Bytes, ref: nat, ip: nat)
    requires ip + 2 < |data|
  {
    ref != 0 && ip > ref && ip - ref - 1 < MAX_OFF && SameThree(data, ref, ip)
  }

  predicate StateOk(data: Bytes, s: State) {
    s.ip <= |data| && s.lits <= s.ip && s.lits < MAX_LIT && |s.htab| == HSIZE
  }

  /** The output cursor: tokens, the reserved count byte, and the pending literals. */
  function Op(s: State): nat { |s.toks| + 1 + s.lits }

  /** Index the two positions before `ip` after a match. */
  function Reindex(data: Bytes, s: State): (s': State)
    requires StateOk(data, s) && 2 <= s.ip && s.ip + 2 < |data|
    ensures StateOk(data, s') && s'.ip == s.ip && s'.lits == s.lits && s'.toks == s.toks
  {
    var h1 := Next(Frst(data[s.ip - 2], data[s.ip - 1]), data[s.ip]);
    var t1 := s.htab[Idx(h1) := (s.ip - 2) % TWO32];
    var h2 := Next(h1, data[s.ip + 1]);
    s.(hval := h2, htab := t1[Idx(h2) := (s.ip - 1) % TWO32])
  }

  function AddLiteral(data: Bytes, s: State): (s': State)
    requires StateOk(data, s) && s.ip < |data|
    ensures StateOk(data, s') && s'.ip == s.ip + 1
  {
    if s.lits + 1 == MAX_LIT then
      s.(ip := s.ip + 1, lits := 0, toks := Flush(s.toks, data[s.ip - s.lits..s.ip + 1]))
    else s.(ip := s.ip + 1, lits := s.lits + 1)
  }

  function AddMatch(data: Bytes, s: State, ref: nat): (s': State)
    requires StateOk(data, s) && s.ip + 2 < |data| && Usable(data, ref, s.ip)
    ensures StateOk(data, s') && s.ip < s'.ip
  {
    var len := MatchLen(data, ref, s.ip);
    var toks := Flush(s.toks, data[s.ip - s.lits..s.ip]) + RefToken(s.ip - ref - 1, len - 2);
    var s1 := s.(ip := s.ip + len, lits := 0, toks := toks);
    if s1.ip + 2 >= |data| then s1 else Reindex(data, s1)
  }

  /** One iteration of the main loop; None when the output buffer is too small. */
  function Step(data: Bytes, s: State): (r: Option<State>)
    requires StateOk(data, s) && s.ip + 2 < |data|
    ensures r.Some? ==> StateOk(data, r.value) && s.ip < r.value.ip
  {
    var hval := Next(s.hval, data[s.ip + 2]);
    var slot := Idx(hval);
    var ref := s.htab[slot];
    var s1 := s.(hval := hval, htab := s.htab[slot := s.ip % TWO32]);
    if Usable(data, ref, s.ip) then
      if Op(s) + 4 >= |data| + 1 && Op(s) - (if s.lits == 0 then 1 else 0) + 4 >= |data| + 1 then None
      else Some(AddMatch(data, s1, ref))
    else if Op(s) >= |data| + 1 then None
    else Some(AddLiteral(data, s1))
  }

  function Loop(data: Bytes, s: State): (r: Option<State>)
    requires StateOk(data, s)
    ensures r.Some? ==> StateOk(data, r.value)
    decreases |data| - s.ip
  {
    if s.ip + 2 >= |data| then Some(s) else
    var r := Step(data, s);
    if r.None? then None else Loop(data, r.value)
  }

  function Tail(data: Bytes, s: State): (r: Bytes)
    requires StateOk(data, s)
    decreases |data| - s.ip
  {
    if s.ip == |data| then Flush(s.toks, data[s.ip - s.lits..s.ip]) else Tail(data, AddLiteral(data, s))
  }

  function Start(data: Bytes): (s: State)
    ensures StateOk(data, s)
  {
    State(0, 0, [], if |data| >= 2 then Frst(data[0], data[1]) else 0, seq(HSIZE, i => 0))
  }

  function Compress(data: Bytes): Option<Bytes> {
    if data == [] then None else
    var r := Loop(data, Start(data));
    if r.None? || Op(r.value) + 3 > |data| + 1 then None else Some(Tail(data, r.value))
  }

  // ---- the output means the input ----

  lemma FirstConcat(a: Bytes, b: Bytes, out: Bytes)
    requires a != [] && First(a, out).Some?
    ensures First(a + b, out) == First(a, out)
  {
    if a[0] < 32 {
      assert (a + b)[1..a[0] + 2] == a[1..a[0] + 2];
    }
  }

  /** A stream that decodes completely is a prefix that can be skipped. */
  lemma {:induction false} InflateConcat(a: Bytes, b: Bytes, out: Bytes)
    requires Inflate(a, out).Some?
    ensures Inflate(a + b, out) == Inflate(b, Inflate(a, out).value)
    decreases |a|
  {
    hide First;
    if a == [] {
      assert a + b == b;
    } else {
      FirstConcat(a, b, out);
      var (n, out') := First(a, out).value;
      assert (a + b)[n..] == a[n..] + b;
      InflateConcat(a[n..], b, out');
    }
  }

  /** Copying a match that is present in the data reproduces the data. */
  lemma {:induction false} RepeatCopies(data: Bytes, ref: nat, ip: nat, n: nat)
    requires ref < ip && ip + n <= |data| && Same(data, ref, ip, n)
    ensures Repeat(data[..ip], ip - ref, n) == data[..ip + n]
    decreases n
  {
    if n > 0 {
      assert SameAt(data, ref, ip, 0);
      assert data[..ip] + [data[..ip][ref]] == data[..ip + 1];
      var ref', ip' := ref + 1, ip + 1;
      forall k | 0 <= k < n - 1
        ensures SameAt(data, ref', ip', k)
      {
        assert SameAt(data, ref, ip, k + 1);
      }
      RepeatCopies(data, ref + 1, ip + 1, n - 1);
    }
  }

  lemma InflateLiterals(lits: Bytes, out: Bytes)
    requires 1 <= |lits| <= MAX_LIT
    ensures Inflate([|lits| - 1] + lits, out) == Some(out + lits)
  {
    var c: Bytes := [|lits| - 1] + lits;
    assert c[c[0] + 2..] == [] && c[1..c[0] + 2] == lits;
  }

  lemma FlushMeans(toks: Bytes, lits: Bytes, out: Bytes)
    requires |lits| <= MAX_LIT && Inflate(toks, []) == Some(out)
    ensures Inflate(Flush(toks, lits), []) == Some(out + lits)
  {
    if lits != [] {
      InflateConcat(toks, [|lits| - 1] + lits, []);
      InflateLiterals(lits, out);
      assert toks + [|lits| - 1] + lits == toks + ([|lits| - 1] + lits);
    } else {
      assert out + lits == out;
    }
  }

  lemma InflateRef(off: nat, len: nat, out: Bytes)
    requires off < MAX_OFF && 1 <= len <= 262 && off + 1 <= |out|
    ensures Inflate(RefToken(off, len), out) == Some(Repeat(out, off + 1, len + 2))
  {
    hide First, Repeat;
    FirstRef(off, len, out);
    InflateOne(RefToken(off, len), out, Repeat(out, off + 1, len + 2));
  }

  lemma FirstRef(off: nat, len: nat, out: Bytes)
    requires off < MAX_OFF && 1 <= len <= 262 && off + 1 <= |out|
    ensures First(RefToken(off, len), out) == Some((|RefToken(off, len)|, Repeat(out, off + 1, len + 2)))
  {
    hide Repeat, Distance, Inflate;
    if len < 7 {
      ControlByte(off, len);
    } else {
      ControlByte(off, 7);
    }
  }

  lemma InflateOne(c: Bytes, out: Bytes, r: Bytes)
    requires c != [] && First(c, out) == Some((|c|, r))
    ensures Inflate(c, out) == Some(r)
  {
    assert c[|c|..] == [];
  }

  lemma ControlByte(off: nat, l: nat)
    requires off < MAX_OFF && l <= 7
    ensures var ctrl := off / 256 + l * 32;
            ctrl / 32 == l && Distance(ctrl, off % 256) == off + 1
  {
  }

  /** The finished tokens mean exactly the data before the pending literals. */
  predicate Means(data: Bytes, s: State)
    requires StateOk(data, s)
  {
    Inflate(s.toks, []) == Some(data[..s.ip - s.lits])
  }

  lemma FlushPending(data: Bytes, s: State, n: nat)
    requires StateOk(data, s) && Means(data, s) && s.ip + n <= |data| && s.lits + n <= MAX_LIT
    ensures Inflate(Flush(s.toks, data[s.ip - s.lits..s.ip + n]), []) == Some(data[..s.ip + n])
  {
    var a := s.ip - s.lits;
    FlushMeans(s.toks, data[a..s.ip + n], data[..a]);
    assert data[..a] + data[a..s.ip + n] == data[..s.ip + n];
  }

  lemma AddLiteralMeans(data: Bytes, s: State)
    requires StateOk(data, s) && Means(data, s) && s.ip < |data|
    ensures Means(data, AddLiteral(data, s))
  {
    if s.lits + 1 == MAX_LIT {
      FlushPending(data, s, 1);
    }
  }

  lemma AddMatchMeans(data: Bytes, s: State, ref: nat)
    requires StateOk(data, s) && Means(data, s) && s.ip + 2 < |data| && Usable(data, ref, s.ip)
    ensures Means(data, AddMatch(data, s, ref))
  {
    hide Idx, Next, Inflate, Flush, RefToken, Repeat;
    var len := MatchLen(data, ref, s.ip);
    FlushPending(data, s, 0);
    var toks := Flush(s.toks, data[s.ip - s.lits..s.ip]);
    var off := s.ip - ref - 1;
    InflateConcat(toks, RefToken(off, len - 2), []);
    InflateRef(off, len - 2, data[..s.ip]);
    RepeatCopies(data, ref, s.ip, len);
  }

  lemma {:induction false} LoopMeans(data: Bytes, s: State)
    requires StateOk(data, s) && Means(data, s) && Loop(data, s).Some?
    ensures Means(data, Loop(data, s).value)
    decreases |data| - s.ip
  {
    hide Idx, Next, Means, AddMatch, AddLiteral;
    if s.ip + 2 < |data| {
      var hval := Next(s.hval, data[s.ip + 2]);
      var ref := s.htab[Idx(hval)];
      var s1 := s.(hval := hval, htab := s.htab[Idx(hval) := s.ip % TWO32]);
      MeansTokens(data, s, s1);
      if Usable(data, ref, s.ip) {
        AddMatchMeans(data, s1, ref);
      } else {
        AddLiteralMeans(data, s1);
      }
      LoopMeans(data, Step(data, s).value);
    }
  }

  lemma MeansTokens(data: Bytes, s: State, s': State)
    requires StateOk(data, s) && StateOk(data, s') && Means(data, s)
    requires s'.ip == s.ip && s'.lits == s.lits && s'.toks == s.toks
    ensures Means(data, s')
  {
  }

  lemma {:induction false} TailMeans(data: Bytes, s: State)
    requires StateOk(data, s) && Means(data, s)
    ensures Inflate(Tail(data, s), []) == Some(data)
    decreases |data| - s.ip
  {
    if s.ip == |data| {
      FlushPending(data, s, 0);
      assert data[..s.ip + 0] == data;
    } else {
      AddLiteralMeans(data, s);
      TailMeans(data, AddLiteral(data, s));
    }
  }

  /** Whenever compression succeeds, decompressing gives back the data. */
  lemma RoundTrip(data: Bytes)
    requires Compress(data).Some?
    ensures Decompress(Compress(data).value, |data|) == Some(data)
    ensures Inflate(Compress(data).value, []) == Some(data)
  {
    var s := Start(data);
    assert data[..0] == [];
    LoopMeans(data, s);
    var s' := Loop(data, s).value;
    TailMeans(data, s');
    assert data + Zeros(0) == data;
  }
}
