/**
 Dumping a scalable bloom filter in chunks and loading them (src/core/bloom.rs): a client polls with
 the cursor it was last given and feeds every chunk to the loader.
 */
module BloomDump {
  import opened Bits
  import opened Words
  import opened BloomSpec

  const VERSION: nat := 1
  const HEADER_SIZE: nat := 12
  const META_SIZE: nat := 44

  datatype Error = BadVersion | BadInput | TruncatedInput | OutOfRange
  datatype Loaded = Ok(sbf: Sbf) | Fail(error: Error)

  /** A returned pair: cursor 1 comes with the header, 0 ends the iteration. */
  datatype Chunk = Chunk(cursor: nat, data: Bytes)

  function Span(f: Filter): nat { META_SIZE + |f.bits| }

  /** The filter that holds byte `off` of the dump body and the offset in it; past the end, what is left over. */
  function Locate(fs: seq<Filter>, off: nat): (r: (nat, nat))
    ensures r.0 <= |fs| && (r.0 < |fs| ==> r.1 < Span(fs[r.0]))
  {
    if fs == [] then (0, off)
    else if off < Span(fs[0]) then (0, off)
    else var r := Locate(fs[1..], off - Span(fs[0])); (r.0 + 1, r.1)
  }

  // ---- dumping ----

  function Header(s: Sbf): (b: Bytes)
    ensures |b| == HEADER_SIZE
  {
    Le(VERSION, 4) + Le(s.grow, 8)
  }

  function Meta(s: Sbf, f: Filter): (b: Bytes)
    ensures |b| == META_SIZE
  {
    Le(f.hashCnt, 4) + Le(|f.bits|, 8) + Le(s.prob, 8) + Le(s.capacity, 8) + Le(s.size, 8) + Le(s.prevSize, 8)
  }

  /** The chunk after `cursor`. */
  function Next(s: Sbf, limit: nat, cursor: nat): (c: Chunk)
    requires limit > META_SIZE
  {
    if cursor == 0 then Chunk(1, Header(s)) else
    var (i, b) := Locate(s.filters, cursor - 1);
    if i == |s.filters| then Chunk(0, []) else
    var bits := s.filters[i].bits;
    if b == 0 then
      var data := Meta(s, s.filters[i]) + bits[..Min(limit - META_SIZE, |bits|)];
      Chunk(cursor + |data|, data)
    else if b < META_SIZE then Chunk(0, [])
    else
      var from := b - META_SIZE;
      var n := Min(limit, |bits| - from);
      Chunk(cursor + n, bits[from..from + n])
  }

  // ---- loading ----

  function LoadHeader(data: Bytes, growOk: nat -> bool): Loaded {
    if |data| < HEADER_SIZE then Fail(TruncatedInput)
    else if |data| > HEADER_SIZE then Fail(BadInput)
    else if FromLe(data[..4]) != VERSION then Fail(BadVersion)
    else if !growOk(FromLe(data[4..12])) then Fail(BadInput)
    else Ok(Sbf([], FromLe(data[4..12]), 0, 0, 0, 0))
  }

  function LoadFilter(data: Bytes, s: Sbf, probOk: nat -> bool): Loaded {
    if |data| < META_SIZE then Fail(TruncatedInput) else
    var hashCnt, length := FromLe(data[..4]), FromLe(data[4..12]);
    var prob, capacity := FromLe(data[12..20]), FromLe(data[20..28]);
    var size, prevSize := FromLe(data[28..36]), FromLe(data[36..44]);
    var payload := |data| - META_SIZE;
    if hashCnt == 0 || hashCnt > 255 then Fail(BadInput)
    else if length == 0 || !PowerOfTwo(length) then Fail(BadInput)
    else if !probOk(prob) then Fail(BadInput)
    else if capacity == 0 || size >= capacity then Fail(BadInput)
    else if payload > length then Fail(OutOfRange)
    else Ok(Sbf(s.filters + [Filter(hashCnt, data[META_SIZE..] + Zeros(length - payload))], s.grow, prob, prevSize, size, capacity))
  }

  function Overwrite(bits: Bytes, from: nat, data: Bytes): (r: Bytes)
    requires from + |data| <= |bits|
    ensures |r| == |bits|
  {
    bits[..from] + data + bits[from + |data|..]
  }

  function LoadChunk(c: Chunk, s: Sbf, probOk: nat -> bool): Loaded {
    if c.cursor - |c.data| < 1 then Fail(OutOfRange) else
    var (i, b) := Locate(s.filters, c.cursor - |c.data| - 1);
    if i < |s.filters| then
      if b < META_SIZE then Fail(OutOfRange)
      else if b - META_SIZE + |c.data| > |s.filters[i].bits| then Fail(OutOfRange)
      else
        var f := s.filters[i];
        Ok(s.(filters := s.filters[i := f.(bits := Overwrite(f.bits, b - META_SIZE, c.data))]))
    else if b != 0 then Fail(OutOfRange)
    else LoadFilter(c.data, s, probOk)
  }

  // ---- the whole exchange ----

  function Total(fs: seq<Filter>): nat { if fs == [] then 0 else Total(fs[..|fs| - 1]) + Span(fs[|fs| - 1]) }

  /** Polling always ends: a non-zero cursor moves forward and stays within the dump. */
  lemma NextForward(s: Sbf, limit: nat, cursor: nat)
    requires limit > META_SIZE
    ensures var c := Next(s, limit, cursor); c.cursor != 0 ==> cursor < c.cursor <= 1 + Total(s.filters)
  {
    if cursor > 0 {
      var (i, b) := Locate(s.filters, cursor - 1);
      LocateBound(s.filters, cursor - 1);
    }
  }

  lemma {:induction false} TotalFirst(fs: seq<Filter>)
    requires fs != []
    ensures Total(fs) == Span(fs[0]) + Total(fs[1..])
    decreases |fs|
  {
    var n := |fs| - 1;
    if n == 0 {
      assert fs[..0] == [] && fs[1..] == [];
    } else {
      TotalFirst(fs[..n]);
      assert fs[..n][1..] == fs[1..][..n - 1];
    }
  }

  lemma {:induction false} LocateBound(fs: seq<Filter>, off: nat)
    ensures var r := Locate(fs, off); r.0 < |fs| ==> off - r.1 + Span(fs[r.0]) <= Total(fs)
    decreases |fs|
  {
    if fs != [] {
      TotalFirst(fs);
      if off >= Span(fs[0]) {
        LocateBound(fs[1..], off - Span(fs[0]));
      }
    }
  }

  /** The exchange from `cursor` on: every chunk is loaded into `t`. */
  function Transfer(s: Sbf, limit: nat, cursor: nat, t: Sbf, growOk: nat -> bool, probOk: nat -> bool): Loaded
    requires limit > META_SIZE
    decreases Total(s.filters) + 2 - cursor
  {
    NextForward(s, limit, cursor);
    var c := Next(s, limit, cursor);
    if c.cursor == 0 then Ok(t) else
    var r := if c.cursor == 1 then LoadHeader(c.data, growOk) else LoadChunk(c, t, probOk);
    if r.Fail? then r else Transfer(s, limit, c.cursor, r.sbf, growOk, probOk)
  }

  // ---- what has arrived so far ----

  lemma {:induction false} LocateAt(fs: seq<Filter>, i: nat, r: nat)
    requires i <= |fs| && (i < |fs| ==> r < Span(fs[i]))
    ensures Locate(fs, Total(fs[..i]) + r) == (i, r)
    decreases |fs|
  {
    if i > 0 {
      var pre := fs[..i];
      TotalFirst(pre);
      assert pre[1..] == fs[1..][..i - 1] && pre[0] == fs[0];
      LocateAt(fs[1..], i - 1, r);
    }
  }

  /** The first `k` bytes of a bit array, the rest still zero. */
  function Begun(f: Filter, k: nat): Filter
    requires k <= |f.bits|
  {
    f.(bits := f.bits[..k] + Zeros(|f.bits| - k))
  }

  /** The receiver once `i` filters and `k` bytes of the next have arrived. */
  function Half(s: Sbf, i: nat, k: nat): Sbf
    requires i <= |s.filters| && (k > 0 ==> i < |s.filters| && k <= |s.filters[i].bits|)
  {
    var fs := s.filters[..i] + if k == 0 then [] else [Begun(s.filters[i], k)];
    if fs == [] then Sbf([], s.grow, 0, 0, 0, 0) else s.(filters := fs)
  }

  function CursorAt(s: Sbf, i: nat, k: nat): nat
    requires i <= |s.filters|
  {
    1 + Total(s.filters[..i]) + if k == 0 then 0 else META_SIZE + k
  }

  lemma Complete(s: Sbf, i: nat)
    requires i < |s.filters| && s.filters[i].bits != []
    ensures var k := |s.filters[i].bits|; Half(s, i, k) == Half(s, i + 1, 0) && CursorAt(s, i, k) == CursorAt(s, i + 1, 0)
  {
    var f := s.filters[i];
    assert f.bits[..|f.bits|] + Zeros(0) == f.bits;
    assert Begun(f, |f.bits|) == f;
    assert s.filters[..i + 1] == s.filters[..i] + [f];
    assert s.filters[..i + 1][..i] == s.filters[..i];
    assert s.filters[..i + 1] + [] == s.filters[..i + 1];
  }

  lemma {:induction false} MetaSlices(a: Bytes, b: Bytes, c: Bytes, d: Bytes, e: Bytes, f: Bytes, rest: Bytes)
    requires |a| == 4 && |b| == 8 && |c| == 8 && |d| == 8 && |e| == 8 && |f| == 8
    ensures var x := a + b + c + d + e + f + rest;
            && x[..4] == a && x[4..12] == b && x[12..20] == c && x[20..28] == d && x[28..36] == e && x[36..44] == f
            && x[44..] == rest
  {
  }

  lemma LoadFilterMeta(s: Sbf, t: Sbf, f: Filter, payload: Bytes, growOk: nat -> bool, probOk: nat -> bool)
    requires SbfOk(s, growOk, probOk) && FilterOk(f) && payload <= f.bits
    ensures LoadFilter(Meta(s, f) + payload, t, probOk) ==
            Ok(Sbf(t.filters + [Begun(f, |payload|)], t.grow, s.prob, s.prevSize, s.size, s.capacity))
  {
    Widths();
    LeInverse(f.hashCnt, 4);
    LeInverse(|f.bits|, 8);
    LeInverse(s.prob, 8);
    LeInverse(s.capacity, 8);
    LeInverse(s.size, 8);
    LeInverse(s.prevSize, 8);
    hide Le, FromLe, Power, PowerOfTwo;
    MetaSlices(Le(f.hashCnt, 4), Le(|f.bits|, 8), Le(s.prob, 8), Le(s.capacity, 8), Le(s.size, 8), Le(s.prevSize, 8), payload);
    assert payload == f.bits[..|payload|];
  }

  lemma NextStart(s: Sbf, limit: nat, i: nat)
    requires limit > META_SIZE && i < |s.filters| && s.filters[i].bits != []
    ensures var f := s.filters[i];
            var k := Min(limit - META_SIZE, |f.bits|);
            Next(s, limit, CursorAt(s, i, 0)) == Chunk(CursorAt(s, i, k), Meta(s, f) + f.bits[..k])
  {
    LocateAt(s.filters, i, 0);
    hide Locate, Total, Meta;
  }

  lemma LoadStart(s: Sbf, i: nat, k: nat, growOk: nat -> bool, probOk: nat -> bool)
    requires SbfOk(s, growOk, probOk) && i < |s.filters| && 0 < k <= |s.filters[i].bits|
    ensures LoadChunk(Chunk(CursorAt(s, i, k), Meta(s, s.filters[i]) + s.filters[i].bits[..k]), Half(s, i, 0), probOk) == Ok(Half(s, i, k))
  {
    hide LoadFilter, Locate, Total, Begun;
    var f, t := s.filters[i], Half(s, i, 0);
    assert t.filters == s.filters[..i];
    assert s.filters[..i][..i] == s.filters[..i];
    LocateAt(s.filters[..i], i, 0);
    LoadFilterMeta(s, t, f, f.bits[..k], growOk, probOk);
    assert t.filters + [Begun(f, k)] == Half(s, i, k).filters;
  }

  /** The first chunk of a filter starts it at the receiver. */
  lemma StartArrives(s: Sbf, limit: nat, i: nat, growOk: nat -> bool, probOk: nat -> bool)
    requires SbfOk(s, growOk, probOk) && limit > META_SIZE && i < |s.filters|
    ensures var k := Min(limit - META_SIZE, |s.filters[i].bits|);
            var c := Next(s, limit, CursorAt(s, i, 0));
            && 0 < k <= |s.filters[i].bits| && c.cursor == CursorAt(s, i, k) > 1
            && LoadChunk(c, Half(s, i, 0), probOk) == Ok(Half(s, i, k))
  {
    hide Next, LoadChunk, Half;
    assert FilterOk(s.filters[i]);
    NextStart(s, limit, i);
    LoadStart(s, i, Min(limit - META_SIZE, |s.filters[i].bits|), growOk, probOk);
  }

  lemma OverwriteBegun(f: Filter, k: nat, n: nat)
    requires k + n <= |f.bits|
    ensures Overwrite(Begun(f, k).bits, k, f.bits[k..k + n]) == Begun(f, k + n).bits
  {
  }

  lemma NextRest(s: Sbf, limit: nat, i: nat, k: nat)
    requires limit > META_SIZE && i < |s.filters| && 0 < k < |s.filters[i].bits|
    ensures var f := s.filters[i];
            var n := Min(limit, |f.bits| - k);
            Next(s, limit, CursorAt(s, i, k)) == Chunk(CursorAt(s, i, k + n), f.bits[k..k + n])
  {
    LocateAt(s.filters, i, META_SIZE + k);
    hide Locate, Total;
  }

  lemma LoadRest(s: Sbf, i: nat, k: nat, n: nat, probOk: nat -> bool)
    requires i < |s.filters| && 0 < k && 0 < n && k + n <= |s.filters[i].bits|
    ensures LoadChunk(Chunk(CursorAt(s, i, k + n), s.filters[i].bits[k..k + n]), Half(s, i, k), probOk) == Ok(Half(s, i, k + n))
  {
    hide LoadFilter, Begun, Overwrite, Locate, Total;
    var f, t := s.filters[i], Half(s, i, k);
    BegunLength(f, k);
    assert t.filters[..i] == s.filters[..i];
    LocateAt(t.filters, i, META_SIZE + k);
    OverwriteBegun(f, k, n);
    BegunSame(f, k, n);
    assert t.filters[i := Begun(f, k + n)] == Half(s, i, k + n).filters;
  }

  /** A later chunk of a filter continues it. */
  lemma RestArrives(s: Sbf, limit: nat, i: nat, k: nat, probOk: nat -> bool)
    requires limit > META_SIZE && i < |s.filters| && 0 < k < |s.filters[i].bits|
    ensures var n := Min(limit, |s.filters[i].bits| - k);
            var c := Next(s, limit, CursorAt(s, i, k));
            && 0 < n && k + n <= |s.filters[i].bits| && c.cursor == CursorAt(s, i, k + n) > 1
            && LoadChunk(c, Half(s, i, k), probOk) == Ok(Half(s, i, k + n))
  {
    hide Next, LoadChunk, Half;
    NextRest(s, limit, i, k);
    LoadRest(s, i, k, Min(limit, |s.filters[i].bits| - k), probOk);
  }

  lemma BegunLength(f: Filter, k: nat)
    requires k <= |f.bits|
    ensures |Begun(f, k).bits| == |f.bits|
  {
  }

  lemma BegunSame(f: Filter, k: nat, n: nat)
    requires k + n <= |f.bits|
    ensures Begun(f, k).(bits := Begun(f, k + n).bits) == Begun(f, k + n)
  {
  }

  /** From any point of the exchange on, what arrives completes the filter. */
  lemma {:induction false} TransferFrom(s: Sbf, limit: nat, i: nat, k: nat, growOk: nat -> bool, probOk: nat -> bool)
    requires SbfOk(s, growOk, probOk) && limit > META_SIZE && i <= |s.filters|
    requires k > 0 ==> i < |s.filters| && k <= |s.filters[i].bits|
    ensures Transfer(s, limit, CursorAt(s, i, k), Half(s, i, k), growOk, probOk) == Ok(s)
    decreases |s.filters| - i, if i < |s.filters| then |s.filters[i].bits| - k else 0
  {
    hide Next, LoadChunk, Half, CursorAt;
    if i == |s.filters| {
      AllArrived(s, limit);
    } else if k == |s.filters[i].bits| {
      Complete(s, i);
      TransferFrom(s, limit, i + 1, 0, growOk, probOk);
    } else if k == 0 {
      StartArrives(s, limit, i, growOk, probOk);
      TransferFrom(s, limit, i, Min(limit - META_SIZE, |s.filters[i].bits|), growOk, probOk);
    } else {
      RestArrives(s, limit, i, k, probOk);
      TransferFrom(s, limit, i, k + Min(limit, |s.filters[i].bits| - k), growOk, probOk);
    }
  }

  lemma AllArrived(s: Sbf, limit: nat)
    requires limit > META_SIZE && s.filters != []
    ensures var n := |s.filters|; Next(s, limit, CursorAt(s, n, 0)).cursor == 0 && Half(s, n, 0) == s
  {
    LocateAt(s.filters, |s.filters|, 0);
    assert s.filters[..|s.filters|] == s.filters;
  }

  lemma HeaderArrives(s: Sbf, limit: nat, growOk: nat -> bool)
    requires limit > META_SIZE && s.grow < TWO64 && growOk(s.grow)
    ensures var c := Next(s, limit, 0); c.cursor == 1 == CursorAt(s, 0, 0) && LoadHeader(c.data, growOk) == Ok(Half(s, 0, 0))
  {
    Widths();
    LeInverse(VERSION, 4);
    LeInverse(s.grow, 8);
    hide Le, FromLe, Power;
    assert Header(s)[..4] == Le(VERSION, 4) && Header(s)[4..12] == Le(s.grow, 8);
    assert s.filters[..0] == [];
  }

  /**
   Polling a valid filter from cursor 0 and loading the chunks in order rebuilds it exactly, for any
   chunk limit above the size of a filter's metadata, whatever the receiver held before.
   */
  lemma DumpRoundTrip(s: Sbf, limit: nat, t: Sbf, growOk: nat -> bool, probOk: nat -> bool)
    requires SbfOk(s, growOk, probOk) && limit > META_SIZE
    ensures Transfer(s, limit, 0, t, growOk, probOk) == Ok(s)
  {
    HeaderArrives(s, limit, growOk);
    TransferFrom(s, limit, 0, 0, growOk, probOk);
    hide Next, LoadHeader, Half;
  }

  /** Every item ever added is still reported present after growing, dumping and loading. */
  lemma NoFalseNegatives(s: Sbf, items: seq<Fp>, zs: seq<Sizing>, fp: Fp, limit: nat, t: Sbf, growOk: nat -> bool, probOk: nat -> bool)
    requires |items| == |zs| && fp in items && limit > META_SIZE
    requires SbfOk(s, growOk, probOk) && forall i :: 0 <= i < |zs| ==> zs[i].bytes > 0 && SizingOk(zs[i], probOk)
    requires s.prevSize + s.capacity + Appended(s, items, zs) < TWO64
    ensures var r := Transfer(Run(s, items, zs), limit, 0, t, growOk, probOk); r.Ok? && Exists(r.sbf, fp)
  {
    RunKeeps(s, items, zs, fp);
    RunOk(s, items, zs, growOk, probOk);
    DumpRoundTrip(Run(s, items, zs), limit, t, growOk, probOk);
  }
}
