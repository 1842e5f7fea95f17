/** The scalable filter, its dump iterator and its loader as src/core/bloom.rs runs them. */
module Bloom {
  import opened Bits
  import opened BloomSpec
  import opened BloomDump

  method ExistsFp(f: Filter, fp: Fp) returns (r: bool)
    requires f.bits != []
    ensures r == Present(f, fp)
  {
    hide IsSet, BitIndex;
    for i := 0 to f.hashCnt
      invariant forall j :: 0 <= j < i ==> IsSet(f.bits, BitIndex(fp, j, 8 * |f.bits|))
    {
      if !IsSet(f.bits, BitIndex(fp, i, 8 * |f.bits|)) {
        return false;
      }
    }
    r := true;
  }

  /** Sets the bits of `fp`; says whether any of them was new. */
  method AddFp(f: Filter, fp: Fp) returns (f': Filter, changed: bool)
    requires f.bits != []
    ensures f' == Added(f, fp) && changed == (Added(f, fp) != f)
  {
    hide BitIndex;
    var bits := f.bits;
    var changes := 0;
    for i := 0 to f.hashCnt
      invariant bits == Marked(f.bits, fp, i) && |bits| == |f.bits|
      invariant 0 <= changes && (changes == 0 <==> bits == f.bits)
    {
      var k := BitIndex(fp, i, 8 * |f.bits|);
      SetChanges(f.bits, bits, fp, i);
      var was := bits[k / 8];
      bits := SetBit(bits, k);
      if bits[k / 8] != was {
        changes := changes + 1;
      }
    }
    f', changed := f.(bits := bits), changes != 0;
  }

  lemma SetChanges(start: Bytes, bits: Bytes, fp: Fp, i: nat)
    requires start != [] && bits == Marked(start, fp, i)
    ensures var k := BitIndex(fp, i, 8 * |start|);
            var next := SetBit(bits, k);
            && (next[k / 8] == bits[k / 8] <==> next == bits)
            && (next == start <==> next == bits && bits == start)
  {
    SetSame(bits, BitIndex(fp, i, 8 * |start|));
    BackToStart(start, fp, i);
    hide BitIndex, SetBit, Marked;
  }

  lemma SetSame(bits: Bytes, k: nat)
    requires k < 8 * |bits|
    ensures SetBit(bits, k)[k / 8] == bits[k / 8] <==> SetBit(bits, k) == bits
  {
    hide SetInByte;
    if SetBit(bits, k)[k / 8] == bits[k / 8] {
      assert SetBit(bits, k) == bits;
    }
  }

  lemma BackToStart(start: Bytes, fp: Fp, i: nat)
    requires start != []
    ensures Marked(start, fp, i + 1) == SetBit(Marked(start, fp, i), BitIndex(fp, i, 8 * |start|))
    ensures Marked(start, fp, i + 1) == start ==> Marked(start, fp, i) == start
  {
    if Marked(start, fp, i + 1) == start {
      hide IsSet, BitIndex, SetBit;
      MarkedSame(start, fp, i + 1);
      MarkedSame(start, fp, i);
    }
  }

  class ScalableFilter {
    var filters: seq<Filter>
    var grow: nat
    var prob: nat
    var prevSize: nat
    var size: nat
    var capacity: nat

    function Contents(): Sbf
      reads this
    {
      Sbf(filters, grow, prob, prevSize, size, capacity)
    }

    ghost predicate Valid()
      reads this
    {
      filters != [] && forall i :: 0 <= i < |filters| ==> filters[i].bits != []
    }

    constructor (z: Sizing, grow: nat)
      requires z.bytes > 0
      ensures Valid() && Contents() == Sbf([Empty(z)], grow, z.prob, 0, 0, z.capacity)
    {
      filters := [Empty(z)];
      this.grow := grow;
      prob := z.prob;
      prevSize := 0;
      size := 0;
      capacity := z.capacity;
    }

    method Contains(fp: Fp) returns (r: bool)
      requires Valid()
      ensures r <==> Exists(Contents(), fp)
    {
      hide Present;
      r := Any(filters, fp);
    }

    /** `z` is what the sizing formulas give should the filter fill up. */
    method Insert(fp: Fp, z: Sizing) returns (r: bool)
      requires Valid() && z.bytes > 0
      modifies this
      ensures Valid() && (Contents(), r) == Add(old(Contents()), fp, z)
    {
      hide Present, Added;
      var last := |filters| - 1;
      var earlier := Any(filters[..last], fp);
      if earlier {
        return false;
      }
      var f, changed := AddFp(filters[last], fp);
      if !changed {
        return false;
      }
      AddedBits(filters[last], fp);
      filters := filters[last := f];
      size := size + 1;
      if size >= capacity {
        prevSize := prevSize + capacity;
        prob := z.prob;
        filters := filters + [Empty(z)];
        size := 0;
        capacity := z.capacity;
      }
      r := true;
    }
  }

  lemma AddedBits(f: Filter, fp: Fp)
    requires f.bits != []
    ensures Added(f, fp).bits != []
  {
  }

  method Any(fs: seq<Filter>, fp: Fp) returns (r: bool)
    requires forall i :: 0 <= i < |fs| ==> fs[i].bits != []
    ensures r <==> exists i :: 0 <= i < |fs| && fs[i].bits != [] && Present(fs[i], fp)
  {
    hide Present;
    for i := 0 to |fs|
      invariant forall j :: 0 <= j < i ==> !Present(fs[j], fp)
    {
      var here := ExistsFp(fs[i], fp);
      if here {
        return true;
      }
    }
    r := false;
  }

  // ---- dumping ----

  method Resolve(fs: seq<Filter>, offset: nat) returns (i: nat, b: nat)
    ensures (i, b) == Locate(fs, offset)
  {
    i, b := 0, offset;
    assert fs[0..] == fs;
    while i < |fs|
      invariant i <= |fs|
      invariant var r := Locate(fs[i..], b); Locate(fs, offset) == (i + r.0, r.1)
    {
      assert fs[i..][0] == fs[i] && fs[i..][1..] == fs[i + 1..];
      if b < Span(fs[i]) {
        return;
      }
      b := b - Span(fs[i]);
      i := i + 1;
    }
  }

  /** Polls one filter from a client's cursor on. */
  class DumpIterator {
    const sbf: Sbf
    const limit: nat
    var cursor: nat
    var index: nat
    var offset: nat

    /** The place a non-zero cursor stands for; past the last filter the offset does not matter. */
    ghost predicate Valid()
      reads this
    {
      && limit > META_SIZE
      && (cursor == 0 ==> index == 0 && offset == 0)
      && (cursor > 0 ==> var r := Locate(sbf.filters, cursor - 1); index == r.0 && (index < |sbf.filters| ==> offset == r.1))
    }

    constructor (sbf: Sbf, limit: nat, cursor: nat)
      requires limit > META_SIZE
      ensures Valid() && this.sbf == sbf && this.limit == limit && this.cursor == cursor
    {
      this.sbf, this.limit, this.cursor := sbf, limit, cursor;
      index, offset := 0, 0;
      new;
      if cursor != 0 {
        index, offset := Resolve(sbf.filters, cursor - 1);
        if index == |sbf.filters| {
          offset := 0;
        }
      }
    }

    /** One chunk, as a fresh iterator at this cursor would give it. */
    method NextChunk() returns (c: Chunk)
      requires Valid()
      modifies this
      ensures Valid() && c == Next(sbf, limit, old(cursor))
      ensures c.cursor != 0 ==> cursor == c.cursor
    {
      hide Locate, Meta;
      if cursor == 0 {
        cursor := 1;
        LocateStart(sbf.filters);
        return Chunk(1, Header(sbf));
      }
      if index < |sbf.filters| {
        LocateInside(sbf.filters, cursor - 1);
        var bits := sbf.filters[index].bits;
        var data: Bytes;
        if offset == 0 {
          data := Meta(sbf, sbf.filters[index]) + bits[..Min(limit - META_SIZE, |bits|)];
        } else {
          if offset < META_SIZE {
            return Chunk(0, []);
          }
          var from := offset - META_SIZE;
          data := bits[from..from + Min(limit, |bits| - from)];
        }
        LocateMove(sbf.filters, cursor - 1, |data|);
        offset := offset + |data|;
        cursor := cursor + |data|;
        if offset == META_SIZE + |bits| {
          index, offset := index + 1, 0;
        }
        return Chunk(cursor, data);
      }
      c := Chunk(0, []);
    }
  }

  lemma LocateStart(fs: seq<Filter>)
    ensures Locate(fs, 0) == (0, 0)
  {
  }

  /** Moving on within a filter, or exactly to its end. */
  lemma {:induction false} LocateMove(fs: seq<Filter>, off: nat, n: nat)
    requires var r := Locate(fs, off); r.0 < |fs| && r.1 + n <= Span(fs[r.0])
    ensures var r := Locate(fs, off);
            Locate(fs, off + n) == if r.1 + n < Span(fs[r.0]) then (r.0, r.1 + n) else (r.0 + 1, 0)
    decreases |fs|
  {
    if off >= Span(fs[0]) {
      LocateMove(fs[1..], off - Span(fs[0]), n);
    } else if off + n == Span(fs[0]) {
      LocateStart(fs[1..]);
    }
  }

  lemma LocateInside(fs: seq<Filter>, off: nat)
    ensures var r := Locate(fs, off); r.0 < |fs| ==> r.1 < Span(fs[r.0])
  {
  }

  // ---- loading ----

  method LoadSbfChunk(c: Chunk, s: Sbf, probOk: nat -> bool) returns (r: Loaded)
    ensures r == LoadChunk(c, s, probOk)
  {
    hide Locate, LoadFilter;
    var writePos := c.cursor - |c.data|;
    if writePos < 1 {
      return Fail(OutOfRange);
    }
    var i, b := Resolve(s.filters, writePos - 1);
    if i < |s.filters| {
      if b < META_SIZE {
        return Fail(OutOfRange);
      }
      var from := b - META_SIZE;
      var f := s.filters[i];
      if from + |c.data| > |f.bits| {
        return Fail(OutOfRange);
      }
      return Ok(s.(filters := s.filters[i := f.(bits := Overwrite(f.bits, from, c.data))]));
    }
    if b != 0 {
      return Fail(OutOfRange);
    }
    r := LoadFilter(c.data, s, probOk);
  }
}
