/**
 The LZF compressor and decompressor as loops over input and output cursors that write into a
 preallocated buffer and patch run headers in place (src/core/lzf.rs).
 */
module Lzf {
  import opened Bits
  import opened LzfSpec

  /** What the output buffer holds between iterations: finished tokens, a reserved byte, pending literals. */
  ghost predicate Buffered(buf: Bytes, data: Bytes, s: State) {
    && StateOk(data, s)
    && |buf| == |data| + 1
    && |s.toks| <= |buf|
    && s.toks == buf[..|s.toks|]
    && (s.lits > 0 ==> Op(s) <= |buf| && buf[|s.toks| + 1..Op(s)] == data[s.ip - s.lits..s.ip])
  }

  lemma SliceSnoc(data: Bytes, a: nat, b: nat)
    requires a <= b < |data|
    ensures data[a..b + 1] == data[a..b] + [data[b]]
  {
  }

  /** Copy one literal, closing the run when it is full. */
  method PutLiteral(data: Bytes, out: array<byte>, ghost s: State, ip: nat, op0: nat, lit0: nat) returns (op: nat, lit: nat)
    requires Buffered(out[..], data, s) && ip == s.ip < |data| && lit0 == s.lits && op0 == Op(s) < out.Length
    modifies out
    ensures var s' := AddLiteral(data, s);
            Buffered(out[..], data, s') && lit == s'.lits && op == Op(s')
  {
    op, lit := op0, lit0;
    lit := lit + 1;
    out[op] := data[ip];
    op := op + 1;
    ghost var a := ip + 1 - lit;
    SliceSnoc(data, a, ip);
    assert out[|s.toks| + 1..op] == data[a..ip + 1];
    assert out[..|s.toks|] == s.toks;
    if lit == MAX_LIT {
      out[op - lit - 1] := lit - 1;
      assert out[..op] == Flush(s.toks, data[a..ip + 1]);
      lit := 0;
      op := op + 1;
    }
  }

  lemma SameSnoc(data: Bytes, ref: nat, ip: nat, n: nat)
    requires ref <= ip && ip + n < |data| && Same(data, ref, ip, n) && data[ref + n] == data[ip + n]
    ensures Same(data, ref, ip, n + 1)
  {
    assert SameAt(data, ref, ip, n);
  }

  /** The length of a match, by the source's unrolled loop and then its general one. */
  method MatchLength(data: Bytes, ref: nat, ip: nat) returns (len: nat)
    requires ref < ip && ip + 2 < |data| && SameThree(data, ref, ip)
    ensures len == MatchLen(data, ref, ip)
  {
    assert SameAt(data, ref, ip, 0) && SameAt(data, ref, ip, 1) && SameAt(data, ref, ip, 2);
    var maxlen := Min(|data| - ip - 2, MAX_REF);
    len := 2;
    if maxlen > 16 {
      var mismatched;
      len, mismatched := MatchSixteen(data, ref, ip);
      if mismatched {
        return;
      }
    }
    len := ScanOn(data, ref, ip, len + 1, maxlen);
  }

  /** The general loop: on until the limit or the first difference. */
  method ScanOn(data: Bytes, ref: nat, ip: nat, from: nat, limit: int) returns (len: nat)
    requires ref < ip && ip + limit <= |data| && ip + from <= |data| && Same(data, ref, ip, from)
    ensures len == Scan(data, ref, ip, from, limit)
  {
    hide Same, SameAt, Scan;
    len := from;
    while len < limit && data[ref + len] == data[ip + len]
      invariant from <= len && ip + len <= |data| && Same(data, ref, ip, len)
      invariant Scan(data, ref, ip, from, limit) == Scan(data, ref, ip, len, limit)
    {
      SameSnoc(data, ref, ip, len);
      ScanStep(data, ref, ip, len, limit);
      len := len + 1;
    }
    ScanStop(data, ref, ip, len, limit);
  }

  lemma ScanStep(data: Bytes, ref: nat, ip: nat, len: nat, limit: int)
    requires ref < ip && ip + limit <= |data| && len < limit && Same(data, ref, ip, len)
    requires data[ref + len] == data[ip + len] && Same(data, ref, ip, len + 1)
    ensures Scan(data, ref, ip, len, limit) == Scan(data, ref, ip, len + 1, limit)
  {
    hide Same, SameAt;
  }

  lemma ScanStop(data: Bytes, ref: nat, ip: nat, len: nat, limit: int)
    requires ref < ip && ip + limit <= |data| && ip + len <= |data| && Same(data, ref, ip, len)
    requires len < limit ==> data[ref + len] != data[ip + len]
    ensures Scan(data, ref, ip, len, limit) == len
  {
    hide Same, SameAt;
  }

  method MatchSixteen(data: Bytes, ref: nat, ip: nat) returns (len: nat, mismatched: bool)
    requires ref < ip && ip + 18 < |data| && Same(data, ref, ip, 3)
    ensures var l := Scan(data, ref, ip, 3, 19);
            if mismatched then len == l < 19 else len == 18 && l == 19
  {
    hide Same, SameAt;
    len, mismatched := 2, false;
    var i := 0;
    while i < 16
      invariant 0 <= i <= 16 && len == 2 + i
      invariant Same(data, ref, ip, len + 1) && Scan(data, ref, ip, 3, 19) == Scan(data, ref, ip, len + 1, 19)
    {
      len := len + 1;
      if data[ref + len] != data[ip + len] {
        return len, true;
      }
      SameSnoc(data, ref, ip, len);
      i := i + 1;
    }
  }

  /** Close the pending run and write a back reference; the cursor is left after the next reserved byte. */
  method PutMatch(data: Bytes, out: array<byte>, ghost s: State, op0: nat, lit: nat, off: nat, len: nat) returns (op: nat)
    requires Buffered(out[..], data, s) && lit == s.lits && op0 == Op(s)
    requires op0 - (if lit == 0 then 1 else 0) + 4 < out.Length
    requires off < MAX_OFF && 1 <= len <= 262
    modifies out
    ensures var toks := Flush(s.toks, data[s.ip - s.lits..s.ip]) + RefToken(off, len);
            |toks| <= out.Length && out[..|toks|] == toks && op == |toks| + 1 <= out.Length
  {
    hide Flush;
    op := StopRun(data, out, s, op0, lit);
    ghost var toks := out[..op];
    if len < 7 {
      out[op] := off / 256 + len * 32;
      op := op + 1;
    } else {
      out[op] := off / 256 + 7 * 32;
      op := op + 1;
      out[op] := len - 7;
      op := op + 1;
    }
    ghost var head := RefToken(off, len)[..|RefToken(off, len)| - 1];
    assert out[..op] == toks + head;
    out[op] := off % 256;
    op := op + 1;
    assert out[..op] == toks + head + [off % 256] == toks + RefToken(off, len);
    op := op + 1;
  }

  lemma {:induction false} LoopBound(data: Bytes, s: State)
    requires StateOk(data, s) && Loop(data, s).Some?
    ensures Loop(data, s).value.ip + 2 >= |data|
    decreases |data| - s.ip
  {
    hide Step;
    if s.ip + 2 < |data| {
      LoopBound(data, Step(data, s).value);
    }
  }

  /** The output is at most one byte longer than the input. */
  lemma CompressedSize(data: Bytes)
    requires Compress(data).Some?
    ensures 0 < |data| && |Compress(data).value| <= |data| + 1
  {
    var s := Loop(data, Start(data)).value;
    LoopBound(data, Start(data));
    TailSize(data, s);
  }

  lemma TailSize(data: Bytes, s: State)
    requires StateOk(data, s) && s.ip + 2 >= |data| && Op(s) + 3 <= |data| + 1
    ensures |Tail(data, s)| <= |data| + 1
  {
    if s.ip < |data| {
      var s1 := AddLiteral(data, s);
      assert Tail(data, s) == Tail(data, s1);
      if s1.ip < |data| {
        assert Tail(data, s1) == Tail(data, AddLiteral(data, s1));
      }
    }
  }

  /** One iteration of the main loop on the buffer. */
  method OneStep(data: Bytes, out: array<byte>, htab: array<nat>, ghost s: State, ip0: nat, op0: nat, lit0: nat, hval0: nat)
    returns (more: bool, ip: nat, op: nat, lit: nat, hval: nat)
    requires Buffered(out[..], data, s) && s.ip + 2 < |data|
    requires ip0 == s.ip && op0 == Op(s) && lit0 == s.lits && hval0 == s.hval && htab[..] == s.htab
    modifies out, htab
    ensures more <==> Step(data, s).Some?
    ensures more ==>
              var s' := Step(data, s).value;
              && Buffered(out[..], data, s')
              && ip == s'.ip && op == Op(s') && lit == s'.lits && hval == s'.hval && htab[..] == s'.htab
  {
    hide Flush, RefToken, MatchLen, Scan, Idx, Next, AddMatch, AddLiteral;
    ip, op, lit, hval := ip0, op0, lit0, hval0;
    hval := Next(hval, data[ip + 2]);
    var slot := Idx(hval);
    var ref := htab[slot];
    htab[slot] := ip % TWO32;
    ghost var s1 := s.(hval := hval, htab := s.htab[slot := ip % TWO32]);
    assert htab[..] == s1.htab;
    if ref != 0 && ip > ref && ip - ref - 1 < MAX_OFF && data[ref + 2] == data[ip + 2]
       && data[ref] == data[ip] && data[ref + 1] == data[ip + 1]
    {
      assert Usable(data, ref, ip);
      if op + 4 >= |data| + 1 && op - (if lit == 0 then 1 else 0) + 4 >= |data| + 1 {
        return false, ip, op, lit, hval;
      }
      ip, op, hval := TakeMatch(data, out, htab, s1, ref, ip, op, lit, hval);
      lit := 0;
      more := true;
    } else {
      assert !Usable(data, ref, ip);
      if op >= |data| + 1 {
        return false, ip, op, lit, hval;
      }
      op, lit := PutLiteral(data, out, s1, ip, op, lit);
      LiteralMoves(data, s1);
      ip := ip + 1;
      more := true;
    }
  }

  lemma LiteralMoves(data: Bytes, s: State)
    requires StateOk(data, s) && s.ip < |data|
    ensures var s' := AddLiteral(data, s); s'.ip == s.ip + 1 && s'.hval == s.hval && s'.htab == s.htab
  {
  }

  /** The match with the bytes at `ref`: the reference goes out, and two more positions are indexed. */
  method TakeMatch(data: Bytes, out: array<byte>, htab: array<nat>, ghost s: State, ref: nat, ip0: nat, op0: nat, lit: nat, hval0: nat)
    returns (ip: nat, op: nat, hval: nat)
    requires Buffered(out[..], data, s) && s.ip + 2 < |data| && Usable(data, ref, s.ip)
    requires ip0 == s.ip && op0 == Op(s) && lit == s.lits && hval0 == s.hval && htab[..] == s.htab
    requires op0 - (if lit == 0 then 1 else 0) + 4 < out.Length
    modifies out, htab
    ensures var s' := AddMatch(data, s, ref);
            && Buffered(out[..], data, s')
            && ip == s'.ip && op == Op(s') && s'.lits == 0 && hval == s'.hval && htab[..] == s'.htab
  {
    hide Flush, RefToken, MatchLen, Reindex;
    var len := MatchLength(data, ref, ip0);
    op := PutMatch(data, out, s, op0, lit, ip0 - ref - 1, len - 2);
    ip, hval := ip0 + len, hval0;
    if ip + 2 < |data| {
      hval := ReindexTable(data, htab, ip);
    }
  }

  method ReindexTable(data: Bytes, htab: array<nat>, ip: nat) returns (hval: nat)
    requires 2 <= ip && ip + 2 < |data| && htab.Length == HSIZE
    modifies htab
    ensures forall s :: StateOk(data, s) && s.ip == ip && s.htab == old(htab[..]) ==>
              hval == Reindex(data, s).hval && htab[..] == Reindex(data, s).htab
  {
    hval := Frst(data[ip - 2], data[ip - 1]);
    hval := Next(hval, data[ip]);
    htab[Idx(hval)] := (ip - 2) % TWO32;
    hval := Next(hval, data[ip + 1]);
    htab[Idx(hval)] := (ip - 1) % TWO32;
  }

  method CompressBuffer(data: Bytes) returns (r: Option<Bytes>)
    ensures r == Compress(data)
  {
    if |data| == 0 {
      return None;
    }
    hide Step, AddLiteral, Flush;
    var out := new byte[|data| + 1](_ => 0);
    var htab := new nat[HSIZE](_ => 0);
    var ip, op, lit := 0, 1, 0;
    var hval := if |data| >= 2 then Frst(data[0], data[1]) else 0;
    ghost var s := Start(data);
    while ip + 2 < |data|
      invariant Buffered(out[..], data, s)
      invariant ip == s.ip && op == Op(s) && lit == s.lits && hval == s.hval && htab[..] == s.htab
      invariant Loop(data, Start(data)) == Loop(data, s)
      decreases |data| - ip
    {
      var more;
      more, ip, op, lit, hval := OneStep(data, out, htab, s, ip, op, lit, hval);
      if !more {
        return None;
      }
      s := Step(data, s).value;
    }
    if op + 3 > |data| + 1 {
      return None;
    }
    op := PutTail(data, out, s, ip, op, lit);
    return Some(out[..op]);
  }

  /** The last bytes as literals; at most one run fills up here. */
  method PutTail(data: Bytes, out: array<byte>, ghost s0: State, ip0: nat, op0: nat, lit0: nat) returns (op: nat)
    requires Buffered(out[..], data, s0) && s0.ip + 2 >= |data|
    requires ip0 == s0.ip && op0 == Op(s0) && lit0 == s0.lits && op0 + 3 <= |data| + 1
    modifies out
    ensures op <= out.Length && out[..op] == Tail(data, s0)
  {
    var ip, lit := ip0, lit0;
    op := op0;
    ghost var s, filled := s0, 0;
    while ip < |data|
      invariant Buffered(out[..], data, s)
      invariant ip0 <= ip <= |data| && op == op0 + (ip - ip0) + filled
      invariant filled == 0 || (filled == 1 && lit <= ip - ip0)
      invariant ip == s.ip && op == Op(s) && lit == s.lits
      invariant Tail(data, s0) == Tail(data, s)
    {
      filled := if lit + 1 == MAX_LIT then 1 else filled;
      op, lit := PutLiteral(data, out, s, ip, op, lit);
      s := AddLiteral(data, s);
      ip := ip + 1;
    }
    op := StopRun(data, out, s, op, lit);
  }

  /** Write the length of the pending run into its reserved byte, or give the byte back when there is none. */
  method StopRun(data: Bytes, out: array<byte>, ghost s: State, op0: nat, lit: nat) returns (op: nat)
    requires Buffered(out[..], data, s) && lit == s.lits && op0 == Op(s) <= out.Length
    modifies out
    ensures var toks := Flush(s.toks, data[s.ip - s.lits..s.ip]);
            op == |toks| <= out.Length && out[..op] == toks
    ensures op == op0 - if lit == 0 then 1 else 0
  {
    op := op0;
    out[op - lit - 1] := (lit + 255) % 256;
    if lit == 0 {
      op := op - 1;
    }
    assert out[..op] == Flush(s.toks, data[s.ip - s.lits..s.ip]);
  }

  /** Decompression with every input and output access checked. */
  method DecompressBuffer(data: Bytes, expected: nat) returns (r: Option<Bytes>)
    ensures r == Decompress(data, expected)
  {
    hide First, Repeat;
    var out := new byte[expected](_ => 0);
    var ip, op := 0, 0;
    while ip < |data|
      invariant 0 <= ip <= |data| && 0 <= op <= expected
      invariant Inflate(data, []) == Inflate(data[ip..], out[..op])
      invariant forall i :: op <= i < expected ==> out[i] == 0
      decreases |data| - ip
    {
      ghost var rest, sofar := data[ip..], out[..op];
      var more;
      more, ip, op := OneToken(data, out, ip, op);
      if !more {
        return None;
      }
      assert rest[First(rest, sofar).value.0..] == data[ip..];
    }
    assert data[ip..] == [];
    assert out[..] == out[..op] + Zeros(expected - op);
    return Some(out[..]);
  }

  /** One token; false when the token is malformed or would not fit. */
  method OneToken(data: Bytes, out: array<byte>, ip0: nat, op0: nat) returns (more: bool, ip: nat, op: nat)
    requires ip0 < |data| && op0 <= out.Length
    modifies out
    ensures var t := First(data[ip0..], old(out[..op0]));
            && (more <==> t.Some? && |t.value.1| <= out.Length)
            && (more ==> ip == ip0 + t.value.0 && op == |t.value.1| && out[..op] == t.value.1)
    ensures more ==> forall i :: op <= i < out.Length ==> out[i] == old(out[i])
  {
    ghost var c, sofar := data[ip0..], out[..op0];
    ip, op := ip0, op0;
    var ctrl: nat := data[ip];
    ip := ip + 1;
    if ctrl < 32 {
      var n := ctrl + 1;
      if op + n > out.Length {
        return false, ip, op;
      }
      if ip + n > |data| {
        return false, ip, op;
      }
      CopyIn(out, op, data[ip..ip + n]);
      assert c[1..c[0] + 2] == data[ip..ip + n];
      op := op + n;
      ip := ip + n;
      return true, ip, op;
    }
    var len: nat := ctrl / 32;
    if ip >= |data| {
      return false, ip, op;
    }
    if op < ctrl % 32 * 256 + 1 {
      return false, ip, op;
    }
    var ref: nat := op - (ctrl % 32 * 256 + 1);
    if len == 7 {
      len := Plus(len, data[ip]);
      ip := ip + 1;
      if ip >= |data| {
        return false, ip, op;
      }
    }
    if ref < data[ip] {
      return false, ip, op;
    }
    ref := ref - data[ip];
    ip := ip + 1;
    if op + len + 2 > out.Length {
      return false, ip, op;
    }
    op := CopyBack(out, ref, op, len + 2);
    more := true;
  }

  method CopyIn(out: array<byte>, op: nat, s: Bytes)
    requires op + |s| <= out.Length
    modifies out
    ensures out[..op + |s|] == old(out[..op]) + s
    ensures forall i :: op + |s| <= i < out.Length ==> out[i] == old(out[i])
  {
    var i := 0;
    while i < |s|
      invariant 0 <= i <= |s|
      invariant out[..op + i] == old(out[..op]) + s[..i]
      invariant forall j :: op + i <= j < out.Length ==> out[j] == old(out[j])
    {
      out[op + i] := s[i];
      i := i + 1;
      assert out[..op + i] == old(out[..op]) + s[..i];
    }
  }

  /** Byte by byte, so that a reference may overlap what it is producing. */
  method CopyBack(out: array<byte>, ref0: nat, op0: nat, n: nat) returns (op: nat)
    requires ref0 < op0 && op0 + n <= out.Length
    modifies out
    ensures op == op0 + n && out[..op] == Repeat(old(out[..op0]), op0 - ref0, n)
    ensures forall i :: op <= i < out.Length ==> out[i] == old(out[i])
  {
    hide Repeat;
    var ref, remaining := ref0, n;
    op := op0;
    ghost var start, d := out[..op0], op0 - ref0;
    while remaining > 0
      invariant 0 <= remaining <= n && op == op0 + (n - remaining) && ref == op - d
      invariant Repeat(start, d, n) == Repeat(out[..op], d, remaining)
      invariant forall j :: op <= j < out.Length ==> out[j] == old(out[j])
    {
      ghost var sofar := out[..op];
      RepeatStep(sofar, d, remaining);
      out[op] := out[ref];
      op := op + 1;
      assert out[..op] == sofar + [sofar[|sofar| - d]];
      ref := ref + 1;
      remaining := remaining - 1;
    }
    RepeatNone(out[..op], d);
  }

  lemma RepeatStep(out: Bytes, d: nat, n: nat)
    requires 1 <= d <= |out| && n > 0
    ensures Repeat(out, d, n) == Repeat(out + [out[|out| - d]], d, n - 1)
  {
  }

  lemma RepeatNone(out: Bytes, d: nat)
    requires 1 <= d <= |out|
    ensures Repeat(out, d, 0) == out
  {
  }
}
