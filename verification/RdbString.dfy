/**
 Lengths and strings of the RDB format (src/core/rdb.rs): four length widths, and strings stored as
 packed integers, LZF-compressed or verbatim. Reading inverts writing, with one exact exception.
 */
module RdbStringSpec {
  import opened Bits
  import opened Words
  import opened Decimal
  import LzfSpec
  import LzfRuns

  /** A value read off the front of the input, and what is left; or BadDataFormat. */
  datatype Parse<+T> = Bad | Good(value: T, rest: Bytes)

  const MAX_LZF_OUTPUT: nat := 0x2000_0000

  // ---- lengths ----

  function SixBit(len: nat): (b: byte)
    requires len < 64
  {
    len
  }

  function FourteenBit(len: nat): (b: Bytes)
    requires len < 0x4000
  {
    [64 + len / 256, len % 256]
  }

  function SavedLen(len: nat): (b: Bytes)
    requires len < TWO64
    ensures b != []
  {
    if len < 0x40 then [SixBit(len)]
    else if len < 0x4000 then FourteenBit(len)
    else if len < 0x1_0000_0000 then [0x80] + Be(len, 4)
    else [0x81] + Be(len, 8)
  }

  function Exact(b: Bytes, n: nat): Parse<Bytes> {
    if n <= |b| then Good(b[..n], b[n..]) else Bad
  }

  function Number(p: Parse<Bytes>): Parse<nat> {
    if p.Bad? then Bad else Good(FromBe(p.value), p.rest)
  }

  function Field(first: nat, low: nat): nat { first % 64 * 256 + low }

  /** The value, and whether it is the tag of a specially encoded string. */
  datatype Len = Len(value: nat, encoded: bool)

  function ReadLen(b: Bytes): (r: Parse<Len>)
  {
    if b == [] then Bad
    else if b[0] < 0x40 then Good(Len(b[0], false), b[1..])
    else if b[0] < 0x80 then
      if |b| < 2 then Bad else Good(Len(Field(b[0], b[1]), false), b[2..])
    else if b[0] < 0xC0 then
      var n := if b[0] == 0x80 then Number(Exact(b[1..], 4)) else if b[0] == 0x81 then Number(Exact(b[1..], 8)) else Bad;
      if n.Bad? then Bad else Good(Len(n.value, false), n.rest)
    else Good(Len(b[0] % 64, true), b[1..])
  }

  lemma ReadLenSaved(len: nat, rest: Bytes)
    requires len < TWO64
    ensures ReadLen(SavedLen(len) + rest) == Good(Len(len, false), rest)
  {
    var b := SavedLen(len) + rest;
    Widths();
    if len < 0x40 {
      assert b[1..] == rest;
    } else if len < 0x4000 {
      assert b[0] == 64 + len / 256 && b[1] == len % 256 && b[2..] == rest;
      assert Field(64 + len / 256, len % 256) == len;
    } else {
      var k := if len < 0x1_0000_0000 then 4 else 8;
      assert b[1..][..k] == Be(len, k) && b[1..][k..] == rest;
      BeInverse(len, k);
    }
  }

  // ---- integers stored as strings ----

  /** The shortest of the three packed widths, tag first; None beyond 32 bits. */
  function PackedInteger(v: int): Option<Bytes> {
    if Fits(v, 0x100) then Some([0xC0] + Le(Wrap(v, 0x100), 1))
    else if Fits(v, 0x1_0000) then Some([0xC1] + Le(Wrap(v, 0x1_0000), 2))
    else if Fits(v, 0x1_0000_0000) then Some([0xC2] + Le(Wrap(v, 0x1_0000_0000), 4))
    else None
  }

  function TryInteger(s: Bytes): Option<Bytes> {
    if |s| > 11 then None
    else
      var v := Parsed(s);
      if v.None? || Printed(v.value) != s then None else PackedInteger(v.value)
  }

  // ---- strings ----

  /**
   Whether `s` goes out compressed. The floating-point share test is an arbitrary `worth` of the
   two lengths.
   */
  predicate Compressible(s: Bytes, worth: (nat, nat) -> bool) {
    && TryInteger(s).None? && |s| > 20
    && var c := LzfSpec.Compress(s);
       c.Some? && |c.value| + 8 < |s| && worth(|c.value|, |s|)
  }

  function SavedString(s: Bytes, worth: (nat, nat) -> bool): Bytes
    requires |s| < TWO64
  {
    if TryInteger(s).Some? then TryInteger(s).value
    else if Compressible(s, worth) then
      var c := LzfSpec.Compress(s).value;
      [0xC3] + SavedLen(|c|) + SavedLen(|s|) + c
    else SavedLen(|s|) + s
  }

  function ReadInteger(b: Bytes, k: nat, m: nat): Parse<Bytes> {
    var p := Exact(b, k);
    if p.Bad? then Bad else Good(Printed(Signed(FromLe(p.value), m)), p.rest)
  }

  function ReadCompressed(b: Bytes): Parse<Bytes> {
    var c := ReadLen(b);
    if c.Bad? then Bad else
    var u := ReadLen(c.rest);
    if u.Bad? then Bad else
    var clen, ulen := c.value.value, u.value.value;
    if clen == 0 || ulen <= clen || ulen > MAX_LZF_OUTPUT then Bad else
    var comp := Exact(u.rest, clen);
    if comp.Bad? then Bad else
    var d := LzfSpec.Decompress(comp.value, ulen);
    if d.None? then Bad else Good(d.value, comp.rest)
  }

  function ReadString(b: Bytes): Parse<Bytes> {
    var l := ReadLen(b);
    if l.Bad? then Bad
    else if !l.value.encoded then Exact(l.rest, l.value.value)
    else
      match l.value.value
      case 0 => ReadInteger(l.rest, 1, 0x100)
      case 1 => ReadInteger(l.rest, 2, 0x1_0000)
      case 2 => ReadInteger(l.rest, 4, 0x1_0000_0000)
      case 3 => ReadCompressed(l.rest)
      case _ => Bad
  }

  lemma ReadPacked(v: int, rest: Bytes)
    requires PackedInteger(v).Some?
    ensures ReadString(PackedInteger(v).value + rest) == Good(Printed(v), rest)
  {
    var p := PackedInteger(v).value;
    var k := |p| - 1;
    var m := if k == 1 then 0x100 else if k == 2 then 0x1_0000 else 0x1_0000_0000;
    assert p == [p[0]] + Le(Wrap(v, m), k);
    Widths();
    SignedWrap(v, m);
    LeInverse(Wrap(v, m), k);
    var b := p + rest;
    assert b[1..][..k] == Le(Wrap(v, m), k) && b[1..][k..] == rest;
  }

  lemma ReadTagged(tag: byte, rest: Bytes)
    requires tag >= 0xC0
    ensures ReadLen([tag] + rest) == Good(Len(tag % 64, true), rest)
  {
    assert ([tag] + rest)[1..] == rest;
  }

  lemma ReadSavedCompressed(s: Bytes, c: Bytes, rest: Bytes)
    requires LzfSpec.Compress(s) == Some(c) && |c| < |s| < TWO64
    ensures ReadString([0xC3] + SavedLen(|c|) + SavedLen(|s|) + c + rest) ==
            if |s| <= MAX_LZF_OUTPUT then Good(s, rest) else Bad
  {
    hide SavedLen, ReadLen, LzfSpec.Compress, LzfSpec.Decompress;
    assert c != [] by { LzfSpec.RoundTrip(s); }
    var t := SavedLen(|s|) + (c + rest);
    assert [0xC3] + SavedLen(|c|) + SavedLen(|s|) + c + rest == [0xC3] + (SavedLen(|c|) + t);
    ReadTagged(0xC3, SavedLen(|c|) + t);
    ReadLenSaved(|c|, t);
    ReadLenSaved(|s|, c + rest);
    LzfSpec.RoundTrip(s);
    assert (c + rest)[..|c|] == c && (c + rest)[|c|..] == rest;
  }

  lemma ReadSavedVerbatim(s: Bytes, rest: Bytes)
    requires |s| < TWO64
    ensures ReadString(SavedLen(|s|) + s + rest) == Good(s, rest)
  {
    assert SavedLen(|s|) + s + rest == SavedLen(|s|) + (s + rest);
    ReadLenSaved(|s|, s + rest);
    assert (s + rest)[..|s|] == s && (s + rest)[|s|..] == rest;
  }

  /** The reader refuses to decompress to more than 2^29 bytes. */
  predicate Restorable(s: Bytes, worth: (nat, nat) -> bool) { Compressible(s, worth) ==> |s| <= MAX_LZF_OUTPUT }

  /**
   Every string reads back as itself and reading stops exactly at the rest, if and only if it did
   not go out compressed from more than 2^29 bytes; those are refused.
   */
  lemma StringRoundTrip(s: Bytes, worth: (nat, nat) -> bool, rest: Bytes)
    requires |s| < TWO64
    ensures ReadString(SavedString(s, worth) + rest) == if Restorable(s, worth) then Good(s, rest) else Bad
  {
    hide ReadString, LzfSpec.Compress, SavedLen;
    if TryInteger(s).Some? {
      ReadPacked(Parsed(s).value, rest);
    } else if Compressible(s, worth) {
      ReadSavedCompressed(s, LzfSpec.Compress(s).value, rest);
    } else {
      ReadSavedVerbatim(s, rest);
    }
  }

  /** Refused strings exist: any long enough run of zeros, when the saver finds a size of about 1/88 worth while. */
  lemma LongRunRefused(s: Bytes, worth: (nat, nat) -> bool, rest: Bytes)
    requires LzfRuns.Zero(s) && MAX_LZF_OUTPUT < |s| < TWO32
    requires forall n: nat :: 88 * n <= |s| + 1054 ==> worth(n, |s|)
    ensures !Restorable(s, worth) && ReadString(SavedString(s, worth) + rest) == Bad
  {
    hide LzfSpec.Compress, LzfRuns.Zero, ReadString, SavedString;
    LzfRuns.ZerosCompress(s);
    StringRoundTrip(s, worth, rest);
  }

  /**
   The saver's own test is such a one: it compresses when the result is shorter than 0.85 times the length, computed
   in floating point and truncated to `cut`, which is at most two bytes below the exact share.
   */
  lemma ShareTestRefuses(s: Bytes, cut: nat -> nat, rest: Bytes)
    requires LzfRuns.Zero(s) && MAX_LZF_OUTPUT < |s| < TWO32
    requires 17 * |s| - 40 <= 20 * cut(|s|) <= 17 * |s|
    ensures var worth := (n: nat, m: nat) => n < cut(m);
            !Restorable(s, worth) && ReadString(SavedString(s, worth) + rest) == Bad
  {
    hide LzfRuns.Zero, ReadString, SavedString, Restorable;
    LongRunRefused(s, (n: nat, m: nat) => n < cut(m), rest);
  }
}

/** The appending writer and the reading cursor, each against its specification above. */
module RdbString {
  import opened Bits
  import opened Words
  import opened Decimal
  import opened RdbStringSpec
  import Lzf

  method WriteLen(out: Bytes, len: nat) returns (r: Bytes)
    requires len < TWO64
    ensures r == out + SavedLen(len)
  {
    if len < 0x40 {
      r := out + [SixBit(len)];
    } else if len < 0x4000 {
      r := out + FourteenBit(len);
    } else if len < 0x1_0000_0000 {
      r := out + ([0x80] + Be(len, 4));
    } else {
      r := out + ([0x81] + Be(len, 8));
    }
  }

  method TryIntegerEncoding(s: Bytes) returns (r: Option<Bytes>)
    ensures r == TryInteger(s)
  {
    if |s| > 11 {
      return None;
    }
    var v := String2ll(s);
    if v.None? {
      return None;
    }
    ParsedIff(s, v.value);
    var printed := Itoa(v.value);
    r := if printed != s then None else PackedInteger(v.value);
  }

  method SaveString(out: Bytes, s: Bytes, worth: (nat, nat) -> bool) returns (r: Bytes)
    requires |s| < TWO64
    ensures r == out + SavedString(s, worth)
  {
    hide SavedLen, TryInteger, LzfSpec.Compress;
    if |s| <= 11 {
      var enc := TryIntegerEncoding(s);
      if enc.Some? {
        return out + enc.value;
      }
    }
    NotInteger(s);
    if |s| > 20 {
      var c := Lzf.CompressBuffer(s);
      if c.Some? && |c.value| + 8 < |s| && worth(|c.value|, |s|) {
        r := WriteLen(out + [0xC3], |c.value|);
        r := WriteLen(r, |s|);
        assert r + c.value == out + ([0xC3] + SavedLen(|c.value|) + SavedLen(|s|) + c.value);
        return r + c.value;
      }
    }
    r := WriteLen(out, |s|);
    assert r + s == out + (SavedLen(|s|) + s);
    r := r + s;
  }

  lemma NotInteger(s: Bytes)
    ensures |s| > 11 ==> TryInteger(s).None?
  {
  }

  /** A cursor over the bytes of a payload. */
  class Reader {
    const data: Bytes
    var pos: nat

    ghost predicate Valid()
      reads this
    {
      pos <= |data|
    }

    constructor (data: Bytes)
      ensures this.data == data && pos == 0 && Valid()
    {
      this.data := data;
      pos := 0;
    }

    /** The cursor stands where specification `p` says its input ends. */
    ghost predicate At<T>(r: Option<T>, p: Parse<T>)
      reads this
    {
      && Valid()
      && (p.Bad? <==> r.None?)
      && (p.Good? ==> r == Some(p.value) && data[pos..] == p.rest)
    }

    method ReadU8() returns (r: Option<byte>)
      requires Valid()
      modifies this
      ensures Valid() && r.Some? == (old(pos) < |data|)
      ensures r.Some? ==> r.value == data[old(pos)] && pos == old(pos) + 1
    {
      if pos >= |data| {
        return None;
      }
      r := Some(data[pos]);
      pos := pos + 1;
    }

    method ReadExact(n: nat) returns (r: Option<Bytes>)
      requires Valid()
      modifies this
      ensures At(r, Exact(data[old(pos)..], n))
    {
      var end := pos + n;
      if end > |data| {
        return None;
      }
      r := Some(data[pos..end]);
      assert data[pos..][..n] == data[pos..end] && data[pos..][n..] == data[end..];
      pos := end;
    }

    method ReadLength() returns (r: Option<Len>)
      requires Valid()
      modifies this
      ensures At(r, ReadLen(data[old(pos)..]))
    {
      ghost var b := data[pos..];
      var first := ReadU8();
      if first.None? {
        return None;
      }
      assert data[pos..] == b[1..];
      var f: nat := first.value;
      if f < 0x40 {
        r := Some(Len(f, false));
      } else if f < 0x80 {
        var lo := ReadU8();
        if lo.None? {
          return None;
        }
        assert data[pos..] == b[2..];
        r := Some(Len(Field(f, lo.value), false));
      } else if f < 0xC0 {
        if f != 0x80 && f != 0x81 {
          return None;
        }
        var s := ReadExact(if f == 0x80 then 4 else 8);
        if s.None? {
          return None;
        }
        r := Some(Len(FromBe(s.value), false));
      } else {
        r := Some(Len(f % 64, true));
      }
    }

    method ReadStr() returns (r: Option<Bytes>)
      requires Valid()
      modifies this
      ensures At(r, ReadString(data[old(pos)..]))
    {
      hide ReadLen;
      var l := ReadLength();
      if l.None? {
        return None;
      }
      if !l.value.encoded {
        r := ReadExact(l.value.value);
        return;
      }
      match l.value.value {
        case 0 => r := ReadInt(1, 0x100);
        case 1 => r := ReadInt(2, 0x1_0000);
        case 2 => r := ReadInt(4, 0x1_0000_0000);
        case 3 => r := ReadLzf();
        case _ => r := None;
      }
    }

    method ReadInt(k: nat, m: nat) returns (r: Option<Bytes>)
      requires Valid() && m <= TWO64 && Power(256, k) == m
      modifies this
      ensures At(r, ReadInteger(data[old(pos)..], k, m))
    {
      var s := ReadExact(k);
      if s.None? {
        return None;
      }
      FromLeBound(s.value);
      var t := Itoa(Signed(FromLe(s.value), m));
      r := Some(t);
    }

    method ReadLzf() returns (r: Option<Bytes>)
      requires Valid()
      modifies this
      ensures At(r, ReadCompressed(data[old(pos)..]))
    {
      hide ReadLen, LzfSpec.Decompress;
      var c := ReadLength();
      if c.None? {
        return None;
      }
      var u := ReadLength();
      if u.None? {
        return None;
      }
      var clen, ulen := c.value.value, u.value.value;
      if clen == 0 || ulen <= clen || ulen > MAX_LZF_OUTPUT {
        return None;
      }
      var comp := ReadExact(clen);
      if comp.None? {
        return None;
      }
      r := Lzf.DecompressBuffer(comp.value, ulen);
    }
  }
}
