/**
 The encodings are canonical: among all the bytes a reader takes for a value, the writer picks the
 shortest, and no other bytes of that length mean the same (src/core/rdb.rs, src/core/listpack.rs).
 */
module Canonical {
  import opened Bits
  import opened Words
  import opened RdbStringSpec
  import opened ListpackSpec
  import JournalCodec
  import LzfSpec

  // ---- words ----

  lemma {:induction false} BeUnique(b: Bytes)
    ensures Be(FromBe(b), |b|) == b && FromBe(b) < Power(256, |b|)
    decreases |b|
  {
    if b != [] {
      var n := |b| - 1;
      BeUnique(b[..n]);
      BeSplit(FromBe(b[..n]), b[n]);
      assert b == b[..n] + [b[n]];
    }
  }

  lemma BeSplit(hi: nat, lo: nat)
    requires lo < 256
    ensures Words.Shifted(hi, lo) / 256 == hi && Words.Shifted(hi, lo) % 256 == lo
  {
  }

  lemma {:induction false} LeUnique(b: Bytes)
    ensures Le(FromLe(b), |b|) == b && FromLe(b) < Power(256, |b|)
    decreases |b|
  {
    if b != [] {
      LeUnique(b[1..]);
      BeSplit(FromLe(b[1..]), b[0]);
      assert b == [b[0]] + b[1..];
    }
  }

  /** The word of a signed value is its only one. */
  lemma WrapSigned(u: nat, m: nat)
    requires u < m && m % 2 == 0
    ensures Wrap(Signed(u, m), m) == u && Fits(Signed(u, m), m)
  {
    if 2 * u >= m {
      ModUnique(u - m, m, -1, u);
    } else {
      ModUnique(u, m, 0, u);
    }
  }

  // ---- lengths ----

  /** Whatever reads as a length is at least as long as what is written for it, and equal to it if as long. */
  lemma LengthShortest(b: Bytes, len: nat)
    requires ReadLen(b) == Good(Len(len, false), [])
    ensures len < TWO64 && |b| >= |SavedLen(len)| && (|b| == |SavedLen(len)| ==> b == SavedLen(len))
  {
    hide FromBe, Be, Power;
    Widths();
    if b[0] < 0x40 {
      assert b == [b[0]] + b[1..];
    } else if b[0] < 0x80 {
      assert b == [b[0], b[1]] + b[2..];
      FieldBack(b[0], b[1]);
    } else {
      var k := if b[0] == 0x80 then 4 else 8;
      assert b[1..][..k] == b[1..];
      BeUnique(b[1..]);
      assert b == [b[0]] + b[1..];
    }
  }

  lemma FieldBack(first: nat, low: nat)
    requires 64 <= first < 128 && low < 256
    ensures Field(first, low) < 0x4000 && 64 + Field(first, low) / 256 == first && Field(first, low) % 256 == low
  {
  }

  // ---- listpack elements ----

  /** The same for an integer element. */
  lemma IntegerShortest(b: Bytes, v: int)
    requires EntryOf(b) == Some(Int(v)) && SizeOf(b) == Some(|b|)
    ensures IsI64(v) && |b| >= |EncodedInt(v)| && (|b| == |EncodedInt(v)| ==> b == EncodedInt(v))
  {
    hide FromLe, Le, Power, Signed, Wrap;
    SmallSigned(v);
    if b[0] < 0x80 {
      assert b == [b[0]];
    } else if b[0] < 0xE0 {
      var u := ListpackSpec.Join(b[0] % 32, b[1]);
      TagBack(b[0], b[1]);
      WrapSigned(u, 0x2000);
      assert b == [b[0], b[1]];
    } else {
      var k := |b| - 1;
      var m := if k == 2 then 0x1_0000 else if k == 3 then 0x100_0000 else if k == 4 then TWO32 else TWO64;
      Widths();
      assert b[1..1 + k] == b[1..];
      LeUnique(b[1..]);
      WrapSigned(FromLe(b[1..]), m);
      assert b == [b[0]] + b[1..];
    }
  }

  lemma SmallSigned(v: int)
    ensures Fits(v, 0x2000) ==> Fits(v, 0x1_0000)
    ensures 0 <= v <= 127 ==> Fits(v, 0x2000)
    ensures Fits(v, 0x1_0000) ==> Fits(v, 0x100_0000)
    ensures Fits(v, 0x100_0000) ==> Fits(v, TWO32)
    ensures Fits(v, TWO32) ==> Fits(v, TWO64)
  {
  }

  lemma TagBack(first: nat, low: nat)
    requires 0xC0 <= first < 0xE0 && low < 256
    ensures var u := ListpackSpec.Join(first % 32, low); u < 0x2000 && 0xC0 + u / 256 == first && u % 256 == low
  {
  }

  /** And for a string element. */
  lemma StringShortest(b: Bytes, s: Bytes)
    requires EntryOf(b) == Some(Str(s)) && SizeOf(b) == Some(|b|)
    ensures |s| < TWO32 && |b| >= |StrHead(|s|)| + |s|
    ensures |b| == |StrHead(|s|)| + |s| ==> b == StrHead(|s|) + s
  {
    hide FromLe, Le, Power;
    var n := |s|;
    if b[0] < 0xC0 {
      assert b == [b[0]] + b[1..];
      assert b[1..1 + n] == b[1..];
    } else if b[0] < 0xF0 {
      StringTagBack(b[0], b[1]);
      assert b == [b[0], b[1]] + b[2..];
      assert b[2..2 + n] == b[2..];
    } else {
      LongString(b, s);
    }
  }

  lemma LongString(b: Bytes, s: Bytes)
    requires |b| >= 5 && b[0] == 0xF0 && |b| == 5 + FromLe(b[1..5]) && s == b[5..]
    ensures |s| < TWO32 && |b| >= |StrHead(|s|)| + |s|
    ensures |b| == |StrHead(|s|)| + |s| ==> b == StrHead(|s|) + s
  {
    hide FromLe, Le, Power;
    Widths();
    LeUnique(b[1..5]);
    assert b == [b[0]] + b[1..5] + b[5..];
  }

  lemma StringTagBack(first: nat, low: nat)
    requires 0xE0 <= first < 0xF0 && low < 256
    ensures var u := ListpackSpec.Join(first % 16, low); u < 4096 && 0xE0 + u / 256 == first && u % 256 == low
  {
  }

  // ---- the length behind an element ----

  /** The number of seven-bit groups a length needs. */
  function GroupsNeeded(l: nat): nat
  {
    if l < 128 then 1 else 1 + GroupsNeeded(l / 128)
  }

  /**
   A backward length takes as few bytes as it can, except for three lengths: 2^14 - 1, 2^21 - 1 and
   2^28 - 1 take one byte more, since the comparisons there are strict.
   */
  lemma BacklenShortest(l: nat)
    requires l < TWO32 + 5
    ensures |Backlen(l)| == GroupsNeeded(l) + if l == 16383 || l == 2097151 || l == 268435455 then 1 else 0
  {
    hide GroupsNeeded;
    GroupsStep(l);
    GroupsStep(l / 128);
    GroupsStep(l / 128 / 128);
    GroupsStep(l / 128 / 128 / 128);
    GroupsStep(l / 128 / 128 / 128 / 128);
  }

  lemma GroupsStep(l: nat)
    ensures GroupsNeeded(l) == if l < 128 then 1 else 1 + GroupsNeeded(l / 128)
  {
  }

  // ---- fixed bytes of the formats ----

  /** The bytes of a length: six or fourteen bits behind a two-bit tag, or a tag byte and 32 or 64 bits, big-endian. */
  lemma LengthBytes(len: nat)
    requires len < TWO64
    ensures len < 64 ==> SavedLen(len) == [len]
    ensures 64 <= len < 16384 ==> SavedLen(len) == [64 + len / 256, len % 256]
    ensures 16384 <= len < 0x1_0000_0000 ==>
              SavedLen(len) == [0x80, len / 0x100_0000 % 256, len / 0x1_0000 % 256, len / 256 % 256, len % 256]
    ensures 0x1_0000_0000 <= len ==>
              var h := len / 0x1_0000_0000;
              SavedLen(len) == [0x81, h / 0x100_0000 % 256, h / 0x1_0000 % 256, h / 256 % 256, h % 256,
                                len / 0x100_0000 % 256, len / 0x1_0000 % 256, len / 256 % 256, len % 256]
  {
    hide Be;
    if len >= 0x1_0000_0000 {
      BeEight(len);
      BeFour(len / 0x1_0000_0000);
      BeFour(len);
    } else if len >= 16384 {
      BeFour(len);
    }
  }

  lemma BeFour(v: nat)
    ensures Be(v, 4) == [v / 0x100_0000 % 256, v / 0x1_0000 % 256, v / 256 % 256, v % 256]
  {
    BeTwo(v / 0x1_0000);
    BeTwo(v);
    assert v / 256 / 256 == v / 0x1_0000 && v / 0x1_0000 / 256 == v / 0x100_0000;
    assert Be(v, 4) == Be(v / 256 / 256, 2) + [Low(v / 256)] + [Low(v)];
  }

  lemma BeTwo(v: nat)
    ensures Be(v, 2) == [v / 256 % 256, v % 256]
  {
    assert Be(v / 256 / 256, 0) == [];
  }

  lemma BeEight(v: nat)
    ensures Be(v, 8) == Be(v / 0x1_0000_0000, 4) + Be(v, 4)
  {
    var a, b, c, d := v / 256, v / 0x1_0000, v / 0x100_0000, v / 0x1_0000_0000;
    assert a / 256 == b && b / 256 == c && c / 256 == d;
    assert Be(v, 8) == Be(b, 6) + [Low(a)] + [Low(v)];
    assert Be(b, 6) == Be(d, 4) + [Low(c)] + [Low(b)];
    BeFour(v);
  }

  /** Elements of five kinds: 7, 13 and 24-bit integers, and a short and a longer string. */
  lemma SmallIntegerBytes()
    ensures Element(Int(19)) == [19, 1] && Element(Int(-1234)) == [0xDB, 0x2E, 2]
  {
    hide Le;
    assert Wrap(-1234, 0x2000) == 6958 by { ModUnique(-1234, 0x2000, -1, 6958); }
  }

  lemma WideIntegerBytes()
    ensures Element(Int(70000)) == [0xF2, 0x70, 0x11, 0x01, 4]
  {
    hide Le;
    LeThree(70000);
  }

  lemma StringBytes(s: Bytes)
    ensures |s| == 4 ==> Element(Str(s)) == [0x84] + s + [5]
    ensures |s| == 300 ==> Element(Str(s)) == [0xE1, 0x2C] + s + [2, 0xAE]
  {
    hide Le, Groups;
    if |s| == 4 {
      OneGroup(5);
    }
    if |s| == 300 {
      OneGroup(2);
      TwoGroups(302);
    }
  }

  lemma OneGroup(l: nat)
    requires l < 128
    ensures Groups(l, 1) == [l]
  {
  }

  lemma TwoGroups(l: nat)
    requires 128 <= l < 16383
    ensures Groups(l, 2) == [l / 128, 128 + l % 128]
  {
    OneGroup(l / 128);
  }

  lemma EmptyBytes()
    ensures ListpackSpec.Packed([]) == [7, 0, 0, 0, 0, 0, 0xFF]
  {
    LeThree(7);
    LeThree(0);
    assert Le(7, 4) == [Low(7)] + Le(0, 3);
    assert Le(0, 2) == Le(0, 3)[..2];
  }

  lemma LeThree(v: nat)
    ensures Le(v, 3) == [v % 256, v / 256 % 256, v / 256 / 256 % 256]
    ensures Le(v, 2) == [v % 256, v / 256 % 256]
  {
    assert Le(v / 256 / 256 / 256, 0) == [];
    assert Le(v / 256 / 256, 1) == [Low(v / 256 / 256)] + [];
    assert Le(v / 256, 2) == [Low(v / 256)] + Le(v / 256 / 256, 1);
    assert Le(v / 256, 1) == [Low(v / 256)] + [];
  }

  /** Journal records: a sequence number and a ping. */
  lemma JournalMarks(cur: Option<nat>)
    ensures JournalCodec.TotalLength([[]] + []) == 0
    ensures JournalCodec.Written(JournalCodec.Record(15, 0, 0, 300, [], []), cur) == [15, 0x41, 0x2C]
    ensures JournalCodec.Written(JournalCodec.Record(13, 0, 0, 0, [], []), cur) == [13]
  {
    hide SavedLen;
    LengthBytes(300);
    OneEmptyWord();
  }

  lemma OneEmptyWord()
    ensures JournalCodec.TotalLength([[]] + []) == 0
  {
    var none: seq<Bytes> := [[]];
    assert none + [] == none && none[1..] == [];
  }

  lemma TwoWords(cmd: Bytes, key: Bytes)
    requires |cmd| == 3 && |key| == 1
    ensures JournalCodec.TotalLength([cmd] + [key]) == 4
    ensures JournalCodec.WordList([cmd] + [key]) == [3] + cmd + ([1] + key)
  {
    var words := [cmd] + [key];
    assert words[1..] == [key] && [key][1..] == [];
    assert JournalCodec.WordList([key]) == [1] + key + [];
  }

  /** A command on database 1 after another one was selected, with three bytes of name and one of argument. */
  lemma JournalCommand(cmd: Bytes, key: Bytes, cur: Option<nat>)
    requires |cmd| == 3 && |key| == 1 && cur != Some(1)
    ensures JournalCodec.TotalLength([cmd] + [key]) == 4
    ensures JournalCodec.Written(JournalCodec.Record(10, 1, 7, 0, cmd, [key]), cur) == [6, 1, 10, 7, 1, 2, 4, 3] + cmd + [1] + key
  {
    hide SavedLen, JournalCodec.WordList, JournalCodec.TotalLength;
    TwoWords(cmd, key);
    OneByteLengths();
    Arrange(cmd, key);
  }

  lemma OneByteLengths()
    ensures SavedLen(1) == [1] && SavedLen(2) == [2] && SavedLen(4) == [4] && SavedLen(7) == [7]
  {
  }

  lemma Arrange(cmd: Bytes, key: Bytes)
    ensures var s: Bytes := [6]; var t: Bytes := [10];
            s + [1] + (t + ([7] + [1] + ([2] + [4] + ([3] + cmd + ([1] + key))))) == [6, 1, 10, 7, 1, 2, 4, 3] + cmd + [1] + key
  {
  }

  /** Three literals, and a copy of six bytes from three back that overlaps itself. */
  lemma LzfBytes(a: byte, b: byte, c: byte)
    ensures LzfSpec.Decompress([2, a, b, c, 0x80, 2], 9) == Some([a, b, c, a, b, c, a, b, c])
  {
    hide LzfSpec.Repeat;
    var s: Bytes := [2, a, b, c, 0x80, 2];
    var out: Bytes := [a, b, c];
    var all := out + out + out;
    assert LzfSpec.First(s, []) == Some((4, out)) by {
      assert [] + s[1..4] == out;
    }
    assert s[4..] == [0x80, 2];
    SixCopied(a, b, c);
    assert LzfSpec.First([0x80, 2], out) == Some((2, all));
    assert [0x80, 2][2..] == [];
    assert LzfSpec.Inflate([0x80, 2], out) == LzfSpec.Inflate([], all) == Some(all);
    assert LzfSpec.Inflate(s, []) == Some(all);
    assert all + Zeros(0) == [a, b, c, a, b, c, a, b, c];
  }

  lemma SixCopied(a: byte, b: byte, c: byte)
    ensures LzfSpec.Repeat([a, b, c], 3, 6) == [a, b, c] + [a, b, c] + [a, b, c]
  {
    var data: Bytes := [a, b, c] + [a, b, c] + [a, b, c];
    forall k | 0 <= k < 6
      ensures LzfSpec.SameAt(data, 0, 3, k)
    {
    }
    LzfSpec.RepeatCopies(data, 0, 3, 6);
    assert data[..3] == [a, b, c] && data[..9] == data;
  }
}
