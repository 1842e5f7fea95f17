/**
 The packed list of src/core/listpack.rs: each element is a tagged encoding followed by its own
 length written backwards. What the bytes of a list are, and what validating and reading them give.
 */
module ListpackSpec {
  import opened Bits
  import opened Words
  import opened Decimal

  const HEADER: nat := 6
  const EOF: byte := 0xFF
  const UNKNOWN: nat := 0xFFFF

  /** A decoded element. */
  datatype Entry = Int(v: int) | Str(s: Bytes)

  predicate EntryOk(e: Entry) {
    match e
    case Int(v) => IsI64(v)
    case Str(s) => |s| < TWO32
  }

  /** How a byte string is stored: as an integer whenever it is the printed form of one. */
  function Stored(s: Bytes): (e: Entry)
    ensures |s| < TWO32 ==> EntryOk(e)
  {
    if Parsed(s).Some? then (PrintedParsed(s); Int(Parsed(s).value)) else Str(s)
  }

  /** How an element reads back as a byte string. */
  function Text(e: Entry): Bytes { if e.Int? then Printed(e.v) else e.s }

  lemma TextStored(s: Bytes)
    ensures Text(Stored(s)) == s
  {
    if Parsed(s).Some? { PrintedParsed(s); }
  }

  // ---- one element ----

  function Tag(t: nat, v: nat): (b: byte)
    requires t + v < 256
  {
    t + v
  }

  function EncodedInt(v: int): (b: Bytes)
    requires IsI64(v)
    ensures 1 <= |b| <= 9
  {
    if 0 <= v <= 127 then [Tag(0, v)]
    else if Fits(v, 0x2000) then [Tag(0xC0, Wrap(v, 0x2000) / 256), Low(Wrap(v, 0x2000))]
    else if Fits(v, 0x1_0000) then [0xF1] + Le(Wrap(v, 0x1_0000), 2)
    else if Fits(v, 0x100_0000) then [0xF2] + Le(Wrap(v, 0x100_0000), 3)
    else if Fits(v, TWO32) then [0xF3] + Le(Wrap(v, TWO32), 4)
    else [0xF4] + Le(Wrap(v, TWO64), 8)
  }

  function StrHead(n: nat): (b: Bytes)
    requires n < TWO32
    ensures 1 <= |b| <= 5
  {
    if n < 64 then [Tag(0x80, n)]
    else if n < 4096 then [Tag(0xE0, n / 256), Low(n)]
    else [0xF0] + Le(n, 4)
  }

  function Encoded(e: Entry): (b: Bytes)
    requires EntryOk(e)
    ensures 1 <= |b| < TWO32 + 5
  {
    if e.Int? then EncodedInt(e.v) else StrHead(|e.s|) + e.s
  }

  // ---- the length behind each element ----

  function BacklenSize(l: nat): nat {
    if l <= 127 then 1
    else if l < 16383 then 2
    else if l < 2_097_151 then 3
    else if l < 268_435_455 then 4
    else 5
  }

  /** Groups of seven bits, most significant first, a continuation bit on all but the first. */
  function Groups(l: nat, n: nat): (b: Bytes)
    requires n >= 1
    ensures |b| == n
  {
    if n == 1 then [Low(l)] else Groups(l / 128, n - 1) + [Tag(128, l % 128)]
  }

  function Backlen(l: nat): Bytes { Groups(l, BacklenSize(l)) }

  function Group(low: nat, high: nat): nat { low % 128 + 128 * high }

  /** The length that ends at `pos`, read backwards; `k` groups have been read. */
  function BackwardLength(buf: Bytes, pos: nat, k: nat): Option<nat>
    requires k <= 4
    decreases 4 - k
  {
    if pos >= |buf| then None
    else if buf[pos] < 128 then Some(buf[pos])
    else if pos == 0 || k == 4 then None
    else
      var r := BackwardLength(buf, pos - 1, k + 1);
      if r.None? then None else Some(Group(buf[pos], r.value))
  }

  lemma {:induction false} BackwardGroups(buf: Bytes, start: nat, k: nat, l: nat, n: nat)
    requires 1 <= n && k + n <= 5 && start + n <= |buf| && l < Power(128, n)
    requires buf[start..start + n] == Groups(l, n)
    ensures BackwardLength(buf, start + n - 1, k) == Some(l)
    decreases n
  {
    assert buf[start + n - 1] == buf[start..start + n][n - 1];
    if n > 1 {
      assert buf[start..start + n - 1] == buf[start..start + n][..n - 1];
      assert Groups(l, n)[..n - 1] == Groups(l / 128, n - 1);
      assert Power(128, n) == 128 * Power(128, n - 1);
      BackwardGroups(buf, start, k + 1, l / 128, n - 1);
      assert Group(128 + l % 128, l / 128) == l;
    } else {
      assert Power(128, 1) == 128;
    }
  }

  lemma GroupsSuffice(l: nat)
    requires l < TWO32 + 5
    ensures l < Power(128, BacklenSize(l)) && BacklenSize(l) <= 5
  {
    assert Power(128, 1) == 128;
    assert Power(128, 2) == 128 * Power(128, 1);
    assert Power(128, 3) == 128 * Power(128, 2);
    assert Power(128, 4) == 128 * Power(128, 3);
    assert Power(128, 5) == 128 * Power(128, 4);
  }

  // ---- reading one element ----

  function SizeBytes(b: byte): nat {
    if b < 0xC0 then 1
    else if b < 0xE0 then 2
    else if b < 0xF0 then 2
    else if b == 0xF1 then 3
    else if b == 0xF2 then 4
    else if b == 0xF3 then 5
    else if b == 0xF4 then 9
    else if b == 0xF0 then 5
    else if b == EOF then 1 else 0
  }

  function Join(hi: nat, lo: nat): nat { hi * 256 + lo }

  /** Size of the element at the front of `b`, without its backward length. */
  function SizeOf(b: Bytes): Option<nat> {
    if b == [] then None
    else if b[0] < 0x80 then Some(1)
    else if b[0] < 0xC0 then Some(1 + b[0] % 64)
    else if b[0] < 0xE0 then Some(2)
    else if b[0] < 0xF0 then if |b| < 2 then None else Some(2 + Join(b[0] % 16, b[1]))
    else if b[0] == 0xF0 then if |b| < 5 then None else Some(5 + FromLe(b[1..5]))
    else if b[0] == 0xF1 then Some(3)
    else if b[0] == 0xF2 then Some(4)
    else if b[0] == 0xF3 then Some(5)
    else if b[0] == 0xF4 then Some(9)
    else if b[0] == EOF then Some(1)
    else None
  }

  function TakeStr(b: Bytes, head: nat, n: nat): Option<Entry> {
    if |b| < head + n then None else Some(Str(b[head..head + n]))
  }

  function TakeInt(b: Bytes, k: nat, m: nat): Option<Entry> {
    if |b| < 1 + k then None else Some(Int(Signed(FromLe(b[1..1 + k]), m)))
  }

  /** The element at the front of `b`. */
  function EntryOf(b: Bytes): Option<Entry> {
    if b == [] then None
    else if b[0] < 0x80 then Some(Int(b[0]))
    else if b[0] < 0xC0 then TakeStr(b, 1, b[0] % 64)
    else if b[0] < 0xE0 then if |b| < 2 then None else Some(Int(Signed(Join(b[0] % 32, b[1]), 0x2000)))
    else if b[0] == 0xF1 then TakeInt(b, 2, 0x1_0000)
    else if b[0] == 0xF2 then TakeInt(b, 3, 0x100_0000)
    else if b[0] == 0xF3 then TakeInt(b, 4, TWO32)
    else if b[0] == 0xF4 then TakeInt(b, 8, TWO64)
    else if b[0] < 0xF0 then if |b| < 2 then None else TakeStr(b, 2, Join(b[0] % 16, b[1]))
    else if b[0] == 0xF0 then if |b| < 5 then None else TakeStr(b, 5, FromLe(b[1..5]))
    else None
  }

  /** `lpGetInteger`: its own arithmetic, from the unsigned word and the start of the negative range. */
  function Negated(u: nat, start: nat, max: nat): int { if u >= start then -(max - u) - 1 else u }

  function TakeInteger(b: Bytes, k: nat, start: nat, max: nat): Option<int> {
    if |b| < 1 + k then None else Some(Negated(FromLe(b[1..1 + k]), start, max))
  }

  function IntegerOf(b: Bytes): Option<int> {
    if b == [] then None
    else if b[0] < 0x80 then Some(b[0])
    else if b[0] == 0xF1 then TakeInteger(b, 2, 0x8000, 0xFFFF)
    else if b[0] == 0xF2 then TakeInteger(b, 3, 0x80_0000, 0xFF_FFFF)
    else if b[0] == 0xF3 then TakeInteger(b, 4, 0x8000_0000, 0xFFFF_FFFF)
    else if b[0] == 0xF4 then TakeInteger(b, 8, 0x8000_0000_0000_0000, 0xFFFF_FFFF_FFFF_FFFF)
    else if 0xC0 <= b[0] < 0xE0 then
      if |b| < 2 then None else Some(Negated(Join(b[0] % 32, b[1]), 0x1000, 0x1FFF))
    else None
  }

  /** The two integer readers agree on every input, well formed or not. */
  lemma IntegersAgree(b: Bytes, v: int)
    ensures IntegerOf(b) == Some(v) <==> EntryOf(b) == Some(Int(v))
  {
    hide FromLe;
  }

  lemma EncodedIntReads(v: int, tail: Bytes)
    requires IsI64(v)
    ensures var b := EncodedInt(v) + tail;
            EntryOf(b) == Some(Int(v)) && SizeOf(b) == Some(|EncodedInt(v)|) && SizeBytes(b[0]) == |EncodedInt(v)| && b[0] != EOF
  {
    var e := EncodedInt(v);
    var b := e + tail;
    var k := |e| - 1;
    if 0 <= v <= 127 {
    } else if Fits(v, 0x2000) {
      SignedWrap(v, 0x2000);
      var w := Wrap(v, 0x2000);
      assert b[0] == 0xC0 + w / 256 && b[1] == w % 256;
      assert Join(b[0] % 32, b[1]) == w;
    } else {
      var m := if k == 2 then 0x1_0000 else if k == 3 then 0x100_0000 else if k == 4 then TWO32 else TWO64;
      Widths();
      SignedWrap(v, m);
      LeInverse(Wrap(v, m), k);
      hide FromLe, Le, Power;
      assert b[1..1 + k] == Le(Wrap(v, m), k);
    }
  }

  lemma EncodedStrReads(s: Bytes, tail: Bytes)
    requires |s| < TWO32
    ensures var b := StrHead(|s|) + s + tail;
            && EntryOf(b) == Some(Str(s)) && SizeOf(b) == Some(|StrHead(|s|)| + |s|)
            && SizeBytes(b[0]) <= |StrHead(|s|)| + |s| && b[0] != EOF
  {
    var n := |s|;
    var h := StrHead(n);
    var b := h + s + tail;
    assert b[|h|..|h| + n] == s;
    if 64 <= n < 4096 {
      assert b[0] == 0xE0 + n / 256 && b[1] == n % 256 && Join(b[0] % 16, b[1]) == n;
    } else if n >= 4096 {
      Widths();
      LeInverse(n, 4);
      assert b[1..5] == Le(n, 4);
    }
  }

  /** Reading the encoding of an element gives the element and its size. */
  lemma EncodedReads(e: Entry, tail: Bytes)
    requires EntryOk(e)
    ensures var b := Encoded(e) + tail;
            EntryOf(b) == Some(e) && SizeOf(b) == Some(|Encoded(e)|) && SizeBytes(b[0]) <= |Encoded(e)| && b[0] != EOF
            && SizeBytes(b[0]) > 0
  {
    hide EntryOf, SizeOf, SizeBytes, EncodedInt, StrHead;
    match e
    case Int(v) => EncodedIntReads(v, tail); SizeBytesPositive(Encoded(e) + tail);
    case Str(s) => EncodedStrReads(s, tail); SizeBytesPositive(Encoded(e) + tail);
  }

  lemma SizeBytesPositive(b: Bytes)
    requires EntryOf(b).Some?
    ensures SizeBytes(b[0]) > 0
  {
  }

  // ---- whole lists ----

  predicate AllOk(es: seq<Entry>) { forall i :: 0 <= i < |es| ==> EntryOk(es[i]) }

  function Element(e: Entry): (b: Bytes)
    requires EntryOk(e)
    ensures |b| > 0
  {
    Encoded(e) + Backlen(|Encoded(e)|)
  }

  function Body(es: seq<Entry>): Bytes
    requires AllOk(es)
  {
    if es == [] then [] else Body(es[..|es| - 1]) + Element(es[|es| - 1])
  }

  function Count(n: nat): nat { if n < UNKNOWN then n else UNKNOWN }

  function Total(es: seq<Entry>): nat
    requires AllOk(es)
  {
    HEADER + |Body(es)| + 1
  }

  /** The bytes of the list `es`. */
  function Packed(es: seq<Entry>): (b: Bytes)
    requires AllOk(es)
    ensures |b| == Total(es)
  {
    Le(Total(es), 4) + Le(Count(|es|), 2) + Body(es) + [EOF]
  }

  // ---- validation ----

  function EntryAt(buf: Bytes, p: nat): Option<Entry> { if p < |buf| then EntryOf(buf[p..]) else None }

  /** End of the element at `p`, if its encoding and backward length are sound and inside the buffer. */
  function NextAt(buf: Bytes, p: nat): (r: Option<nat>)
    ensures r.Some? ==> p < r.value < |buf| && buf[p] != EOF
  {
    if p < HEADER || p >= |buf| || buf[p] == EOF then None
    else if SizeBytes(buf[p]) == 0 || p + SizeBytes(buf[p]) > |buf| - 1 then None
    else
      var size := SizeOf(buf[p..]);
      if size.None? then None
      else
        var n := BacklenSize(size.value);
        var end := p + size.value + n;
        if end > |buf| - 1 then None
        else
          var back := BackwardLength(buf, end - 1, 0);
          if back == Some(size.value) then Some(end) else None
  }

  /** The elements from `p` to the terminator; None when some element is corrupt. */
  function Elements(buf: Bytes, p: nat): (r: Option<seq<Entry>>)
    decreases |buf| - p
  {
    if p >= |buf| then None
    else if buf[p] == EOF then if p == |buf| - 1 then Some([]) else None
    else
      var np := NextAt(buf, p);
      if np.None? then None
      else
        var e, rest := EntryAt(buf, p), Elements(buf, np.value);
        if e.None? || rest.None? then None else Some([e.value] + rest.value)
  }

  /** Number of elements that validation walks over; None when it refuses. */
  function Walked(buf: Bytes, p: nat): Option<nat>
    decreases |buf| - p
  {
    if p >= |buf| then None
    else if buf[p] == EOF then if p == |buf| - 1 then Some(0) else None
    else
      var np := NextAt(buf, p);
      if np.None? then None
      else
        var n := Walked(buf, np.value);
        if n.None? then None else Some(n.value + 1)
  }

  predicate Validated(buf: Bytes) {
    && |buf| >= HEADER + 1
    && FromLe(buf[..4]) == |buf|
    && buf[|buf| - 1] == EOF
    && var n := Walked(buf, HEADER);
       n.Some? && (FromLe(buf[4..6]) == UNKNOWN || FromLe(buf[4..6]) == n.value)
  }

  /** An element that validation passes over can be decoded. */
  lemma PassedDecodes(buf: Bytes, p: nat)
    requires NextAt(buf, p).Some?
    ensures EntryAt(buf, p).Some?
  {
    hide FromLe, BackwardLength;
  }

  /** Validation is sound: a buffer it accepts decodes to the end, into as many elements as it counted. */
  lemma {:induction false} WalkedDecodes(buf: Bytes, p: nat)
    requires Walked(buf, p).Some?
    ensures Elements(buf, p).Some? && |Elements(buf, p).value| == Walked(buf, p).value
    decreases |buf| - p
  {
    if buf[p] != EOF {
      PassedDecodes(buf, p);
      WalkedDecodes(buf, NextAt(buf, p).value);
    }
  }

  // ---- validation accepts what was built ----

  /** Where the parts of an element are in a buffer that holds it. */
  lemma ElementSlices(pre: Bytes, enc: Bytes, back: Bytes, tail: Bytes)
    ensures var buf := pre + (enc + back) + tail;
            var p := |pre|;
            && buf[p..] == enc + (back + tail)
            && buf[p + |enc|..p + |enc| + |back|] == back
            && (enc != [] ==> buf[p] == enc[0] == (enc + (back + tail))[0])
  {
  }

  lemma BacklenBack(buf: Bytes, start: nat, l: nat)
    requires l < TWO32 + 5 && start + BacklenSize(l) <= |buf| && buf[start..start + BacklenSize(l)] == Backlen(l)
    ensures BackwardLength(buf, start + BacklenSize(l) - 1, 0) == Some(l)
  {
    GroupsSuffice(l);
    BackwardGroups(buf, start, 0, l, BacklenSize(l));
  }

  lemma ElementPasses(pre: Bytes, e: Entry, tail: Bytes)
    requires |pre| >= HEADER && EntryOk(e) && tail != []
    ensures var buf := pre + Element(e) + tail;
            NextAt(buf, |pre|) == Some(|pre| + |Element(e)|) && EntryAt(buf, |pre|) == Some(e)
  {
    hide EntryOf, SizeOf, SizeBytes, Encoded, Backlen, BacklenSize, BackwardLength;
    var enc := Encoded(e);
    var back := Backlen(|enc|);
    var buf := pre + Element(e) + tail;
    ElementSlices(pre, enc, back, tail);
    EncodedReads(e, back + tail);
    BacklenLength(|enc|);
    BacklenBack(buf, |pre| + |enc|, |enc|);
  }

  lemma BacklenLength(l: nat)
    ensures |Backlen(l)| == BacklenSize(l) >= 1
  {
  }

  lemma {:induction false} BodyConcat(a: seq<Entry>, b: seq<Entry>)
    requires AllOk(a) && AllOk(b)
    ensures AllOk(a + b) && Body(a + b) == Body(a) + Body(b)
    decreases |b|
  {
    hide Element, EntryOk;
    if b == [] {
      assert a + b == a;
    } else {
      var n := |b| - 1;
      BodyConcat(a, b[..n]);
      assert (a + b)[..|a + b| - 1] == a + b[..n];
    }
  }

  lemma BodyFirst(es: seq<Entry>)
    requires AllOk(es) && es != []
    ensures AllOk(es[1..]) && Body(es) == Element(es[0]) + Body(es[1..])
  {
    hide Element, EntryOk;
    var a, b := [es[0]], es[1..];
    assert es == a + b && a[..0] == [];
    BodyConcat(a, b);
    assert Body(a) == [] + Element(es[0]) == Element(es[0]);
  }

  lemma {:induction false} BodyWalks(pre: Bytes, es: seq<Entry>)
    requires |pre| >= HEADER && AllOk(es)
    ensures var buf := pre + Body(es) + [EOF]; Walked(buf, |pre|) == Some(|es|) && Elements(buf, |pre|) == Some(es)
    decreases |es|
  {
    hide NextAt, EntryAt, Element;
    var buf := pre + Body(es) + [EOF];
    if es != [] {
      BodyFirst(es);
      var tail := Body(es[1..]) + [EOF];
      var el := Element(es[0]);
      assert buf == pre + el + tail;
      ElementPasses(pre, es[0], tail);
      NextNotEof(buf, |pre|);
      BodyWalks(pre + el, es[1..]);
      assert buf == (pre + el) + Body(es[1..]) + [EOF];
      assert es == [es[0]] + es[1..];
    }
  }

  lemma NextNotEof(buf: Bytes, p: nat)
    requires NextAt(buf, p).Some?
    ensures p < |buf| && buf[p] != EOF
  {
  }

  /**
   Every list decodes to itself with the right count, and passes deep validation if and only if its
   size fits the 32 bits of the header.
   */
  lemma PackedReads(es: seq<Entry>)
    requires AllOk(es)
    ensures Validated(Packed(es)) <==> Total(es) < TWO32
    ensures Elements(Packed(es), HEADER) == Some(es)
    ensures FromLe(Packed(es)[4..6]) == Count(|es|)
  {
    var buf := Packed(es);
    var pre := Le(Total(es), 4) + Le(Count(|es|), 2);
    Widths();
    if Total(es) < TWO32 {
      LeInverse(Total(es), 4);
    }
    FromLeBound(Le(Total(es), 4));
    LeInverse(Count(|es|), 2);
    hide Le, FromLe, Power;
    assert buf[..4] == Le(Total(es), 4) && buf[4..6] == Le(Count(|es|), 2);
    BodyWalks(pre, es);
  }
}

/** The builder and the readers of src/core/listpack.rs, against the specification above. */
module Listpack {
  import opened Bits
  import opened Words
  import opened Decimal
  import opened ListpackSpec

  method DecodeBacklen(buf: Bytes, start: nat) returns (r: Option<nat>)
    ensures r == BackwardLength(buf, start, 0)
  {
    var pos: nat, val: nat, weight: nat := start, 0, 1;
    var k := 0;
    while true
      invariant k <= 4 && weight == Power(128, k) && k + pos == start
      invariant var rest := BackwardLength(buf, pos, k);
                BackwardLength(buf, start, 0) == if rest.None? then None else Some(val + weight * rest.value)
      decreases 4 - k
    {
      if pos >= |buf| {
        return None;
      }
      var b: nat := buf[pos];
      if b < 128 {
        return Some(val + weight * b);
      }
      if pos == 0 || k == 4 {
        return None;
      }
      ghost var rest := BackwardLength(buf, pos - 1, k + 1);
      if rest.Some? {
        Regroup(val, weight, b, rest.value);
      }
      val := val + weight * (b % 128);
      weight := weight * 128;
      k := k + 1;
      pos := pos - 1;
    }
  }

  lemma Regroup(val: nat, weight: nat, b: nat, rest: nat)
    ensures val + weight * Group(b, rest) == val + weight * (b % 128) + weight * 128 * rest
  {
    MulAssoc(weight, 128, rest);
  }

  method ValidateNext(buf: Bytes, p: nat) returns (r: Option<nat>)
    ensures r == NextAt(buf, p)
  {
    if p < HEADER || p >= |buf| {
      return None;
    }
    if buf[p] == EOF {
      return None;
    }
    var lenbytes := SizeBytes(buf[p]);
    if lenbytes == 0 {
      return None;
    }
    if p + lenbytes > |buf| - 1 {
      return None;
    }
    var size := SizeOf(buf[p..]);
    if size.None? {
      return None;
    }
    var backlenBytes := BacklenSize(size.value);
    var entrylen := size.value + backlenBytes;
    if p + entrylen > |buf| - 1 {
      return None;
    }
    var prevlen := DecodeBacklen(buf, p + entrylen - 1);
    if prevlen.None? || prevlen.value + backlenBytes != entrylen {
      return None;
    }
    r := Some(p + entrylen);
  }

  method ValidateDeep(buf: Bytes) returns (r: bool)
    ensures r == Validated(buf)
  {
    hide NextAt, FromLe;
    if |buf| < HEADER + 1 {
      return false;
    }
    if FromLe(buf[..4]) != |buf| {
      return false;
    }
    if buf[|buf| - 1] != EOF {
      return false;
    }
    var count := 0;
    var numele := FromLe(buf[4..6]);
    var p := HEADER;
    while true
      invariant HEADER <= p
      invariant var rest := Walked(buf, p);
                Walked(buf, HEADER) == if rest.None? then None else Some(count + rest.value)
      decreases |buf| - p
    {
      if p >= |buf| {
        return false;
      }
      if buf[p] == EOF {
        break;
      }
      var np := ValidateNext(buf, p);
      if np.None? {
        return false;
      }
      p := np.value;
      count := count + 1;
    }
    if p != |buf| - 1 {
      return false;
    }
    r := numele == UNKNOWN || numele == count;
  }

  method First(buf: Bytes) returns (r: Option<nat>)
    ensures r == if |buf| >= HEADER + 1 && buf[HEADER] != EOF then Some(HEADER) else None
  {
    r := if |buf| < HEADER + 1 || buf[HEADER] == EOF then None else Some(HEADER);
  }

  method Next(buf: Bytes, pos: nat) returns (r: Option<nat>)
    ensures r == var np := NextAt(buf, pos); if np.Some? && buf[np.value] != EOF then np else None
  {
    r := ValidateNext(buf, pos);
    if r.Some? && buf[r.value] == EOF {
      r := None;
    }
  }

  /** The elements of an accepted buffer in order, as their readers see them: first, next, entry_at. */
  method Iterate(buf: Bytes) returns (es: seq<Entry>)
    requires Validated(buf)
    ensures Elements(buf, HEADER) == Some(es)
  {
    WalkedDecodes(buf, HEADER);
    hide NextAt, EntryAt, FromLe, Elements;
    es := [];
    ghost var p, all, rest := HEADER, Elements(buf, HEADER).value, Elements(buf, HEADER).value;
    assert all == [] + rest;
    var cur := First(buf);
    while cur.Some?
      invariant p < |buf| && cur == if buf[p] == EOF then None else Some(p)
      invariant Elements(buf, p) == Some(rest) && all == es + rest
      decreases |buf| - p
    {
      ElementsStep(buf, p);
      assert es + rest == es + [rest[0]] + rest[1..];
      var e := EntryAt(buf, cur.value);
      rest := rest[1..];
      es := es + [e.value];
      p := NextAt(buf, p).value;
      cur := Next(buf, cur.value);
    }
    ElementsEnd(buf, p);
    assert es + [] == es;
  }

  lemma ElementsStep(buf: Bytes, p: nat)
    requires Elements(buf, p).Some? && p < |buf| && buf[p] != EOF
    ensures var es, np := Elements(buf, p).value, NextAt(buf, p);
            && es != [] && np.Some? && p < np.value < |buf|
            && EntryAt(buf, p) == Some(es[0]) && Elements(buf, np.value) == Some(es[1..])
  {
  }

  lemma ElementsEnd(buf: Bytes, p: nat)
    requires Elements(buf, p).Some? && p < |buf| && buf[p] == EOF
    ensures Elements(buf, p) == Some([])
  {
  }

  /** The builder: header bytes are patched in place, the terminator moves behind the new element. */
  class Builder {
    var buf: Bytes
    ghost var entries: seq<Entry>

    ghost predicate Valid()
      reads this
    {
      AllOk(entries) && Total(entries) < TWO32 && buf == Packed(entries)
    }

    constructor ()
      ensures Valid() && entries == []
    {
      buf := Le(7, 4) + [0, 0] + [EOF];
      entries := [];
      new;
      assert Le(Count(0), 2) == [0, 0] by {
        assert Le(0, 0) == [];
      }
    }

    method AppendEncoded(enc: Bytes, ghost e: Entry)
      requires Valid() && EntryOk(e) && enc == Encoded(e)
      requires Total(entries) + |Element(e)| < TWO32
      modifies this
      ensures Valid() && entries == old(entries) + [e]
    {
      hide Encoded, Element, Le, FromLe, EntryOk, Body, Count, Packed, Total;
      Grown(entries, e);
      ghost var t, c, body := Le(Total(entries), 4), Le(Count(|entries|), 2), Body(entries);
      ghost var rest := body + Element(e) + [EOF];
      Slices(t, c, body + [EOF]);
      var oldTotal := FromLe(buf[..4]);
      var newTotal := oldTotal + |enc| + BacklenSize(|enc|);
      Reassociate(t, c, body, enc, Backlen(|enc|));
      buf := buf[..|buf| - 1];
      buf := buf + enc;
      buf := buf + Backlen(|enc|);
      buf := buf + [EOF];
      Slices(t, c, rest);
      var cur := FromLe(buf[4..6]);
      if cur != UNKNOWN {
        buf := buf[..4] + Le(cur + 1, 2) + buf[6..];
        c := Le(cur + 1, 2);
        Slices(t, c, rest);
      }
      buf := Le(newTotal, 4) + buf[4..];
      assert buf == Le(newTotal, 4) + c + rest;
      entries := entries + [e];
    }

    method AppendInteger(v: int)
      requires Valid() && IsI64(v) && Total(entries) + |Element(Int(v))| < TWO32
      modifies this
      ensures Valid() && entries == old(entries) + [Int(v)]
    {
      AppendEncoded(EncodedInt(v), Int(v));
    }

    method AppendBytes(s: Bytes)
      requires Valid() && |s| < TWO32 && Total(entries) + |Element(Stored(s))| < TWO32
      modifies this
      ensures Valid() && entries == old(entries) + [Stored(s)]
    {
      var v := StringToI64(s);
      if v.Some? {
        PrintedParsed(s);
        AppendInteger(v.value);
        return;
      }
      AppendEncoded(StrHead(|s|) + s, Str(s));
    }
  }

  lemma BodyOne(e: Entry)
    requires EntryOk(e)
    ensures Body([e]) == Element(e)
  {
    assert [e][..0] == [];
    assert [] + Element(e) == Element(e);
  }

  lemma Slices(t: Bytes, c: Bytes, rest: Bytes)
    requires |t| == 4 && |c| == 2
    ensures var b := t + c + rest; b[..4] == t && b[4..6] == c && b[6..] == rest && b[4..] == c + rest
  {
  }

  lemma Reassociate(t: Bytes, c: Bytes, body: Bytes, enc: Bytes, back: Bytes)
    ensures var b := t + c + (body + [EOF]);
            b != [] && b[..|b| - 1] + enc + back + [EOF] == t + c + (body + (enc + back) + [EOF])
  {
    var b := t + c + (body + [EOF]);
    assert b[..|b| - 1] == t + c + body;
    assert t + c + body + enc + back + [EOF] == t + c + (body + (enc + back) + [EOF]);
  }

  lemma Grown(es: seq<Entry>, e: Entry)
    requires AllOk(es) && EntryOk(e) && Total(es) < TWO32
    ensures Packed(es) == Le(Total(es), 4) + Le(Count(|es|), 2) + (Body(es) + [EOF])
    ensures FromLe(Le(Total(es), 4)) == Total(es) && FromLe(Le(Count(|es|), 2)) == Count(|es|)
    ensures AllOk(es + [e]) && Body(es + [e]) == Body(es) + Element(e)
    ensures var n := Count(|es|); Count(|es + [e]|) == if n != UNKNOWN then n + 1 else n
    ensures Element(e) == Encoded(e) + Backlen(|Encoded(e)|) && |Backlen(|Encoded(e)|)| == BacklenSize(|Encoded(e)|)
    ensures AllOk(es + [e]) && Total(es + [e]) == Total(es) + |Encoded(e)| + BacklenSize(|Encoded(e)|)
    ensures Packed(es + [e]) == Le(Total(es + [e]), 4) + Le(Count(|es + [e]|), 2) + (Body(es) + Element(e) + [EOF])
  {
    hide Encoded, Le, FromLe, EntryOk, Body, Power;
    HeaderReads(es);
    BodyConcat(es, [e]);
    BodyOne(e);
  }

  lemma HeaderReads(es: seq<Entry>)
    requires AllOk(es) && Total(es) < TWO32
    ensures FromLe(Le(Total(es), 4)) == Total(es) && FromLe(Le(Count(|es|), 2)) == Count(|es|)
  {
    Widths();
    LeInverse(Total(es), 4);
    LeInverse(Count(|es|), 2);
  }

  /** `string_to_i64` refuses strings of 21 bytes and more before parsing; none of them is a printed integer. */
  method StringToI64(s: Bytes) returns (r: Option<int>)
    ensures r == Parsed(s)
  {
    if s == [] || |s| >= 21 {
      if Parsed(s).Some? {
        PrintedParsed(s);
        PrintedLength(Parsed(s).value);
      }
      return None;
    }
    r := String2ll(s);
  }
}
