/**
 The replication journal (src/server/journal.rs): the wire form of its records, and the ring of the
 most recent ones with its log sequence numbers and consumers.
 */
module JournalCodec {
  import opened Bits
  import opened Words
  import opened RdbStringSpec
  import opened RdbString

  const SELECT: byte := 6
  const EXPIRED: byte := 9
  const COMMAND: byte := 10
  const PING: byte := 13
  const LSN: byte := 15

  datatype Error = Corrupt | Truncated
  datatype Read<+T> = Got(value: T, rest: Bytes) | Failed(error: Error)

  /** What a record says; `lsn` only matters to LSN records, the rest only to commands. */
  datatype Record = Record(op: byte, dbid: nat, txid: nat, lsn: nat, cmd: Bytes, args: seq<Bytes>)

  /** A decoded record with the database it applies to. */
  datatype Parsed = Parsed(op: byte, dbid: nat, txid: nat, lsn: nat, words: seq<Bytes>)

  predicate IsCommand(op: byte) { op == COMMAND || op == EXPIRED }

  predicate Known(op: byte) { IsCommand(op) || op == LSN || op == PING }

  // ---- writing ----

  function TotalLength(words: seq<Bytes>): nat { if words == [] then 0 else |words[0]| + TotalLength(words[1..]) }

  predicate RecordOk(r: Record) {
    && r.dbid < TWO64 && r.txid < TWO64 && r.lsn < TWO64
    && 1 + |r.args| < TWO64 && TotalLength([r.cmd] + r.args) < TWO64
  }

  function WordList(words: seq<Bytes>): Bytes
    requires TotalLength(words) < TWO64
  {
    if words == [] then [] else SavedLen(|words[0]|) + words[0] + WordList(words[1..])
  }

  function Payload(words: seq<Bytes>): Bytes
    requires |words| < TWO64 && TotalLength(words) < TWO64
  {
    SavedLen(|words|) + SavedLen(TotalLength(words)) + WordList(words)
  }

  function Body(r: Record): Bytes
    requires RecordOk(r)
  {
    if r.op == SELECT then SavedLen(r.dbid)
    else if r.op == LSN then SavedLen(r.lsn)
    else if IsCommand(r.op) then SavedLen(r.txid) + SavedLen(1) + Payload([r.cmd] + r.args)
    else []
  }

  predicate NeedsSelect(r: Record, cur: Option<nat>) {
    r.op != SELECT && r.op != LSN && r.op != PING && cur != Some(r.dbid)
  }

  /** The bytes of a record after a writer last selected `cur`. */
  function Written(r: Record, cur: Option<nat>): Bytes
    requires RecordOk(r)
  {
    (if NeedsSelect(r, cur) then [SELECT] + SavedLen(r.dbid) else []) + ([r.op] + Body(r))
  }

  function Selected(r: Record, cur: Option<nat>): Option<nat> { if NeedsSelect(r, cur) then Some(r.dbid) else cur }

  // ---- reading ----

  /** A packed number; the special tags of strings are corrupt here. */
  function Packed(b: Bytes): (r: Read<nat>)
    ensures r.Got? ==> |r.rest| < |b|
  {
    var l := ReadLen(b);
    if l.Bad? then
      if b != [] && 0x82 <= b[0] < 0xC0 then Failed(Corrupt) else Failed(Truncated)
    else if l.value.encoded then Failed(Corrupt)
    else Got(l.value.value, l.rest)
  }

  /** The next `n` of the bytes `b` that end at offset `end`; an offset beyond 64 bits is corrupt. */
  function Take(b: Bytes, n: nat, end: nat): (r: Read<Bytes>)
    requires |b| <= end
    ensures r.Got? ==> |r.rest| <= |b|
  {
    if end - |b| + n >= TWO64 then Failed(Corrupt)
    else if n <= |b| then Got(b[..n], b[n..])
    else Failed(Truncated)
  }

  /** `n` words, of at most `total` bytes together. */
  function ReadWords(b: Bytes, n: nat, total: nat, end: nat): (r: Read<seq<Bytes>>)
    requires |b| <= end
    ensures r.Got? ==> |r.rest| <= |b|
    decreases n
  {
    if n == 0 then Got([], b) else
    var size := Packed(b);
    if size.Failed? then Failed(size.error)
    else if size.value > total then Failed(Corrupt)
    else
      var w := Take(size.rest, size.value, end);
      if w.Failed? then Failed(w.error) else
      var r := ReadWords(w.rest, n - 1, total - size.value, end);
      if r.Failed? then Failed(r.error) else Got([w.value] + r.value, r.rest)
  }

  /** The part of a command record after its opcode. */
  function ReadCommand(b: Bytes, end: nat): (r: Read<(nat, seq<Bytes>)>)
    requires |b| <= end
    ensures r.Got? ==> |r.rest| <= |b|
  {
    var txid := Packed(b);
    if txid.Failed? then Failed(txid.error) else
    var unused := Packed(txid.rest);
    if unused.Failed? then Failed(unused.error) else
    var n := Packed(unused.rest);
    if n.Failed? then Failed(n.error) else
    var total := Packed(n.rest);
    if total.Failed? then Failed(total.error) else
    var ws := ReadWords(total.rest, n.value, total.value, end);
    if ws.Failed? then Failed(ws.error) else Got((txid.value, ws.value), ws.rest)
  }

  /** The next record; selections on the way are applied. */
  function ReadEntry(b: Bytes, dbid: nat, end: nat): (r: Read<Parsed>)
    requires |b| <= end
    ensures r.Got? ==> |r.rest| < |b|
    decreases |b|
  {
    if b == [] then Failed(Truncated)
    else if b[0] == SELECT then
      var d := Packed(b[1..]);
      if d.Failed? then Failed(d.error) else ReadEntry(d.rest, d.value, end)
    else if b[0] == PING then Got(Parsed(PING, dbid, 0, 0, []), b[1..])
    else if b[0] == LSN then
      var l := Packed(b[1..]);
      if l.Failed? then Failed(l.error) else Got(Parsed(LSN, dbid, 0, l.value, []), l.rest)
    else if IsCommand(b[0]) then
      var c := ReadCommand(b[1..], end);
      if c.Failed? then Failed(c.error) else Got(Parsed(b[0], dbid, c.value.0, 0, c.value.1), c.rest)
    else Failed(Corrupt)
  }

  // ---- reading what was written ----

  lemma PackedBack(n: nat, rest: Bytes)
    requires n < TWO64
    ensures Packed(SavedLen(n) + rest) == Got(n, rest)
  {
    ReadLenSaved(n, rest);
  }

  lemma {:induction false} WordsBack(words: seq<Bytes>, rest: Bytes, end: nat)
    requires TotalLength(words) < TWO64 && |WordList(words) + rest| <= end < TWO64
    ensures ReadWords(WordList(words) + rest, |words|, TotalLength(words), end) == Got(words, rest)
    decreases |words|
  {
    hide SavedLen, Packed;
    if words == [] {
      assert WordList(words) + rest == rest;
    } else {
      var w, ws := words[0], words[1..];
      var tail := WordList(ws) + rest;
      assert WordList(words) + rest == SavedLen(|w|) + (w + tail);
      PackedBack(|w|, w + tail);
      assert (w + tail)[..|w|] == w && (w + tail)[|w|..] == tail;
      WordsBack(ws, rest, end);
      assert words == [w] + ws;
    }
  }

  lemma CommandBack(txid: nat, words: seq<Bytes>, rest: Bytes, end: nat)
    requires txid < TWO64 && |words| < TWO64 && TotalLength(words) < TWO64
    requires |SavedLen(txid) + SavedLen(1) + Payload(words) + rest| <= end < TWO64
    ensures ReadCommand(SavedLen(txid) + SavedLen(1) + Payload(words) + rest, end) == Got((txid, words), rest)
  {
    hide SavedLen, Packed, WordList, ReadWords, TotalLength;
    var ws := WordList(words) + rest;
    var t := SavedLen(TotalLength(words)) + ws;
    var n := SavedLen(|words|) + t;
    var u := SavedLen(1) + n;
    Associate(SavedLen(txid), SavedLen(1), SavedLen(|words|), SavedLen(TotalLength(words)), WordList(words), rest);
    PackedBack(txid, u);
    PackedBack(1, n);
    PackedBack(|words|, t);
    PackedBack(TotalLength(words), ws);
    WordsBack(words, rest, end);
  }

  lemma Associate(a: Bytes, b: Bytes, c: Bytes, d: Bytes, e: Bytes, rest: Bytes)
    ensures a + b + (c + d + e) + rest == a + (b + (c + (d + (e + rest))))
  {
  }

  /** What a reader at database `dbid` makes of a record. */
  function Meant(r: Record, dbid: nat): Parsed {
    if IsCommand(r.op) then Parsed(r.op, r.dbid, r.txid, 0, [r.cmd] + r.args)
    else Parsed(r.op, dbid, 0, if r.op == LSN then r.lsn else 0, [])
  }

  lemma BodyBack(r: Record, dbid: nat, rest: Bytes, end: nat)
    requires RecordOk(r) && Known(r.op) && (IsCommand(r.op) ==> dbid == r.dbid)
    requires |[r.op] + Body(r) + rest| <= end < TWO64
    ensures ReadEntry([r.op] + Body(r) + rest, dbid, end) == Got(Meant(r, dbid), rest)
  {
    hide SavedLen, Packed, ReadCommand, Payload;
    var b := [r.op] + Body(r) + rest;
    assert b[1..] == Body(r) + rest;
    if IsCommand(r.op) {
      CommandBack(r.txid, [r.cmd] + r.args, rest, end);
    } else if r.op == LSN {
      PackedBack(r.lsn, rest);
    } else {
      assert [] + rest == rest;
    }
  }

  /** A record is read back with the right database, from a writer that the reader has kept up with. */
  lemma WrittenBack(r: Record, cur: Option<nat>, dbid: nat, rest: Bytes, end: nat)
    requires RecordOk(r) && Known(r.op) && (cur.None? || cur.value == dbid) && |Written(r, cur) + rest| <= end < TWO64
    ensures ReadEntry(Written(r, cur) + rest, dbid, end) == Got(Meant(r, dbid), rest)
  {
    hide SavedLen, Packed, Body;
    if NeedsSelect(r, cur) {
      var tail := [r.op] + Body(r) + rest;
      var b := Written(r, cur) + rest;
      assert b == [SELECT] + (SavedLen(r.dbid) + tail);
      assert b[1..] == SavedLen(r.dbid) + tail;
      PackedBack(r.dbid, tail);
      BodyBack(r, r.dbid, rest, end);
    } else {
      assert Written(r, cur) + rest == [r.op] + Body(r) + rest;
      BodyBack(r, dbid, rest, end);
    }
  }

  // ---- streams of records ----

  predicate AllOk(rs: seq<Record>) { forall i :: 0 <= i < |rs| ==> RecordOk(rs[i]) && Known(rs[i].op) }

  /** Records serialized each on its own, as they sit in the ring, one after the other. */
  function Stream(rs: seq<Record>): Bytes
    requires AllOk(rs)
  {
    if rs == [] then [] else Written(rs[0], None) + Stream(rs[1..])
  }

  /** The database a reader stands at after a record. */
  function NextDb(r: Record, dbid: nat): nat { if IsCommand(r.op) then r.dbid else dbid }

  function AllMeant(rs: seq<Record>, dbid: nat): seq<Parsed> {
    if rs == [] then [] else [Meant(rs[0], dbid)] + AllMeant(rs[1..], NextDb(rs[0], dbid))
  }

  /** Reading records until the input is empty. */
  function ReadAll(b: Bytes, dbid: nat, end: nat): Read<seq<Parsed>>
    requires |b| <= end
    decreases |b|
  {
    if b == [] then Got([], []) else
    var e := ReadEntry(b, dbid, end);
    if e.Failed? then Failed(e.error) else
    var r := ReadAll(e.rest, e.value.dbid, end);
    if r.Failed? then Failed(r.error) else Got([e.value] + r.value, r.rest)
  }

  /** Concatenated records decode to the originals, each command with its own database. */
  lemma {:induction false} StreamBack(rs: seq<Record>, dbid: nat, end: nat)
    requires AllOk(rs) && |Stream(rs)| <= end < TWO64
    ensures ReadAll(Stream(rs), dbid, end) == Got(AllMeant(rs, dbid), [])
    decreases |rs|
  {
    hide Written, RecordOk;
    if rs != [] {
      var rest := Stream(rs[1..]);
      WrittenNonEmpty(rs[0], None);
      WrittenBack(rs[0], None, dbid, rest, end);
      StreamBack(rs[1..], NextDb(rs[0], dbid), end);
    }
  }

  lemma WrittenNonEmpty(r: Record, cur: Option<nat>)
    requires RecordOk(r)
    ensures Written(r, cur) != []
  {
  }

  /** Command `i` of a stream is read back as it was, in its own database. */
  lemma {:induction false} CommandInStream(rs: seq<Record>, dbid: nat, i: nat)
    requires i < |rs|
    ensures |AllMeant(rs, dbid)| == |rs|
    ensures IsCommand(rs[i].op) ==> AllMeant(rs, dbid)[i] == Parsed(rs[i].op, rs[i].dbid, rs[i].txid, 0, [rs[i].cmd] + rs[i].args)
    decreases i, |rs|
  {
    if i > 0 {
      CommandInStream(rs[1..], NextDb(rs[0], dbid), i - 1);
    } else if |rs| > 1 {
      CommandInStream(rs[1..], NextDb(rs[0], dbid), 0);
    } else {
      assert rs[1..] == [];
    }
  }

  // ---- the writer and the reader as they run ----

  class Writer {
    var out: Bytes
    var cur: Option<nat>

    constructor ()
      ensures out == [] && cur == None
    {
      out, cur := [], None;
    }

    method WriteEntry(r: Record)
      requires RecordOk(r)
      modifies this
      ensures out == old(out) + Written(r, old(cur)) && cur == Selected(r, old(cur))
    {
      hide SavedLen, Body;
      if NeedsSelect(r, cur) {
        out := out + [SELECT];
        out := WriteLen(out, r.dbid);
        cur := Some(r.dbid);
      }
      Prefixed(old(out), [SELECT], SavedLen(r.dbid), [r.op] + Body(r));
      out := WriteBody(out, r);
    }
  }

  lemma Prefixed(out: Bytes, a: Bytes, b: Bytes, c: Bytes)
    ensures out + a + b + c == out + ((a + b) + c) && out + c == out + ([] + c)
  {
  }

  /** The opcode and what belongs to it. */
  method WriteBody(out: Bytes, r: Record) returns (o: Bytes)
    requires RecordOk(r)
    ensures o == out + ([r.op] + Body(r))
  {
    hide SavedLen, Payload;
    o := out + [r.op];
    if r.op == SELECT {
      o := WriteLen(o, r.dbid);
    } else if r.op == LSN {
      o := WriteLen(o, r.lsn);
    } else if IsCommand(r.op) {
      ghost var payload := Payload([r.cmd] + r.args);
      assert Body(r) == SavedLen(r.txid) + SavedLen(1) + payload;
      o := WriteLen(o, r.txid);
      o := WriteLen(o, 1);
      o := WritePayload(o, [r.cmd] + r.args);
      Joined(out, [r.op], SavedLen(r.txid), SavedLen(1), payload);
      return;
    }
    assert out + [r.op] + Body(r) == out + ([r.op] + Body(r));
  }

  lemma Joined(out: Bytes, a: Bytes, b: Bytes, c: Bytes, d: Bytes)
    ensures out + a + b + c + d == out + (a + (b + c + d))
  {
  }

  method WritePayload(out: Bytes, words: seq<Bytes>) returns (r: Bytes)
    requires |words| < TWO64 && TotalLength(words) < TWO64
    ensures r == out + Payload(words)
  {
    hide SavedLen;
    var total := 0;
    assert words[0..] == words;
    for i := 0 to |words|
      invariant total + TotalLength(words[i..]) == TotalLength(words)
    {
      assert words[i..][1..] == words[i + 1..];
      total := total + |words[i]|;
    }
    r := WriteLen(out, |words|);
    r := WriteLen(r, total);
    ghost var head := r;
    for i := 0 to |words|
      invariant TotalLength(words[i..]) < TWO64 && r + WordList(words[i..]) == head + WordList(words)
    {
      assert words[i..][0] == words[i] && words[i..][1..] == words[i + 1..];
      ghost var was, rest := r, WordList(words[i + 1..]);
      r := WriteLen(r, |words[i]|);
      r := r + words[i];
      assert was + (SavedLen(|words[i]|) + words[i] + rest) == r + rest;
    }
    assert head + WordList(words) == out + Payload(words);
  }

  class EntryReader {
    const data: Bytes
    var pos: nat
    var dbid: nat

    /** A slice of bytes is shorter than 2^63. */
    ghost predicate Valid()
      reads this
    {
      pos <= |data| < TWO64 / 2
    }

    ghost predicate At<T>(r: Read<T>, spec: Read<T>)
      reads this
    {
      && Valid() && (spec.Failed? ==> r == spec)
      && (spec.Got? ==> r.Got? && r.value == spec.value && data[pos..] == spec.rest)
    }

    constructor (data: Bytes)
      requires |data| < TWO64 / 2
      ensures this.data == data && pos == 0 && dbid == 0 && Valid()
    {
      this.data, pos, dbid := data, 0, 0;
    }

    method ReadExact(n: nat) returns (r: Read<Bytes>)
      requires Valid()
      modifies this`pos
      ensures At(r, Take(data[old(pos)..], n, |data|))
    {
      if pos + n >= TWO64 {
        return Failed(Corrupt);
      }
      if pos + n > |data| {
        return Failed(Truncated);
      }
      var s := data[pos..pos + n];
      assert data[pos..][..n] == s && data[pos..][n..] == data[pos + n..];
      pos := pos + n;
      r := Got(s, data[pos..]);
    }

    method ReadPacked() returns (r: Read<nat>)
      requires Valid()
      modifies this`pos
      ensures At(r, Packed(data[old(pos)..]))
    {
      ghost var b := data[pos..];
      if pos == |data| {
        return Failed(Truncated);
      }
      var f: nat := data[pos];
      assert b[0] == data[pos];
      pos := pos + 1;
      assert data[pos..] == b[1..];
      if f < 0x40 {
        return Got(f, data[pos..]);
      }
      if f < 0x80 {
        if pos == |data| {
          return Failed(Truncated);
        }
        var lo := data[pos];
        assert lo == b[1];
        pos := pos + 1;
        assert data[pos..] == b[2..];
        return Got(Field(f, lo), data[pos..]);
      }
      if f != 0x80 && f != 0x81 {
        return Failed(Corrupt);
      }
      var s := ReadExact(if f == 0x80 then 4 else 8);
      if s.Failed? {
        return Failed(s.error);
      }
      r := Got(FromBe(s.value), data[pos..]);
    }

    method ReadWordList(n: nat, limit: nat) returns (r: Read<seq<Bytes>>)
      requires Valid()
      modifies this`pos
      ensures At(r, ReadWords(data[old(pos)..], n, limit, |data|))
    {
      hide Packed, ReadWords;
      var total, words: seq<Bytes> := limit, [];
      OntoNone(ReadWords(data[pos..], n, limit, |data|));
      for i := 0 to n
        invariant Valid()
        invariant Onto(words, ReadWords(data[pos..], n - i, total, |data|)) == ReadWords(data[old(pos)..], n, limit, |data|)
      {
        WordsStep(data[pos..], n - i, total, |data|, words);
        var size := ReadPacked();
        if size.Failed? {
          return Failed(size.error);
        }
        if size.value > total {
          return Failed(Corrupt);
        }
        var w := ReadExact(size.value);
        if w.Failed? {
          return Failed(w.error);
        }
        words := words + [w.value];
        total := total - size.value;
      }
      WordsEnd(data[pos..], total, |data|, words);
      r := Got(words, data[pos..]);
    }

    method ReadRecord() returns (r: Read<Parsed>)
      requires Valid()
      modifies this
      ensures At(r, ReadEntry(data[old(pos)..], old(dbid), |data|))
      ensures r.Got? ==> dbid == r.value.dbid
      decreases |data| - pos
    {
      hide Packed, ReadWords;
      if pos == |data| {
        return Failed(Truncated);
      }
      var op := data[pos];
      assert data[pos..][1..] == data[pos + 1..];
      pos := pos + 1;
      if op == SELECT {
        var d := ReadPacked();
        if d.Failed? {
          return Failed(d.error);
        }
        PackedShrinks(data[old(pos) + 1..]);
        dbid := d.value;
        r := ReadRecord();
        return;
      }
      if op == PING {
        return Got(Parsed(PING, dbid, 0, 0, []), data[pos..]);
      }
      if op == LSN {
        var l := ReadPacked();
        if l.Failed? {
          return Failed(l.error);
        }
        return Got(Parsed(LSN, dbid, 0, l.value, []), data[pos..]);
      }
      if !IsCommand(op) {
        return Failed(Corrupt);
      }
      var txid := ReadPacked();
      if txid.Failed? {
        return Failed(txid.error);
      }
      var unused := ReadPacked();
      if unused.Failed? {
        return Failed(unused.error);
      }
      var n := ReadPacked();
      if n.Failed? {
        return Failed(n.error);
      }
      var total := ReadPacked();
      if total.Failed? {
        return Failed(total.error);
      }
      var ws := ReadWordList(n.value, total.value);
      if ws.Failed? {
        return Failed(ws.error);
      }
      r := Got(Parsed(op, dbid, txid.value, 0, ws.value), data[pos..]);
    }
  }

  /** Words already read, and then those of `r`. */
  function Onto(words: seq<Bytes>, r: Read<seq<Bytes>>): Read<seq<Bytes>> {
    if r.Failed? then r else Got(words + r.value, r.rest)
  }

  lemma OntoNone(r: Read<seq<Bytes>>)
    ensures Onto([], r) == r
  {
    assert r.Got? ==> [] + r.value == r.value;
  }

  lemma WordsStep(b: Bytes, n: nat, total: nat, end: nat, words: seq<Bytes>)
    requires n > 0 && |b| <= end
    ensures var all, size := Onto(words, ReadWords(b, n, total, end)), Packed(b);
            if size.Failed? then all == Failed(size.error)
            else if size.value > total then all == Failed(Corrupt)
            else
              var w := Take(size.rest, size.value, end);
              if w.Failed? then all == Failed(w.error)
              else all == Onto(words + [w.value], ReadWords(w.rest, n - 1, total - size.value, end))
  {
    hide Packed, Take;
    var size := Packed(b);
    if size.Got? && size.value <= total {
      var w := Take(size.rest, size.value, end);
      if w.Got? {
        var r := ReadWords(w.rest, n - 1, total - size.value, end);
        assert r.Got? ==> words + ([w.value] + r.value) == words + [w.value] + r.value;
      }
    }
  }

  lemma WordsEnd(b: Bytes, total: nat, end: nat, words: seq<Bytes>)
    requires |b| <= end
    ensures Onto(words, ReadWords(b, 0, total, end)) == Got(words, b)
  {
    assert words + [] == words;
  }

  lemma PackedShrinks(b: Bytes)
    ensures Packed(b).Got? ==> |Packed(b).rest| < |b|
  {
  }
}

/** The ring: consecutive log sequence numbers, the newest records, and every consumer's view. */
module JournalRing {
  import opened Bits
  import JournalCodec

  datatype Item = Item(lsn: nat, data: Bytes)

  /** A registered consumer, as what it has been given. */
  datatype Consumer = Consumer(id: nat, seen: seq<Item>)

  /** Numbers without gaps, up to but not including `lsn`. */
  predicate Consecutive(items: seq<Item>, lsn: nat) {
    |items| <= lsn && forall i :: 0 <= i < |items| ==> items[i].lsn == lsn - |items| + i
  }

  /** The last `n` of a list, or all of it. */
  function Newest(items: seq<Item>, n: nat): seq<Item> {
    if |items| <= n then items else items[|items| - n..]
  }

  class JournalSlice {
    var lsn: nat
    var ring: seq<Item>
    const capacity: nat
    var consumers: seq<Consumer>
    var nextConsumerId: nat
    /** Every record since the ring was last emptied, and every record ever. */
    ghost var kept: seq<Item>
    ghost var all: seq<Item>
    /** How many records had been made when a consumer was registered. */
    ghost var since: map<nat, nat>

    ghost predicate Valid()
      reads this
    {
      && Consecutive(kept, lsn)
      && (capacity >= 1 ==> ring == Newest(kept, capacity)) && (capacity == 0 ==> ring == kept)
      && (forall i :: 0 <= i < |consumers| ==> ConsumerOk(consumers[i]))
      && (forall i, j :: 0 <= i < j < |consumers| ==> consumers[i].id != consumers[j].id)
    }

    /** A consumer has seen every record made while it was registered, once and in order. */
    ghost predicate ConsumerOk(c: Consumer)
      reads this
    {
      c.id < nextConsumerId && c.id in since && since[c.id] <= |all| && c.seen == all[since[c.id]..]
    }

    constructor (capacity: nat)
      ensures Valid() && this.capacity == capacity && lsn == 1 && kept == [] && all == [] && consumers == []
    {
      lsn, ring, consumers, nextConsumerId := 1, [], [], 0;
      this.capacity := capacity;
      kept, all, since := [], [], map[];
    }

    /**
     When every record was made by a fresh writer, the bytes a consumer has been given decode to exactly the
     records made since it registered.
     */
    lemma ConsumerReads(i: nat, rs: seq<JournalCodec.Record>, dbid: nat)
      requires Valid() && i < |consumers| && JournalCodec.AllOk(rs) && |rs| == |all|
      requires forall k :: 0 <= k < |rs| ==> all[k].data == JournalCodec.Written(rs[k], None)
      requires |DataOf(consumers[i].seen)| < TWO64
      ensures consumers[i].id in since && since[consumers[i].id] <= |rs|
      ensures var b := DataOf(consumers[i].seen);
              JournalCodec.ReadAll(b, dbid, |b|) ==
              JournalCodec.Got(JournalCodec.AllMeant(rs[since[consumers[i].id]..], dbid), [])
    {
      hide JournalCodec.ReadAll, JournalCodec.AllMeant, JournalCodec.Written, DataOf;
      assert ConsumerOk(consumers[i]);
      var n := since[consumers[i].id];
      DataIsStream(all[n..], rs[n..]);
      JournalCodec.StreamBack(rs[n..], dbid, |DataOf(consumers[i].seen)|);
    }

    /** A valid ring has at most `capacity` records, numbered without gaps up to the last one issued. */
    lemma RingConsecutive()
      requires Valid()
      ensures Consecutive(ring, lsn) && (capacity >= 1 ==> |ring| <= capacity)
    {
    }

    method IsLsnInBuffer(l: nat) returns (r: bool)
      requires Valid()
      ensures r <==> lsn - |ring| <= l < lsn
    {
      RingConsecutive();
      if |ring| == 0 {
        return false;
      }
      var front, back := ring[0].lsn, ring[|ring| - 1].lsn;
      if |ring| == 1 {
        return front == l;
      }
      r := front <= l <= back;
    }

    /** Exactly the bytes recorded under `l`, for the numbers still held. */
    method GetEntry(l: nat) returns (r: Option<Bytes>)
      requires Valid()
      ensures r.Some? <==> lsn - |ring| <= l < lsn
      ensures r.Some? ==> |kept| >= lsn - l && kept[|kept| - (lsn - l)] == Item(l, r.value)
    {
      RingConsecutive();
      var held := IsLsnInBuffer(l);
      if !held {
        return None;
      }
      var start := ring[0].lsn;
      assert ring[l - start] == kept[|kept| - (lsn - l)];
      r := Some(ring[l - start].data);
    }

    method ClearBuffer()
      requires Valid()
      modifies this
      ensures Valid() && ring == [] && kept == [] && lsn == old(lsn) + 1 && all == old(all) && consumers == old(consumers)
    {
      ring := [];
      kept := [];
      lsn := lsn + 1;
    }

    method StartAtLsn(l: nat)
      requires Valid()
      modifies this
      ensures Valid() && ring == [] && kept == [] && lsn == l && all == old(all) && consumers == old(consumers)
    {
      ring := [];
      kept := [];
      lsn := l;
    }

    /** The record gets the next number, goes to every consumer and into the ring; the oldest one may fall out. */
    method Record(data: Bytes) returns (l: nat)
      requires Valid()
      modifies this
      ensures Valid() && l == old(lsn) && lsn == l + 1
      ensures kept == old(kept) + [Item(l, data)] && all == old(all) + [Item(l, data)]
      ensures |consumers| == |old(consumers)| && forall i :: 0 <= i < |consumers| ==>
                consumers[i] == Consumer(old(consumers)[i].id, old(consumers)[i].seen + [Item(l, data)])
    {
      hide Consecutive, Newest, Notified;
      l := lsn;
      var item := Item(l, data);
      RingStep(kept, ring, capacity, item);
      NumberNext(kept, lsn, item);
      lsn := lsn + 1;
      consumers := Notified(consumers, item);
      if |ring| == capacity && |ring| > 0 {
        ring := ring[1..];
      }
      ring := ring + [item];
      kept := kept + [item];
      all := all + [item];
      forall i | 0 <= i < |consumers|
        ensures ConsumerOk(consumers[i])
      {
        assert old(ConsumerOk(consumers[i]));
        SeenNext(old(all), since[consumers[i].id], item);
      }
    }

    method RegisterConsumer() returns (id: nat)
      requires Valid()
      modifies this
      ensures Valid() && id == old(nextConsumerId) && consumers == old(consumers) + [Consumer(id, [])]
      ensures since == old(since)[id := |all|] && unchanged(`lsn) && unchanged(`ring) && unchanged(`kept) && unchanged(`all)
    {
      id := nextConsumerId;
      nextConsumerId := nextConsumerId + 1;
      since := since[id := |all|];
      consumers := consumers + [Consumer(id, [])];
      forall i | 0 <= i < |consumers|
        ensures ConsumerOk(consumers[i])
      {
        assert i < |consumers| - 1 ==> consumers[i] == old(consumers)[i] && old(ConsumerOk(consumers[i]));
      }
    }

    method UnregisterConsumer(id: nat)
      requires Valid()
      modifies this`consumers
      ensures Valid() && consumers == Without(old(consumers), id)
    {
      consumers := Without(consumers, id);
      WithoutKeeps(old(consumers), id);
    }
  }

  function Notified(cs: seq<Consumer>, item: Item): (r: seq<Consumer>)
    ensures |r| == |cs| && forall i :: 0 <= i < |cs| ==> r[i] == Consumer(cs[i].id, cs[i].seen + [item])
  {
    if cs == [] then [] else [Consumer(cs[0].id, cs[0].seen + [item])] + Notified(cs[1..], item)
  }

  function Without(cs: seq<Consumer>, id: nat): seq<Consumer> {
    if cs == [] then [] else (if cs[0].id == id then [] else [cs[0]]) + Without(cs[1..], id)
  }

  lemma {:induction false} WithoutKeeps(cs: seq<Consumer>, id: nat)
    ensures forall c :: c in Without(cs, id) <==> c in cs && c.id != id
    ensures (forall i, j :: 0 <= i < j < |cs| ==> cs[i].id != cs[j].id) ==>
              forall i, j :: 0 <= i < j < |Without(cs, id)| ==> Without(cs, id)[i].id != Without(cs, id)[j].id
  {
    if cs != [] {
      WithoutKeeps(cs[1..], id);
      var rest := Without(cs[1..], id);
      if forall i, j :: 0 <= i < j < |cs| ==> cs[i].id != cs[j].id {
        forall j | 0 <= j < |rest|
          ensures rest[j].id != cs[0].id
        {
          assert rest[j] in cs[1..];
          var k :| 0 <= k < |cs[1..]| && cs[1..][k] == rest[j];
          assert cs[k + 1] == rest[j];
        }
      }
    }
  }

  /** What was recorded, one record after the other. */
  function DataOf(items: seq<Item>): Bytes { if items == [] then [] else items[0].data + DataOf(items[1..]) }

  lemma {:induction false} DataIsStream(items: seq<Item>, rs: seq<JournalCodec.Record>)
    requires JournalCodec.AllOk(rs) && |rs| == |items|
    requires forall k :: 0 <= k < |rs| ==> items[k].data == JournalCodec.Written(rs[k], None)
    ensures DataOf(items) == JournalCodec.Stream(rs)
  {
    hide JournalCodec.Written, JournalCodec.RecordOk;
    if rs != [] {
      DataIsStream(items[1..], rs[1..]);
    }
  }

  lemma RingStep(kept: seq<Item>, ring: seq<Item>, capacity: nat, item: Item)
    requires (capacity >= 1 ==> ring == Newest(kept, capacity)) && (capacity == 0 ==> ring == kept)
    ensures var r := (if |ring| == capacity && |ring| > 0 then ring[1..] else ring) + [item];
            (capacity >= 1 ==> r == Newest(kept + [item], capacity)) && (capacity == 0 ==> r == kept + [item])
  {
  }

  lemma NumberNext(kept: seq<Item>, lsn: nat, item: Item)
    requires Consecutive(kept, lsn) && item.lsn == lsn
    ensures Consecutive(kept + [item], lsn + 1)
  {
  }

  lemma SeenNext(all: seq<Item>, n: nat, item: Item)
    requires n <= |all|
    ensures (all + [item])[n..] == all[n..] + [item]
  {
  }
}
