/**
 One listpack node of a dumped stream (src/core/rdb.rs): a master entry, then records holding ID
 deltas from it and either values only (same field names as the master) or names and values.
 */
module StreamNodeSpec {
  import opened Bits
  import opened Words
  import opened ListpackSpec

  datatype Id = Id(ms: nat, sq: nat)

  predicate IdOk(id: Id) { id.ms < TWO64 && id.sq < TWO64 }

  type Fields = seq<(Bytes, Bytes)>

  datatype Item = Item(fields: Fields, deleted: bool)

  type Records = seq<(Id, Item)>

  datatype Node = Node(master: Id, names: seq<Bytes>, records: Records)

  type Elems = seq<Entry>

  // ---- wrapping ID differences ----

  /** The 64-bit difference, wrapped, as a signed integer. */
  function Delta(a: nat, b: nat): (d: int)
    ensures IsI64(d)
  {
    Signed(Wrap(a - b, TWO64), TWO64)
  }

  function Undelta(b: nat, d: int): nat { Wrap(b + d, TWO64) }

  lemma UndeltaDelta(a: nat, b: nat)
    requires a < TWO64 && b < TWO64
    ensures Undelta(b, Delta(a, b)) == a
  {
    ModUnique(a - b, TWO64, if a >= b then 0 else -1, if a >= b then a - b else a - b + TWO64);
    var d := Delta(a, b);
    ModUnique(b + d, TWO64, if b + d < 0 then -1 else if b + d < TWO64 then 0 else 1, a);
  }

  // ---- writing ----

  function Names(fields: Fields): (n: seq<Bytes>)
    ensures |n| == |fields|
  {
    if fields == [] then [] else [fields[0].0] + Names(fields[1..])
  }

  function Texts(ss: seq<Bytes>): (es: Elems)
    ensures |es| == |ss|
  {
    if ss == [] then [] else [Stored(ss[0])] + Texts(ss[1..])
  }

  function Values(fields: Fields): Elems {
    if fields == [] then [] else [Stored(fields[0].1)] + Values(fields[1..])
  }

  function Pairs(fields: Fields): Elems {
    if fields == [] then [] else [Stored(fields[0].0), Stored(fields[0].1)] + Pairs(fields[1..])
  }

  function Flags(deleted: bool, same: bool): int { (if deleted then 1 else 0) + (if same then 2 else 0) }

  function RecordCount(n: nat, same: bool): int { n + 3 + if same then 0 else n + 1 }

  function Record(id: Id, item: Item, master: Id, names: seq<Bytes>): (es: Elems)
    ensures |es| >= 4
  {
    var same := Names(item.fields) == names;
    var n := |item.fields|;
    [Int(Flags(item.deleted, same)), Int(Delta(id.ms, master.ms)), Int(Delta(id.sq, master.sq))]
    + (if same then Values(item.fields) else [Int(n)] + Pairs(item.fields))
    + [Int(RecordCount(n, same))]
  }

  function AllRecords(rs: Records, master: Id, names: seq<Bytes>): Elems {
    if rs == [] then [] else Record(rs[0].0, rs[0].1, master, names) + AllRecords(rs[1..], master, names)
  }

  function Live(rs: Records): (n: nat)
    ensures n <= |rs|
  {
    if rs == [] then 0 else (if rs[0].1.deleted then 0 else 1) + Live(rs[1..])
  }

  function NodeElems(node: Node): Elems {
    var live := Live(node.records);
    [Int(live), Int(|node.records| - live), Int(|node.names|)] + Texts(node.names) + [Int(0)]
    + AllRecords(node.records, node.master, node.names)
  }

  // ---- reading: a cursor is the list of elements from it on; stepping past the last one is an error ----

  function PopInt(es: Elems): Option<(int, Elems)> {
    if |es| < 2 || !es[0].Int? then None else Some((es[0].v, es[1..]))
  }

  function PopText(es: Elems): Option<(Bytes, Elems)> {
    if |es| < 2 then None else Some((Text(es[0]), es[1..]))
  }

  function TakeNames(es: Elems, n: nat): (r: Option<(seq<Bytes>, Elems)>)
    ensures r.Some? ==> |r.value.0| == n
  {
    if n == 0 then Some(([], es)) else
    var t := PopText(es);
    if t.None? then None else
    var r := TakeNames(t.value.1, n - 1);
    if r.None? then None else Some(([t.value.0] + r.value.0, r.value.1))
  }

  function TakeValues(es: Elems, names: seq<Bytes>): (r: Option<(Fields, Elems)>)
    ensures r.Some? ==> |r.value.1| <= |es|
  {
    if names == [] then Some(([], es)) else
    var v := PopText(es);
    if v.None? then None else
    var r := TakeValues(v.value.1, names[1..]);
    if r.None? then None else Some(([(names[0], v.value.0)] + r.value.0, r.value.1))
  }

  function TakePairs(es: Elems, n: nat): (r: Option<(Fields, Elems)>)
    ensures r.Some? ==> |r.value.1| <= |es|
  {
    if n == 0 then Some(([], es)) else
    var f := PopText(es);
    if f.None? then None else
    var v := PopText(f.value.1);
    if v.None? then None else
    var r := TakePairs(v.value.1, n - 1);
    if r.None? then None else Some(([(f.value.0, v.value.0)] + r.value.0, r.value.1))
  }

  function TakeFields(es: Elems, same: bool, names: seq<Bytes>): (r: Option<(Fields, Elems)>)
    ensures r.Some? ==> |r.value.1| <= |es|
  {
    if same then TakeValues(es, names) else
    var n := PopInt(es);
    if n.None? || n.value.0 < 0 then None else TakePairs(n.value.1, n.value.0)
  }

  /** Bit `i` of a 64-bit flag word, negative ones included. */
  predicate FlagSet(flags: int, weight: nat)
    requires weight > 0
  {
    flags / weight % 2 == 1
  }

  function TakeRecord(es: Elems, master: Id, names: seq<Bytes>): (r: Option<(Id, Item, Elems)>)
    ensures r.Some? ==> |r.value.2| < |es|
  {
    var flags := PopInt(es);
    if flags.None? then None else
    var ms := PopInt(flags.value.1);
    if ms.None? then None else
    var sq := PopInt(ms.value.1);
    if sq.None? then None else
    var same := FlagSet(flags.value.0, 2);
    var fs := TakeFields(sq.value.1, same, names);
    if fs.None? then None else
    var tail := fs.value.1;
    if tail == [] || tail[0] != Int(RecordCount(|fs.value.0|, same)) then None else
    var id := Id(Undelta(master.ms, ms.value.0), Undelta(master.sq, sq.value.0));
    Some((id, Item(fs.value.0, FlagSet(flags.value.0, 1)), tail[1..]))
  }

  function TakeRecords(es: Elems, master: Id, names: seq<Bytes>): Option<Records>
    decreases |es|
  {
    if es == [] then Some([]) else
    var r := TakeRecord(es, master, names);
    if r.None? then None else
    var rest := TakeRecords(r.value.2, master, names);
    if rest.None? then None else Some([(r.value.0, r.value.1)] + rest.value)
  }

  function TakeHeader(es: Elems): Option<(int, int, seq<Bytes>, Elems)> {
    var live := PopInt(es);
    if live.None? then None else
    var deleted := PopInt(live.value.1);
    if deleted.None? then None else
    var n := PopInt(deleted.value.1);
    if n.None? then None else
    if live.value.0 < 0 || deleted.value.0 < 0 || n.value.0 < 0 then None else
    var names := TakeNames(n.value.1, n.value.0);
    if names.None? then None else
    var zero := PopInt(names.value.1);
    if zero.None? || zero.value.0 != 0 then None else
    Some((live.value.0, deleted.value.0, names.value.0, zero.value.1))
  }

  /** The records of a node, checked against its announced counts. */
  function ParsedNode(es: Elems, master: Id): Option<Records> {
    var h := TakeHeader(es);
    if h.None? then None else
    var rs := TakeRecords(h.value.3, master, h.value.2);
    if rs.None? then None
    else if h.value.0 != Live(rs.value) || h.value.1 != |rs.value| - Live(rs.value) then None
    else rs
  }

  // ---- reading what was written ----

  lemma PopTextBack(s: Bytes, rest: Elems)
    requires rest != []
    ensures PopText([Stored(s)] + rest) == Some((s, rest))
  {
    hide Stored, Text;
    TextStored(s);
    assert ([Stored(s)] + rest)[1..] == rest;
  }

  lemma {:induction false} TakeNamesBack(ss: seq<Bytes>, tail: Elems)
    requires tail != []
    ensures TakeNames(Texts(ss) + tail, |ss|) == Some((ss, tail))
  {
    hide Stored, PopText;
    if ss == [] {
      assert Texts(ss) + tail == tail;
    } else {
      var rest := Texts(ss[1..]) + tail;
      assert Texts(ss) + tail == [Stored(ss[0])] + rest;
      PopTextBack(ss[0], rest);
      TakeNamesBack(ss[1..], tail);
      assert ss == [ss[0]] + ss[1..];
    }
  }

  lemma {:induction false} TakeValuesBack(fields: Fields, tail: Elems)
    requires tail != []
    ensures TakeValues(Values(fields) + tail, Names(fields)) == Some((fields, tail))
  {
    hide Stored, PopText;
    if fields == [] {
      assert Values(fields) + tail == tail;
    } else {
      var f := fields[0];
      var rest := Values(fields[1..]) + tail;
      assert Values(fields) + tail == [Stored(f.1)] + rest;
      PopTextBack(f.1, rest);
      TakeValuesBack(fields[1..], tail);
      assert Names(fields)[1..] == Names(fields[1..]);
      assert fields == [(f.0, f.1)] + fields[1..];
    }
  }

  lemma {:induction false} TakePairsBack(fields: Fields, tail: Elems)
    requires tail != []
    ensures TakePairs(Pairs(fields) + tail, |fields|) == Some((fields, tail))
  {
    hide Stored, PopText;
    if fields == [] {
      assert Pairs(fields) + tail == tail;
    } else {
      var f := fields[0];
      var rest := Pairs(fields[1..]) + tail;
      assert Pairs(fields) + tail == [Stored(f.0)] + ([Stored(f.1)] + rest);
      PopTextBack(f.0, [Stored(f.1)] + rest);
      PopTextBack(f.1, rest);
      TakePairsBack(fields[1..], tail);
      assert fields == [(f.0, f.1)] + fields[1..];
    }
  }

  lemma TakeFieldsBack(item: Item, names: seq<Bytes>, tail: Elems)
    requires tail != []
    ensures var same := Names(item.fields) == names;
            TakeFields((if same then Values(item.fields) else [Int(|item.fields|)] + Pairs(item.fields)) + tail, same, names)
            == Some((item.fields, tail))
  {
    if Names(item.fields) == names {
      TakeValuesBack(item.fields, tail);
    } else {
      var es := [Int(|item.fields|)] + Pairs(item.fields) + tail;
      assert es[1..] == Pairs(item.fields) + tail;
      TakePairsBack(item.fields, tail);
    }
  }

  lemma FlagsBack(deleted: bool, same: bool)
    ensures FlagSet(Flags(deleted, same), 2) == same && FlagSet(Flags(deleted, same), 1) == deleted
  {
  }

  lemma PopThree(a: int, b: int, c: int, tail: Elems)
    requires tail != []
    ensures var es := [Int(a), Int(b), Int(c)] + tail;
            PopInt(es) == Some((a, es[1..])) && PopInt(es[1..]) == Some((b, es[2..])) && PopInt(es[2..]) == Some((c, tail))
  {
    var es := [Int(a), Int(b), Int(c)] + tail;
    assert es[1..][1..] == es[2..] && es[2..][1..] == tail;
  }

  lemma TakeRecordBack(id: Id, item: Item, master: Id, names: seq<Bytes>, tail: Elems)
    requires IdOk(id) && IdOk(master)
    ensures TakeRecord(Record(id, item, master, names) + tail, master, names) == Some((id, item, tail))
  {
    hide TakeFields, PopInt, Values, Pairs, Names, FlagSet, Flags, Delta, Undelta;
    var same := Names(item.fields) == names;
    var count := Int(RecordCount(|item.fields|, same));
    var body := if same then Values(item.fields) else [Int(|item.fields|)] + Pairs(item.fields);
    var es := Record(id, item, master, names) + tail;
    var flags := Flags(item.deleted, same);
    var dm, ds := Delta(id.ms, master.ms), Delta(id.sq, master.sq);
    assert es == [Int(flags), Int(dm), Int(ds)] + (body + ([count] + tail));
    PopThree(flags, dm, ds, body + ([count] + tail));
    TakeFieldsBack(item, names, [count] + tail);
    FlagsBack(item.deleted, same);
    UndeltaDelta(id.ms, master.ms);
    UndeltaDelta(id.sq, master.sq);
    assert ([count] + tail)[1..] == tail;
  }

  predicate IdsOk(rs: Records) { forall i :: 0 <= i < |rs| ==> IdOk(rs[i].0) }

  lemma {:induction false} TakeRecordsBack(rs: Records, master: Id, names: seq<Bytes>)
    requires IdsOk(rs) && IdOk(master)
    ensures TakeRecords(AllRecords(rs, master, names), master, names) == Some(rs)
  {
    hide TakeRecord;
    if rs != [] {
      var rest := AllRecords(rs[1..], master, names);
      TakeRecordBack(rs[0].0, rs[0].1, master, names, rest);
      TakeRecordsBack(rs[1..], master, names);
      assert rs == [(rs[0].0, rs[0].1)] + rs[1..];
    }
  }

  /** Parsing the elements of a node gives its records back, tombstones, shared names and wrapped IDs included. */
  lemma ParsedNodeBack(node: Node)
    requires node.records != [] && IdsOk(node.records) && IdOk(node.master)
    ensures ParsedNode(NodeElems(node), node.master) == Some(node.records)
  {
    hide TakeRecords, TakeNames, PopInt, Record, Texts;
    var rs := AllRecords(node.records, node.master, node.names);
    var live := Live(node.records);
    var tail := [Int(0)] + rs;
    assert NodeElems(node) == [Int(live), Int(|node.records| - live), Int(|node.names|)] + (Texts(node.names) + tail);
    PopThree(live, |node.records| - live, |node.names|, Texts(node.names) + tail);
    TakeNamesBack(node.names, tail);
    assert rs != [];
    PopOne(0, rs);
    TakeRecordsBack(node.records, node.master, node.names);
  }

  lemma PopOne(v: int, tail: Elems)
    requires tail != []
    ensures PopInt([Int(v)] + tail) == Some((v, tail))
  {
    assert ([Int(v)] + tail)[1..] == tail;
  }
}
