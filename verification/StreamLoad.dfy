/** The stream loader of src/core/rdb.rs as it runs, cursor by cursor, against StreamDumpSpec. */
module StreamLoad {
  import opened Bits
  import opened Words
  import opened RdbStringSpec
  import opened RdbString
  import opened ListpackSpec
  import Listpack
  import opened StreamNodeSpec
  import opened StreamDumpSpec

  // ---- walking a node ----

  /** Position `p` of `lp` stands for the non-empty list of elements `es` from it on. */
  predicate From(lp: Bytes, p: nat, es: Elems) { es != [] && Elements(lp, p) == Some(es) }

  lemma FromStep(lp: Bytes, p: nat, es: Elems)
    requires From(lp, p, es)
    ensures p < |lp| && lp[p] != EOF && EntryAt(lp, p) == Some(es[0]) && NextAt(lp, p).Some?
    ensures var np := NextAt(lp, p).value;
            np < |lp| && (lp[np] == EOF ==> |es| == 1) && (lp[np] != EOF ==> From(lp, np, es[1..]) && |es| >= 2)
  {
    hide NextAt, EntryAt;
    assert lp[p] != EOF;
    Listpack.ElementsStep(lp, p);
    var np := NextAt(lp, p).value;
    if lp[np] == EOF {
      Listpack.ElementsEnd(lp, np);
    }
  }

  method PopIntAt(lp: Bytes, p: nat, ghost es: Elems) returns (r: Option<(int, nat)>)
    requires From(lp, p, es)
    ensures r.None? <==> PopInt(es).None?
    ensures r.Some? ==> |es| >= 2 && PopInt(es) == Some((r.value.0, es[1..])) && From(lp, r.value.1, es[1..])
  {
    hide NextAt, Elements, IntegerOf, EntryOf;
    FromStep(lp, p, es);
    var v := IntegerOf(lp[p..]);
    if es[0].Int? {
      IntegersAgree(lp[p..], es[0].v);
    }
    if v.None? {
      return None;
    }
    IntegersAgree(lp[p..], v.value);
    var np := Listpack.Next(lp, p);
    r := if np.None? then None else Some((v.value, np.value));
  }

  method PopTextAt(lp: Bytes, p: nat, ghost es: Elems) returns (r: Option<(Bytes, nat)>)
    requires From(lp, p, es)
    ensures r.None? <==> PopText(es).None?
    ensures r.Some? ==> |es| >= 2 && PopText(es) == Some((r.value.0, es[1..])) && From(lp, r.value.1, es[1..])
  {
    hide NextAt, Elements, EntryOf;
    FromStep(lp, p, es);
    var e := EntryAt(lp, p);
    var np := Listpack.Next(lp, p);
    r := if np.None? then None else Some((Text(e.value), np.value));
  }

  /** What a loop that has read `acc` still has to return, when the rest of its work gives `r`. */
  function Onto<T>(acc: seq<T>, r: Option<(seq<T>, Elems)>): Option<(seq<T>, Elems)> {
    if r.None? then None else Some((acc + r.value.0, r.value.1))
  }

  /** The result of a walk that ends inside the list, as positions. */
  predicate Reached<T(==)>(lp: Bytes, r: Option<(seq<T>, nat)>, spec: Option<(seq<T>, Elems)>) {
    && (r.None? <==> spec.None?)
    && (r.Some? ==> r.value.0 == spec.value.0 && From(lp, r.value.1, spec.value.1))
  }

  lemma OntoStep<T>(acc: seq<T>, x: T, r: Option<(seq<T>, Elems)>)
    ensures Onto(acc, if r.None? then None else Some(([x] + r.value.0, r.value.1))) == Onto(acc + [x], r)
  {
    if r.Some? {
      assert acc + ([x] + r.value.0) == acc + [x] + r.value.0;
    }
  }

  lemma OntoNothing<T>(r: Option<(seq<T>, Elems)>)
    ensures Onto([], r) == r
  {
    if r.Some? {
      assert [] + r.value.0 == r.value.0;
    }
  }

  method NamesAt(lp: Bytes, start: nat, n: nat, ghost all: Elems) returns (r: Option<(seq<Bytes>, nat)>)
    requires From(lp, start, all)
    ensures Reached(lp, r, TakeNames(all, n))
  {
    hide Elements, PopText;
    var p, names: seq<Bytes> := start, [];
    ghost var es := all;
    OntoNothing(TakeNames(all, n));
    for i := 0 to n
      invariant From(lp, p, es) && Onto(names, TakeNames(es, n - i)) == TakeNames(all, n)
    {
      var t := PopTextAt(lp, p, es);
      if t.None? {
        return None;
      }
      OntoStep(names, t.value.0, TakeNames(es[1..], n - i - 1));
      names := names + [t.value.0];
      p := t.value.1;
      es := es[1..];
    }
    assert names + [] == names;
    r := Some((names, p));
  }

  method ValuesAt(lp: Bytes, start: nat, names: seq<Bytes>, ghost all: Elems) returns (r: Option<(Fields, nat)>)
    requires From(lp, start, all)
    ensures Reached(lp, r, TakeValues(all, names))
  {
    hide Elements, PopText;
    var p, fields: Fields := start, [];
    ghost var es := all;
    OntoNothing(TakeValues(all, names));
    assert names[0..] == names;
    for i := 0 to |names|
      invariant From(lp, p, es) && Onto(fields, TakeValues(es, names[i..])) == TakeValues(all, names)
    {
      assert names[i..][0] == names[i] && names[i..][1..] == names[i + 1..];
      var t := PopTextAt(lp, p, es);
      if t.None? {
        return None;
      }
      OntoStep(fields, (names[i], t.value.0), TakeValues(es[1..], names[i + 1..]));
      fields := fields + [(names[i], t.value.0)];
      p := t.value.1;
      es := es[1..];
    }
    assert fields + [] == fields;
    r := Some((fields, p));
  }

  method PairsAt(lp: Bytes, start: nat, n: nat, ghost all: Elems) returns (r: Option<(Fields, nat)>)
    requires From(lp, start, all)
    ensures Reached(lp, r, TakePairs(all, n))
  {
    hide Elements, PopText;
    var p, fields: Fields := start, [];
    ghost var es := all;
    OntoNothing(TakePairs(all, n));
    for i := 0 to n
      invariant From(lp, p, es) && Onto(fields, TakePairs(es, n - i)) == TakePairs(all, n)
    {
      var f := PopTextAt(lp, p, es);
      if f.None? {
        return None;
      }
      var v := PopTextAt(lp, f.value.1, es[1..]);
      if v.None? {
        return None;
      }
      OntoStep(fields, (f.value.0, v.value.0), TakePairs(es[1..][1..], n - i - 1));
      fields := fields + [(f.value.0, v.value.0)];
      p := v.value.1;
      es := es[1..][1..];
    }
    assert fields + [] == fields;
    r := Some((fields, p));
  }

  method FieldsAt(lp: Bytes, p: nat, same: bool, names: seq<Bytes>, ghost es: Elems) returns (r: Option<(Fields, nat)>)
    requires From(lp, p, es)
    ensures Reached(lp, r, TakeFields(es, same, names))
  {
    hide PopInt, TakePairs, TakeValues, From;
    if same {
      r := ValuesAt(lp, p, names, es);
      return;
    }
    var n := PopIntAt(lp, p, es);
    if n.None? || n.value.0 < 0 {
      return None;
    }
    r := PairsAt(lp, n.value.1, n.value.0, es[1..]);
  }

  /** Reads one record; the position after it is None at the end of the list. */
  method RecordAt(lp: Bytes, p: nat, master: Id, names: seq<Bytes>, ghost es: Elems) returns (r: Option<(Id, Item, Option<nat>)>)
    requires From(lp, p, es)
    ensures var spec := TakeRecord(es, master, names);
            && (r.None? <==> spec.None?)
            && (r.Some? ==> r.value.0 == spec.value.0 && r.value.1 == spec.value.1
                            && if r.value.2.None? then spec.value.2 == [] else From(lp, r.value.2.value, spec.value.2))
  {
    hide PopInt, TakeFields, From, NextAt, EntryOf, IntegerOf, Undelta;
    var flags := PopIntAt(lp, p, es);
    if flags.None? {
      return None;
    }
    var ms := PopIntAt(lp, flags.value.1, es[1..]);
    if ms.None? {
      return None;
    }
    var sq := PopIntAt(lp, ms.value.1, es[1..][1..]);
    if sq.None? {
      return None;
    }
    var same := FlagSet(flags.value.0, 2);
    ghost var body := es[1..][1..][1..];
    var fs := FieldsAt(lp, sq.value.1, same, names, body);
    if fs.None? {
      return None;
    }
    ghost var tail := TakeFields(body, same, names).value.1;
    var q := fs.value.1;
    FromStep(lp, q, tail);
    var count := IntegerOf(lp[q..]);
    IntegersAgree(lp[q..], RecordCount(|fs.value.0|, same));
    if count != Some(RecordCount(|fs.value.0|, same)) {
      return None;
    }
    var next := Listpack.Next(lp, q);
    FromNonEmpty(lp, q, tail);
    var id := Id(Undelta(master.ms, ms.value.0), Undelta(master.sq, sq.value.0));
    r := Some((id, Item(fs.value.0, FlagSet(flags.value.0, 1)), next));
  }

  lemma FromNonEmpty(lp: Bytes, p: nat, es: Elems)
    requires From(lp, p, es)
    ensures es != [] && (|es| == 1 ==> es[1..] == [])
  {
  }

  /** The records from `start` on, inserted one by one, with the live and deleted ones counted. */
  method RecordsAt(lp: Bytes, start: nat, master: Id, names: seq<Bytes>, was: map<Id, Item>, ghost all: Elems)
    returns (r: Option<(map<Id, Item>, nat, nat)>)
    requires From(lp, start, all)
    ensures var spec := TakeRecords(all, master, names);
            && (r.None? <==> spec.None?)
            && (r.Some? ==> r.value.0 == Insert(was, spec.value) && r.value.1 == Live(spec.value)
                            && r.value.2 == |spec.value| - Live(spec.value))
  {
    hide From, TakeRecord;
    var entries, live, deleted := was, 0, 0;
    var cur := Some(start);
    ghost var es := all;
    while cur.Some?
      invariant if cur.None? then es == [] else From(lp, cur.value, es)
      invariant var rest, spec := TakeRecords(es, master, names), TakeRecords(all, master, names);
                && (rest.None? <==> spec.None?)
                && (spec.Some? ==> Insert(entries, rest.value) == Insert(was, spec.value)
                                   && live + Live(rest.value) == Live(spec.value)
                                   && deleted + |rest.value| - Live(rest.value) == |spec.value| - Live(spec.value))
      decreases |es|
    {
      FromNonEmpty(lp, cur.value, es);
      var x := RecordAt(lp, cur.value, master, names, es);
      if x.None? {
        return None;
      }
      ghost var t := TakeRecord(es, master, names).value.2;
      RecordsStep(es, master, names, entries);
      var id, item := x.value.0, x.value.1;
      if item.deleted {
        deleted := deleted + 1;
      } else {
        live := live + 1;
      }
      entries := entries[id := item];
      cur := x.value.2;
      es := t;
    }
    r := Some((entries, live, deleted));
  }

  lemma RecordsStep(es: Elems, master: Id, names: seq<Bytes>, m: map<Id, Item>)
    requires es != [] && TakeRecord(es, master, names).Some?
    ensures var t := TakeRecord(es, master, names).value;
            var all, rest := TakeRecords(es, master, names), TakeRecords(t.2, master, names);
            && |t.2| < |es|
            && (all.None? <==> rest.None?)
            && (all.Some? ==> Insert(m, all.value) == Insert(m[t.0 := t.1], rest.value) && |all.value| == |rest.value| + 1
                              && Live(all.value) == Live(rest.value) + if t.1.deleted then 0 else 1)
  {
    hide TakeRecord;
    var t := TakeRecord(es, master, names).value;
    TakeRecordShrinks(es, master, names);
    var all, rest := TakeRecords(es, master, names), TakeRecords(t.2, master, names);
    if all.Some? {
      assert all.value[1..] == rest.value;
    }
  }

  lemma TakeRecordShrinks(es: Elems, master: Id, names: seq<Bytes>)
    ensures TakeRecord(es, master, names).Some? ==> |TakeRecord(es, master, names).value.2| < |es|
  {
  }

  /** The master entry: announced counts, the shared field names and a zero. */
  method HeaderAt(lp: Bytes, start: nat, ghost es: Elems) returns (r: Option<(int, int, seq<Bytes>, nat)>)
    requires From(lp, start, es)
    ensures var h := TakeHeader(es);
            && (r.None? <==> h.None?)
            && (r.Some? ==> r.value.0 == h.value.0 && r.value.1 == h.value.1 && r.value.2 == h.value.2
                            && From(lp, r.value.3, h.value.3))
  {
    hide PopInt, TakeNames, From;
    var live := PopIntAt(lp, start, es);
    if live.None? {
      return None;
    }
    var deleted := PopIntAt(lp, live.value.1, es[1..]);
    if deleted.None? {
      return None;
    }
    var n := PopIntAt(lp, deleted.value.1, es[1..][1..]);
    if n.None? {
      return None;
    }
    if live.value.0 < 0 || deleted.value.0 < 0 || n.value.0 < 0 {
      return None;
    }
    ghost var tail := es[1..][1..][1..];
    var names := NamesAt(lp, n.value.1, n.value.0, tail);
    if names.None? {
      return None;
    }
    ghost var rest := TakeNames(tail, n.value.0).value.1;
    var zero := PopIntAt(lp, names.value.1, rest);
    if zero.None? || zero.value.0 != 0 {
      return None;
    }
    r := Some((live.value.0, deleted.value.0, names.value.0, zero.value.1));
  }

  /** `parse_stream_node`: the entries of one validated node go into the map. */
  method ParseStreamNode(lp: Bytes, master: Id, was: map<Id, Item>) returns (r: Option<map<Id, Item>>)
    requires Validated(lp)
    ensures Elements(lp, HEADER).Some?
    ensures var rs := ParsedNode(Elements(lp, HEADER).value, master);
            r == if rs.None? then None else Some(Insert(was, rs.value))
  {
    WalkedDecodes(lp, HEADER);
    ghost var es := Elements(lp, HEADER).value;
    hide TakeHeader, TakeRecords, Live, From, Validated, NextAt, EntryAt, Insert;
    var first := Listpack.First(lp);
    if first.None? {
      Listpack.ElementsEnd(lp, HEADER);
      HeaderShort(es);
      return None;
    }
    FromStart(lp, es);
    var h := HeaderAt(lp, first.value, es);
    if h.None? {
      return None;
    }
    var x := RecordsAt(lp, h.value.3, master, h.value.2, was, TakeHeader(es).value.3);
    if x.None? || h.value.0 != x.value.1 || h.value.1 != x.value.2 {
      return None;
    }
    r := Some(x.value.0);
  }

  lemma HeaderShort(es: Elems)
    ensures es == [] ==> TakeHeader(es).None?
  {
  }

  lemma FromStart(lp: Bytes, es: Elems)
    requires |lp| > HEADER && lp[HEADER] != EOF && Elements(lp, HEADER) == Some(es)
    ensures From(lp, HEADER, es)
  {
  }

  // ---- the loader ----

  method GetNat(r: Reader) returns (v: Option<nat>)
    requires r.Valid()
    modifies r
    ensures r.At(v, ReadNat(r.data[old(r.pos)..]))
  {
    hide ReadLen;
    var l := r.ReadLength();
    v := if l.None? then None else Some(l.value.value);
  }

  method GetId(r: Reader) returns (v: Option<Id>)
    requires r.Valid()
    modifies r
    ensures r.At(v, ReadId(r.data[old(r.pos)..]))
  {
    hide ReadNat;
    var ms := GetNat(r);
    if ms.None? {
      return None;
    }
    var sq := GetNat(r);
    if sq.None? {
      return None;
    }
    v := Some(Id(ms.value, sq.value));
  }

  method GetRawId(r: Reader) returns (v: Option<Id>)
    requires r.Valid()
    modifies r
    ensures r.At(v, ReadRawId(r.data[old(r.pos)..]))
  {
    var raw := r.ReadExact(16);
    v := if raw.None? then None else Some(IdFrom(raw.value));
  }

  method GetU64(r: Reader) returns (v: Option<nat>)
    requires r.Valid()
    modifies r
    ensures r.At(v, ReadU64(r.data[old(r.pos)..]))
  {
    var raw := r.ReadExact(8);
    v := if raw.None? then None else Some(FromLe(raw.value));
  }

  method GetEntries(r: Reader, n: nat) returns (v: Option<map<Id, Item>>)
    requires r.Valid()
    modifies r
    ensures r.At(v, LoadNodes(r.data[old(r.pos)..], n, map[]))
  {
    hide ReadString, Validated, Elements, ParsedNode, IdFrom, Insert;
    var m: map<Id, Item> := map[];
    for i := 0 to n
      invariant r.Valid() && LoadNodes(r.data[r.pos..], n - i, m) == LoadNodes(r.data[old(r.pos)..], n, map[])
    {
      var key := r.ReadStr();
      if key.None? || |key.value| != 16 {
        return None;
      }
      var lp := r.ReadStr();
      if lp.None? || lp.value == [] {
        return None;
      }
      var ok := Listpack.ValidateDeep(lp.value);
      if !ok {
        return None;
      }
      ValidatedDecodes(lp.value);
      var x := ParseStreamNode(lp.value, IdFrom(key.value), m);
      if x.None? {
        return None;
      }
      m := x.value;
    }
    v := Some(m);
  }

  lemma ValidatedDecodes(lp: Bytes)
    requires Validated(lp)
    ensures Elements(lp, HEADER).Some?
  {
    WalkedDecodes(lp, HEADER);
  }

  method GetPel(r: Reader, n: nat) returns (v: Option<map<Id, Pending>>)
    requires r.Valid()
    modifies r
    ensures r.At(v, LoadPel(r.data[old(r.pos)..], n, map[]))
  {
    hide ReadRawId, ReadU64, ReadNat;
    var m: map<Id, Pending> := map[];
    for i := 0 to n
      invariant r.Valid() && LoadPel(r.data[r.pos..], n - i, m) == LoadPel(r.data[old(r.pos)..], n, map[])
    {
      var id := GetRawId(r);
      if id.None? {
        return None;
      }
      var time := GetU64(r);
      if time.None? {
        return None;
      }
      var count := GetNat(r);
      if count.None? {
        return None;
      }
      m := m[id.value := Pending([], time.value, count.value)];
    }
    v := Some(m);
  }

  method GetOwned(r: Reader, n: nat, name: Bytes, was: map<Id, Pending>) returns (v: Option<map<Id, Pending>>)
    requires r.Valid()
    modifies r
    ensures r.At(v, LoadOwned(r.data[old(r.pos)..], n, name, was))
  {
    hide ReadRawId;
    var m := was;
    for i := 0 to n
      invariant r.Valid() && LoadOwned(r.data[r.pos..], n - i, name, m) == LoadOwned(r.data[old(r.pos)..], n, name, was)
    {
      var id := GetRawId(r);
      if id.None? {
        return None;
      }
      m := if id.value in m then m[id.value := m[id.value].(consumer := name)] else m[id.value := Pending(name, 0, 0)];
    }
    v := Some(m);
  }

  method GetConsumer(r: Reader, s: Members) returns (v: Option<Members>)
    requires r.Valid()
    modifies r
    ensures r.At(v, LoadConsumer(r.data[old(r.pos)..], s))
  {
    hide ReadString, ReadU64, ReadNat, LoadOwned;
    var name := r.ReadStr();
    if name.None? {
      return None;
    }
    var seen := GetU64(r);
    if seen.None? {
      return None;
    }
    var active := GetU64(r);
    if active.None? {
      return None;
    }
    var n := GetNat(r);
    if n.None? {
      return None;
    }
    var pel := GetOwned(r, n.value, name.value, s.pel);
    if pel.None? {
      return None;
    }
    v := Some(Members(pel.value, s.consumers[name.value := Consumer(seen.value, Signed(active.value, TWO64), n.value)]));
  }

  method GetConsumers(r: Reader, n: nat, was: Members) returns (v: Option<Members>)
    requires r.Valid()
    modifies r
    ensures r.At(v, LoadConsumers(r.data[old(r.pos)..], n, was))
  {
    hide LoadConsumer;
    var s := was;
    for i := 0 to n
      invariant r.Valid() && LoadConsumers(r.data[r.pos..], n - i, s) == LoadConsumers(r.data[old(r.pos)..], n, was)
    {
      var x := GetConsumer(r, s);
      if x.None? {
        return None;
      }
      s := x.value;
    }
    v := Some(s);
  }

  method GetGroup(r: Reader) returns (v: Option<(Bytes, Group)>)
    requires r.Valid()
    modifies r
    ensures r.At(v, LoadGroup(r.data[old(r.pos)..]))
  {
    hide ReadString, ReadId, ReadNat, LoadPel, LoadConsumers;
    var name := r.ReadStr();
    if name.None? {
      return None;
    }
    var last := GetId(r);
    if last.None? {
      return None;
    }
    var read := GetNat(r);
    if read.None? {
      return None;
    }
    var pelSize := GetNat(r);
    if pelSize.None? {
      return None;
    }
    var pel := GetPel(r, pelSize.value);
    if pel.None? {
      return None;
    }
    var n := GetNat(r);
    if n.None? {
      return None;
    }
    var s := GetConsumers(r, n.value, Members(pel.value, map[]));
    if s.None? {
      return None;
    }
    v := Some((name.value, Group(last.value, CountRead(read.value), s.value.pel, s.value.consumers)));
  }

  method GetGroups(r: Reader, n: nat) returns (v: Option<map<Bytes, Group>>)
    requires r.Valid()
    modifies r
    ensures r.At(v, LoadGroups(r.data[old(r.pos)..], n, map[]))
  {
    hide LoadGroup;
    var m: map<Bytes, Group> := map[];
    for i := 0 to n
      invariant r.Valid() && LoadGroups(r.data[r.pos..], n - i, m) == LoadGroups(r.data[old(r.pos)..], n, map[])
    {
      var g := GetGroup(r);
      if g.None? {
        return None;
      }
      m := m[g.value.0 := g.value.1];
    }
    v := Some(m);
  }

  method GetCounters(r: Reader) returns (v: Option<Counters>)
    requires r.Valid()
    modifies r
    ensures r.At(v, LoadCounters(r.data[old(r.pos)..]))
  {
    hide ReadId, ReadNat;
    var length := GetNat(r);
    if length.None? {
      return None;
    }
    var last := GetId(r);
    if last.None? {
      return None;
    }
    var first := GetId(r);
    if first.None? {
      return None;
    }
    var deleted := GetId(r);
    if deleted.None? {
      return None;
    }
    var added := GetNat(r);
    if added.None? {
      return None;
    }
    v := Some(Counters(length.value, last.value, deleted.value));
  }

  method GetStream(r: Reader) returns (v: Option<Stream>)
    requires r.Valid()
    modifies r
    ensures r.At(v, LoadStream(r.data[old(r.pos)..]))
  {
    hide ReadNat, LoadNodes, LoadCounters, LoadGroups;
    var n := GetNat(r);
    if n.None? {
      return None;
    }
    var entries := GetEntries(r, n.value);
    if entries.None? {
      return None;
    }
    var c := GetCounters(r);
    if c.None? {
      return None;
    }
    var k := GetNat(r);
    if k.None? {
      return None;
    }
    var groups := GetGroups(r, k.value);
    if groups.None? {
      return None;
    }
    v := Some(Stream(entries.value, c.value.length, c.value.last, c.value.maxDeleted, groups.value));
  }
}
