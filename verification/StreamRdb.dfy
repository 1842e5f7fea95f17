/** The saver and the loader of streams as src/core/rdb.rs runs them, against StreamDumpSpec. */
module StreamRdb {
  import opened Bits
  import opened Words
  import opened RdbStringSpec
  import opened RdbString
  import opened ListpackSpec
  import Listpack
  import opened StreamNodeSpec
  import opened StreamDumpSpec

  // ---- building a node ----

  /** An append has room when the finished list has. */
  lemma Room(pre: Elems, e: Entry, tail: Elems, all: Elems)
    requires AllOk(all) && all == pre + [e] + tail
    ensures AllOk(pre) && EntryOk(e) && Total(pre) + |Element(e)| <= Total(all)
  {
    assert AllOk(pre) && AllOk([e]) && AllOk(tail) by {
      assert forall i :: 0 <= i < |pre| ==> pre[i] == all[i];
      assert e == all[|pre|];
      assert forall i :: 0 <= i < |tail| ==> tail[i] == all[|pre| + 1 + i];
    }
    hide EntryOk, Element, Body;
    BodyConcat(pre, [e]);
    BodyConcat(pre + [e], tail);
    Listpack.BodyOne(e);
  }

  /** Builder `b` is on its way to the list `all`, with `todo` still to come. */
  ghost predicate Left(b: Listpack.Builder, todo: Elems, all: Elems)
    reads b
  {
    b.Valid() && AllOk(all) && Total(all) < TWO32 && all == b.entries + todo
  }

  method PushInt(b: Listpack.Builder, v: int, ghost tail: Elems, ghost all: Elems)
    requires Left(b, [Int(v)] + tail, all)
    modifies b
    ensures Left(b, tail, all)
  {
    assert all == b.entries + [Int(v)] + tail;
    Room(b.entries, Int(v), tail, all);
    b.AppendInteger(v);
  }

  method PushText(b: Listpack.Builder, s: Bytes, ghost tail: Elems, ghost all: Elems)
    requires Left(b, [Stored(s)] + tail, all) && |s| < TWO32
    modifies b
    ensures Left(b, tail, all)
  {
    assert all == b.entries + [Stored(s)] + tail;
    Room(b.entries, Stored(s), tail, all);
    b.AppendBytes(s);
  }

  function Content(item: Item, same: bool): Elems {
    if same then Values(item.fields) else [Int(|item.fields|)] + Pairs(item.fields)
  }

  lemma RecordSplits(id: Id, item: Item, master: Id, names: seq<Bytes>, tail: Elems)
    ensures var same := Names(item.fields) == names;
            Record(id, item, master, names) + tail ==
            [Int(Flags(item.deleted, same))] + ([Int(Delta(id.ms, master.ms))] + ([Int(Delta(id.sq, master.sq))]
            + (Content(item, same) + ([Int(RecordCount(|item.fields|, same))] + tail))))
  {
    hide Values, Pairs, Delta, Flags;
  }

  lemma PairsSplit(n: nat, fields: Fields, tail: Elems)
    ensures [Int(n)] + Pairs(fields) + tail == [Int(n)] + (Pairs(fields) + tail)
  {
    hide Pairs;
  }

  method AppendStreamEntry(b: Listpack.Builder, id: Id, item: Item, master: Id, names: seq<Bytes>, ghost tail: Elems,
                           ghost all: Elems)
    requires ItemOk(item) && Left(b, Record(id, item, master, names) + tail, all)
    modifies b
    ensures Left(b, tail, all)
  {
    hide Left, Delta, Flags, RecordCount, Record, Values, Pairs;
    var same := Names(item.fields) == names;
    var n := |item.fields|;
    ghost var count := [Int(RecordCount(n, same))] + tail;
    ghost var body := Content(item, same) + count;
    RecordSplits(id, item, master, names, tail);
    PushInt(b, Flags(item.deleted, same), [Int(Delta(id.ms, master.ms))] + ([Int(Delta(id.sq, master.sq))] + body), all);
    PushInt(b, Delta(id.ms, master.ms), [Int(Delta(id.sq, master.sq))] + body, all);
    PushInt(b, Delta(id.sq, master.sq), body, all);
    if !same {
      PairsSplit(n, item.fields, count);
      PushInt(b, n, Pairs(item.fields) + count, all);
    }
    AppendFields(b, item.fields, same, count, all);
    PushInt(b, RecordCount(n, same), tail, all);
  }

  lemma FieldsSplit(fields: Fields, i: nat, tail: Elems)
    requires i <= |fields|
    ensures i == |fields| ==> Values(fields[i..]) + tail == tail && Pairs(fields[i..]) + tail == tail
    ensures i < |fields| ==>
              && Values(fields[i..]) + tail == [Stored(fields[i].1)] + (Values(fields[i + 1..]) + tail)
              && Pairs(fields[i..]) + tail == [Stored(fields[i].0)] + ([Stored(fields[i].1)] + (Pairs(fields[i + 1..]) + tail))
  {
    hide Stored;
    if i < |fields| {
      assert fields[i..][0] == fields[i] && fields[i..][1..] == fields[i + 1..];
    }
  }

  method AppendFields(b: Listpack.Builder, fields: Fields, same: bool, ghost tail: Elems, ghost all: Elems)
    requires StringsOk(fields) && Left(b, (if same then Values(fields) else Pairs(fields)) + tail, all)
    modifies b
    ensures Left(b, tail, all)
  {
    hide Left, Stored, Values, Pairs;
    assert fields[0..] == fields;
    for i := 0 to |fields|
      invariant Left(b, (if same then Values(fields[i..]) else Pairs(fields[i..])) + tail, all)
    {
      FieldsSplit(fields, i, tail);
      var f, v := fields[i].0, fields[i].1;
      if same {
        PushText(b, v, Values(fields[i + 1..]) + tail, all);
      } else {
        PushText(b, f, [Stored(v)] + (Pairs(fields[i + 1..]) + tail), all);
        PushText(b, v, Pairs(fields[i + 1..]) + tail, all);
      }
    }
    FieldsSplit(fields, |fields|, tail);
  }

  method CountLive(rs: Records) returns (live: nat)
    ensures live == Live(rs)
  {
    live := 0;
    for i := 0 to |rs|
      invariant live + Live(rs[i..]) == Live(rs)
    {
      assert rs[i..][1..] == rs[i + 1..];
      if !rs[i].1.deleted {
        live := live + 1;
      }
    }
  }

  lemma NodeSplits(node: Node)
    ensures var live := Live(node.records);
            NodeElems(node) ==
            [Int(live)] + ([Int(|node.records| - live)] + ([Int(|node.names|)] + (Texts(node.names) + ([Int(0)]
            + AllRecords(node.records, node.master, node.names)))))
  {
    hide Texts, AllRecords, Live;
  }

  lemma NodeStarts(node: Node, b: Listpack.Builder)
    requires NodeOk(node) && |NodeBytes(node)| < TWO32 && b.Valid() && b.entries == []
    ensures Left(b, NodeElems(node), NodeElems(node))
  {
    NodeElemsOk(node);
  }

  lemma NodeEnds(node: Node, b: Listpack.Builder)
    requires NodeOk(node) && Left(b, [], NodeElems(node))
    ensures b.buf == NodeBytes(node)
  {
    assert b.entries + [] == b.entries;
  }

  /** The counts, the shared field names and a zero. */
  method AppendMaster(lp: Listpack.Builder, node: Node, live: nat, ghost rs: Elems, ghost all: Elems)
    requires (forall i :: 0 <= i < |node.names| ==> |node.names[i]| < TWO32) && live <= |node.records|
    requires Left(lp, [Int(live)] + ([Int(|node.records| - live)] + ([Int(|node.names|)]
                  + (Texts(node.names) + ([Int(0)] + rs)))), all)
    modifies lp
    ensures Left(lp, rs, all)
  {
    hide Left, Texts;
    ghost var names := Texts(node.names) + ([Int(0)] + rs);
    PushInt(lp, live, [Int(|node.records| - live)] + ([Int(|node.names|)] + names), all);
    PushInt(lp, |node.records| - live, [Int(|node.names|)] + names, all);
    PushInt(lp, |node.names|, names, all);
    AppendNames(lp, node.names, [Int(0)] + rs, all);
    PushInt(lp, 0, rs, all);
  }

  lemma NodeParts(node: Node)
    requires NodeOk(node)
    ensures Live(node.records) <= |node.records| && forall i :: 0 <= i < |node.names| ==> |node.names[i]| < TWO32
  {
    LiveAtMost(node.records);
  }

  lemma {:induction false} LiveAtMost(rs: Records)
    ensures Live(rs) <= |rs|
  {
    if rs != [] {
      LiveAtMost(rs[1..]);
    }
  }

  /** The listpack of a node: master entry, then a record for every entry. */
  method BuildNode(node: Node) returns (r: Bytes)
    requires NodeOk(node) && |NodeBytes(node)| < TWO32
    ensures r == NodeBytes(node)
  {
    hide Left, Live, NodeElems, NodeBytes, AllRecords, Texts, NodeOk;
    ghost var all := NodeElems(node);
    var live := CountLive(node.records);
    NodeParts(node);
    var lp := new Listpack.Builder();
    NodeStarts(node, lp);
    NodeSplits(node);
    AppendMaster(lp, node, live, AllRecords(node.records, node.master, node.names), all);
    AppendRecords(lp, node, all);
    NodeEnds(node, lp);
    r := lp.buf;
  }

  lemma TextsSplit(ss: seq<Bytes>, i: nat, tail: Elems)
    requires i <= |ss|
    ensures i == |ss| ==> Texts(ss[i..]) + tail == tail
    ensures i < |ss| ==> Texts(ss[i..]) + tail == [Stored(ss[i])] + (Texts(ss[i + 1..]) + tail)
  {
    hide Stored;
    if i < |ss| {
      assert ss[i..][0] == ss[i] && ss[i..][1..] == ss[i + 1..];
    }
  }

  method AppendNames(lp: Listpack.Builder, ss: seq<Bytes>, ghost tail: Elems, ghost all: Elems)
    requires (forall i :: 0 <= i < |ss| ==> |ss[i]| < TWO32) && Left(lp, Texts(ss) + tail, all)
    modifies lp
    ensures Left(lp, tail, all)
  {
    hide Left, Stored, Texts;
    assert ss[0..] == ss;
    for i := 0 to |ss|
      invariant Left(lp, Texts(ss[i..]) + tail, all)
    {
      TextsSplit(ss, i, tail);
      PushText(lp, ss[i], Texts(ss[i + 1..]) + tail, all);
    }
    TextsSplit(ss, |ss|, tail);
  }

  method AppendRecords(lp: Listpack.Builder, node: Node, ghost all: Elems)
    requires NodeOk(node) && Left(lp, AllRecords(node.records, node.master, node.names), all)
    modifies lp
    ensures Left(lp, [], all)
  {
    hide Left, Record, ItemOk;
    var rs := node.records;
    assert rs[0..] == rs;
    for i := 0 to |rs|
      invariant Left(lp, AllRecords(rs[i..], node.master, node.names), all)
    {
      assert rs[i..][1..] == rs[i + 1..];
      AppendStreamEntry(lp, rs[i].0, rs[i].1, node.master, node.names, AllRecords(rs[i + 1..], node.master, node.names), all);
    }
  }

  // ---- splitting ----

  /** Entries go to the last node while it has room, otherwise to a new one keyed by the entry's ID. */
  method SplitNodes(rs: Records) returns (ns: seq<Node>)
    requires RecordsOk(rs)
    ensures ns == NodesOf(rs)
  {
    hide Full, NodeOk, ItemOk;
    ns := [];
    var cur: Option<Node> := None;
    for i := 0 to |rs|
      invariant cur.None? <==> i == 0
      invariant i == 0 ==> ns == []
      invariant cur.Some? ==> NodeOk(cur.value) && ns + Nodes(cur.value, rs[i..]) == NodesOf(rs)
    {
      ghost var rest := rs[i..];
      assert rest[0] == rs[i] && rest[1..] == rs[i + 1..] && RecordsOk(rest);
      FreshOk(rs[i]);
      if cur.None? {
        cur := Some(Fresh(rs[i]));
        assert rs[0..] == rs;
        assert [] + NodesOf(rs) == NodesOf(rs);
      } else if Full(cur.value, rs[i].1) {
        assert ns + ([cur.value] + Nodes(Fresh(rs[i]), rs[i + 1..])) == ns + [cur.value] + Nodes(Fresh(rs[i]), rs[i + 1..]);
        ns := ns + [cur.value];
        cur := Some(Fresh(rs[i]));
      } else {
        MoreOk(cur.value, rs[i]);
        cur := Some(cur.value.(records := cur.value.records + [rs[i]]));
      }
    }
    if cur.Some? {
      ns := ns + [cur.value];
    }
  }

  // ---- saving ----

  method SaveStream(out: Bytes, v: View, worth: Worth) returns (r: Bytes)
    requires ViewOk(v)
    ensures r == out + SavedStream(v, worth)
  {
    hide SavedLen, SavedString, NodeBytes, NodesOf, SavedNodes, SavedCounters, SavedGroups, NodeOk, GroupOk, RecordsOk, NodesFit;
    var ns := SplitNodes(v.entries);
    r := WriteLen(out, |ns|);
    r := SaveNodes(r, ns, worth);
    r := SaveCounters(r, v);
    r := WriteLen(r, |v.groups|);
    r := SaveGroups(r, v.groups, worth);
    Gather(out, SavedLen(|ns|), SavedNodes(ns, worth), SavedCounters(v), SavedLen(|v.groups|), SavedGroups(v.groups, worth));
  }

  lemma Gather(out: Bytes, a: Bytes, b: Bytes, c: Bytes, d: Bytes, e: Bytes)
    ensures out + a + b + c + d + e == out + (a + b + c + d + e)
  {
  }

  method SaveNodes(out: Bytes, ns: seq<Node>, worth: Worth) returns (r: Bytes)
    requires NodesFit(ns)
    ensures r == out + SavedNodes(ns, worth)
  {
    hide SavedString, NodeBytes, NodeOk, IdBytes;
    r := out;
    assert ns[0..] == ns;
    for i := 0 to |ns|
      invariant r + SavedNodes(ns[i..], worth) == out + SavedNodes(ns, worth)
    {
      assert NodeOk(ns[i]);
      assert ns[i..][0] == ns[i] && ns[i..][1..] == ns[i + 1..];
      var lp := BuildNode(ns[i]);
      ghost var was, key := r, IdBytes(ns[i].master);
      r := SaveString(r, IdBytes(ns[i].master), worth);
      r := SaveString(r, lp, worth);
      Regroup(was, SavedString(key, worth), SavedString(lp, worth), SavedNodes(ns[i + 1..], worth));
    }
  }

  lemma Regroup(out: Bytes, a: Bytes, b: Bytes, rest: Bytes)
    ensures out + (a + b + rest) == out + a + b + rest
  {
  }

  method SaveCounters(out: Bytes, v: View) returns (r: Bytes)
    requires ViewOk(v)
    ensures r == out + SavedCounters(v)
  {
    FirstLiveOk(v.entries);
    hide SavedLen, NodesOf, NodesFit, GroupOk, ItemOk, FirstLive;
    var first := FirstLive(v.entries);
    r := WriteLen(out, v.length);
    r := SaveId(r, v.last);
    r := SaveId(r, first);
    r := SaveId(r, v.maxDeleted);
    r := WriteLen(r, |v.entries|);
    Gather(out, SavedLen(v.length), SavedId(v.last), SavedId(first), SavedId(v.maxDeleted), SavedLen(|v.entries|));
  }

  method SaveId(out: Bytes, id: Id) returns (r: Bytes)
    requires IdOk(id)
    ensures r == out + SavedId(id)
  {
    hide SavedLen;
    r := WriteLen(out, id.ms);
    r := WriteLen(r, id.sq);
  }

  method SaveGroups(out: Bytes, gs: seq<(Bytes, GroupView)>, worth: Worth) returns (r: Bytes)
    requires forall i :: 0 <= i < |gs| ==> GroupOk(gs[i])
    ensures r == out + SavedGroups(gs, worth)
  {
    hide GroupOk, SavedGroup;
    r := out;
    assert gs[0..] == gs;
    for i := 0 to |gs|
      invariant r + SavedGroups(gs[i..], worth) == out + SavedGroups(gs, worth)
    {
      assert gs[i..][0] == gs[i] && gs[i..][1..] == gs[i + 1..];
      ghost var was := r;
      r := SaveGroup(r, gs[i], worth);
      assert was + (SavedGroup(gs[i], worth) + SavedGroups(gs[i + 1..], worth)) == r + SavedGroups(gs[i + 1..], worth);
    }
  }

  method SaveGroup(out: Bytes, g: (Bytes, GroupView), worth: Worth) returns (r: Bytes)
    requires GroupOk(g)
    ensures r == out + SavedGroup(g, worth)
  {
    hide SavedLen, SavedString, SavedPel, SavedConsumers, SavedId, PendingOk, ConsumerOk;
    var v := g.1;
    r := SaveString(out, g.0, worth);
    r := SaveId(r, v.last);
    r := WriteLen(r, Wrap(v.entriesRead + 1, TWO64));
    r := WriteLen(r, |v.pel|);
    r := SavePel(r, v.pel);
    Gather(out, SavedString(g.0, worth), SavedId(v.last), SavedLen(Wrap(v.entriesRead + 1, TWO64)), SavedLen(|v.pel|), SavedPel(v.pel));
    ghost var half := SavedString(g.0, worth) + SavedId(v.last) + SavedLen(Wrap(v.entriesRead + 1, TWO64)) + SavedLen(|v.pel|) + SavedPel(v.pel);
    r := WriteLen(r, |v.consumers|);
    r := SaveConsumers(r, v.consumers, v.pel, worth);
    Regroup(out, half, SavedLen(|v.consumers|), SavedConsumers(v.consumers, v.pel, worth));
  }

  method SavePel(out: Bytes, pel: seq<(Id, Pending)>) returns (r: Bytes)
    requires forall i :: 0 <= i < |pel| ==> PendingOk(pel[i])
    ensures r == out + SavedPel(pel)
  {
    hide SavedLen, IdBytes, Le;
    r := out;
    assert pel[0..] == pel;
    for i := 0 to |pel|
      invariant r + SavedPel(pel[i..]) == out + SavedPel(pel)
    {
      assert pel[i..][0] == pel[i] && pel[i..][1..] == pel[i + 1..] && PendingOk(pel[i]);
      ghost var was, rest := r, SavedPel(pel[i + 1..]);
      var p := pel[i].1;
      r := r + IdBytes(pel[i].0);
      r := r + Le(p.time, 8);
      r := WriteLen(r, p.count);
      Gather(was, IdBytes(pel[i].0), Le(p.time, 8), SavedLen(p.count), rest, []);
      assert r + rest + [] == r + rest;
      assert IdBytes(pel[i].0) + Le(p.time, 8) + SavedLen(p.count) + rest + [] == SavedPel(pel[i..]);
    }
  }

  method OwnedBy(pel: seq<(Id, Pending)>, name: Bytes) returns (ids: seq<Id>)
    ensures ids == Owned(pel, name)
  {
    ids := [];
    assert pel[0..] == pel;
    for i := 0 to |pel|
      invariant ids + Owned(pel[i..], name) == Owned(pel, name)
    {
      assert pel[i..][0] == pel[i] && pel[i..][1..] == pel[i + 1..];
      if pel[i].1.consumer == name {
        assert ids + ([pel[i].0] + Owned(pel[i + 1..], name)) == ids + [pel[i].0] + Owned(pel[i + 1..], name);
        ids := ids + [pel[i].0];
      }
    }
  }

  method SaveConsumers(out: Bytes, cs: seq<(Bytes, Consumer)>, pel: seq<(Id, Pending)>, worth: Worth) returns (r: Bytes)
    requires |pel| < TWO64 && forall i :: 0 <= i < |cs| ==> ConsumerOk(cs[i])
    ensures r == out + SavedConsumers(cs, pel, worth)
  {
    hide SavedConsumer, ConsumerOk, Owned;
    r := out;
    assert cs[0..] == cs;
    for i := 0 to |cs|
      invariant r + SavedConsumers(cs[i..], pel, worth) == out + SavedConsumers(cs, pel, worth)
    {
      assert cs[i..][0] == cs[i] && cs[i..][1..] == cs[i + 1..];
      ghost var was, rest := r, SavedConsumers(cs[i + 1..], pel, worth);
      var ids := OwnedBy(pel, cs[i].0);
      r := SaveConsumer(r, cs[i], ids, worth);
      assert was + (SavedConsumer(cs[i], ids, worth) + rest) == r + rest;
    }
  }

  method SaveConsumer(out: Bytes, c: (Bytes, Consumer), ids: seq<Id>, worth: Worth) returns (r: Bytes)
    requires ConsumerOk(c) && |ids| < TWO64
    ensures r == out + SavedConsumer(c, ids, worth)
  {
    hide SavedLen, SavedString, Le, IdList, IdBytes;
    r := SaveString(out, c.0, worth);
    r := r + Le(c.1.seen, 8);
    r := r + Le(Wrap(c.1.active, TWO64), 8);
    r := WriteLen(r, |ids|);
    r := SaveIds(r, ids);
    Gather(out, SavedString(c.0, worth), Le(c.1.seen, 8), Le(Wrap(c.1.active, TWO64), 8), SavedLen(|ids|), IdList(ids));
  }

  method SaveIds(out: Bytes, ids: seq<Id>) returns (r: Bytes)
    ensures r == out + IdList(ids)
  {
    hide IdBytes;
    r := out;
    assert ids[0..] == ids;
    for i := 0 to |ids|
      invariant r + IdList(ids[i..]) == out + IdList(ids)
    {
      assert ids[i..][0] == ids[i] && ids[i..][1..] == ids[i + 1..];
      assert r + (IdBytes(ids[i]) + IdList(ids[i + 1..])) == r + IdBytes(ids[i]) + IdList(ids[i + 1..]);
      r := r + IdBytes(ids[i]);
    }
  }
}
