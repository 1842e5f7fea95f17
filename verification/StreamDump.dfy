/**
 Dumping and restoring a whole stream (src/core/rdb.rs): entries split into listpack nodes, then the
 counters, then every consumer group with its pending list and its consumers.
 */
module StreamDumpSpec {
  import opened Bits
  import opened Words
  import opened Decimal
  import opened RdbStringSpec
  import opened ListpackSpec
  import opened StreamNodeSpec

  const NODE_MAX_BYTES: nat := 4096
  const NODE_MAX_ENTRIES: nat := 100

  datatype Pending = Pending(consumer: Bytes, time: nat, count: nat)
  datatype Consumer = Consumer(seen: nat, active: int, pending: nat)
  datatype Group = Group(last: Id, entriesRead: int, pel: map<Id, Pending>, consumers: map<Bytes, Consumer>)
  datatype Stream = Stream(entries: map<Id, Item>, length: nat, last: Id, maxDeleted: Id, groups: map<Bytes, Group>)

  /** A stream as the saver walks over it: each map listed in some order. */
  datatype GroupView = GroupView(last: Id, entriesRead: int, pel: seq<(Id, Pending)>, consumers: seq<(Bytes, Consumer)>)
  datatype View = View(entries: Records, length: nat, last: Id, maxDeleted: Id, groups: seq<(Bytes, GroupView)>)

  function Insert<K, V>(m: map<K, V>, s: seq<(K, V)>): map<K, V>
    decreases |s|
  {
    if s == [] then m else Insert(m[s[0].0 := s[0].1], s[1..])
  }

  function MapOf<K, V>(s: seq<(K, V)>): map<K, V> { Insert(map[], s) }

  function GroupOf(g: GroupView): Group { Group(g.last, g.entriesRead, MapOf(g.pel), MapOf(g.consumers)) }

  function GroupsOf(gs: seq<(Bytes, GroupView)>): seq<(Bytes, Group)> {
    if gs == [] then [] else [(gs[0].0, GroupOf(gs[0].1))] + GroupsOf(gs[1..])
  }

  /** The stream a view lists. */
  function StreamOf(v: View): Stream {
    Stream(MapOf(v.entries), v.length, v.last, v.maxDeleted, MapOf(GroupsOf(v.groups)))
  }

  lemma {:induction false} InsertConcat<K, V>(m: map<K, V>, a: seq<(K, V)>, b: seq<(K, V)>)
    ensures Insert(m, a + b) == Insert(Insert(m, a), b)
    decreases |a|
  {
    if a == [] {
      assert a + b == b;
    } else {
      assert (a + b)[1..] == a[1..] + b;
      InsertConcat(m[a[0].0 := a[0].1], a[1..], b);
    }
  }

  // ---- splitting the entries into nodes ----

  predicate StringsOk(fields: Fields) { forall i :: 0 <= i < |fields| ==> |fields[i].0| < TWO32 && |fields[i].1| < TWO32 }

  predicate ItemOk(it: Item) { |it.fields| < TWO32 && StringsOk(it.fields) }

  predicate RecordsOk(rs: Records) { IdsOk(rs) && forall i :: 0 <= i < |rs| ==> ItemOk(rs[i].1) }

  predicate NodeOk(node: Node) {
    && IdOk(node.master) && RecordsOk(node.records) && 1 <= |node.records| <= NODE_MAX_ENTRIES
    && |node.names| < TWO32 && forall i :: 0 <= i < |node.names| ==> |node.names[i]| < TWO32
  }

  function FieldBytes(fields: Fields): nat {
    if fields == [] then 0 else |fields[0].0| + |fields[0].1| + FieldBytes(fields[1..])
  }

  function NodeBytes(node: Node): Bytes
    requires NodeOk(node)
  {
    NodeElemsOk(node);
    Packed(NodeElems(node))
  }

  function Fresh(r: (Id, Item)): Node { Node(r.0, Names(r.1.fields), [r]) }

  lemma {:induction false} NamesOk(fields: Fields)
    requires StringsOk(fields)
    ensures forall i :: 0 <= i < |fields| ==> Names(fields)[i] == fields[i].0
  {
    if fields != [] {
      NamesOk(fields[1..]);
    }
  }

  lemma FreshOk(r: (Id, Item))
    requires IdOk(r.0) && ItemOk(r.1)
    ensures NodeOk(Fresh(r))
  {
    NamesOk(r.1.fields);
  }

  predicate Full(cur: Node, it: Item)
    requires NodeOk(cur)
  {
    |NodeBytes(cur)| + FieldBytes(it.fields) >= NODE_MAX_BYTES || |cur.records| >= NODE_MAX_ENTRIES
  }

  /** The nodes for `rs`, the last of which so far is `cur`. */
  function Nodes(cur: Node, rs: Records): (ns: seq<Node>)
    requires NodeOk(cur) && RecordsOk(rs)
    ensures forall i :: 0 <= i < |ns| ==> NodeOk(ns[i])
    decreases |rs|
  {
    if rs == [] then [cur]
    else if Full(cur, rs[0].1) then FreshOk(rs[0]); [cur] + Nodes(Fresh(rs[0]), rs[1..])
    else Nodes(cur.(records := cur.records + [rs[0]]), rs[1..])
  }

  function NodesOf(rs: Records): (ns: seq<Node>)
    requires RecordsOk(rs)
    ensures forall i :: 0 <= i < |ns| ==> NodeOk(ns[i])
  {
    if rs == [] then [] else FreshOk(rs[0]); Nodes(Fresh(rs[0]), rs[1..])
  }

  function Flatten(ns: seq<Node>): Records { if ns == [] then [] else ns[0].records + Flatten(ns[1..]) }

  lemma {:induction false} NodesFlatten(cur: Node, rs: Records)
    requires NodeOk(cur) && RecordsOk(rs)
    ensures Flatten(Nodes(cur, rs)) == cur.records + rs
    decreases |rs|
  {
    hide Full, NodeOk, ItemOk;
    if rs == [] {
      assert Flatten([cur]) == cur.records + [] by { assert [cur][1..] == []; }
    } else if Full(cur, rs[0].1) {
      FreshOk(rs[0]);
      var ns := Nodes(Fresh(rs[0]), rs[1..]);
      NodesFlatten(Fresh(rs[0]), rs[1..]);
      assert ([cur] + ns)[1..] == ns;
      assert cur.records + ([rs[0]] + rs[1..]) == cur.records + rs;
    } else {
      var more := cur.(records := cur.records + [rs[0]]);
      MoreOk(cur, rs[0]);
      NodesFlatten(more, rs[1..]);
      assert cur.records + [rs[0]] + rs[1..] == cur.records + rs;
    }
  }

  lemma MoreOk(cur: Node, r: (Id, Item))
    requires NodeOk(cur) && IdOk(r.0) && ItemOk(r.1) && !Full(cur, r.1)
    ensures NodeOk(cur.(records := cur.records + [r]))
  {
  }

  /** Every record but the first of a node was put in while the node had room for it. */
  ghost predicate Fitting(n: Node)
    requires NodeOk(n)
  {
    forall k :: 1 <= k < |n.records| ==> HadRoom(n, k)
  }

  ghost predicate HadRoom(n: Node, k: nat)
    requires NodeOk(n) && 1 <= k < |n.records|
  {
    PartOk(n, k);
    |NodeBytes(n.(records := n.records[..k]))| + FieldBytes(n.records[k].1.fields) < 4096 && k < 100
  }

  lemma PartOk(n: Node, k: nat)
    requires NodeOk(n) && 1 <= k <= |n.records|
    ensures NodeOk(n.(records := n.records[..k]))
  {
  }

  /** Node `i` had no room left for the first record of the next one. */
  ghost predicate NoRoomLeft(ns: seq<Node>, i: nat)
    requires i + 1 < |ns| && NodeOk(ns[i]) && NodeOk(ns[i + 1])
  {
    |NodeBytes(ns[i])| + FieldBytes(ns[i + 1].records[0].1.fields) >= 4096 || |ns[i].records| == 100
  }

  lemma {:induction false} NodesGreedy(cur: Node, rs: Records)
    requires NodeOk(cur) && RecordsOk(rs) && Fitting(cur)
    ensures var ns := Nodes(cur, rs);
            && ns != [] && ns[0].records[0] == cur.records[0]
            && (forall i :: 0 <= i < |ns| ==> Fitting(ns[i])) && forall i :: 0 <= i < |ns| - 1 ==> NoRoomLeft(ns, i)
    decreases |rs|
  {
    hide NodeBytes, ItemOk, Fitting, FieldBytes, IdOk;
    if rs == [] {
      return;
    }
    var r := rs[0];
    if Full(cur, r.1) {
      FreshOk(r);
      FirstFits(r);
      NodesGreedy(Fresh(r), rs[1..]);
      var ns, ls := Nodes(Fresh(r), rs[1..]), Nodes(cur, rs);
      assert ls == [cur] + ns;
      forall i | 0 <= i < |ls| - 1
        ensures NoRoomLeft(ls, i)
      {
        if i > 0 {
          assert NoRoomLeft(ns, i - 1);
        }
      }
    } else {
      MoreOk(cur, r);
      MoreFits(cur, r);
      NodesGreedy(cur.(records := cur.records + [r]), rs[1..]);
    }
  }

  lemma FirstFits(r: (Id, Item))
    requires NodeOk(Fresh(r))
    ensures Fitting(Fresh(r))
  {
  }

  lemma MoreFits(cur: Node, r: (Id, Item))
    requires NodeOk(cur) && IdOk(r.0) && ItemOk(r.1) && !Full(cur, r.1) && Fitting(cur)
    requires NodeOk(cur.(records := cur.records + [r]))
    ensures Fitting(cur.(records := cur.records + [r]))
  {
    hide NodeBytes, FieldBytes, ItemOk;
    var m := cur.(records := cur.records + [r]);
    forall k | 1 <= k < |m.records|
      ensures HadRoom(m, k)
    {
      assert m.records[..k] == cur.records[..k];
      if k < |cur.records| {
        assert HadRoom(cur, k);
      } else {
        assert cur.records[..k] == cur.records;
      }
    }
  }

  /**
   A record starts a new node exactly when the last one would reach 4096 bytes with its fields or has
   100 records.
   */
  lemma SplitsGreedily(rs: Records)
    requires RecordsOk(rs)
    ensures var ns := NodesOf(rs);
            (forall i :: 0 <= i < |ns| ==> Fitting(ns[i])) && forall i :: 0 <= i < |ns| - 1 ==> NoRoomLeft(ns, i)
  {
    hide NodeBytes, ItemOk, Fitting, FieldBytes, IdOk, Nodes;
    if rs != [] {
      FreshOk(rs[0]);
      FirstFits(rs[0]);
      NodesGreedy(Fresh(rs[0]), rs[1..]);
    }
  }

  /** Splitting loses nothing and keeps the order. */
  lemma NodesOfFlatten(rs: Records)
    requires RecordsOk(rs)
    ensures Flatten(NodesOf(rs)) == rs
  {
    if rs != [] {
      FreshOk(rs[0]);
      NodesFlatten(Fresh(rs[0]), rs[1..]);
      assert [rs[0]] + rs[1..] == rs;
    }
  }

  // ---- every element of a node can be packed ----

  lemma {:induction false} TextsOk(ss: seq<Bytes>)
    requires forall i :: 0 <= i < |ss| ==> |ss[i]| < TWO32
    ensures AllOk(Texts(ss))
  {
    if ss != [] { TextsOk(ss[1..]); }
  }

  lemma {:induction false} FieldsOk(fields: Fields)
    requires StringsOk(fields)
    ensures AllOk(Values(fields)) && AllOk(Pairs(fields))
  {
    hide Stored, EntryOk;
    if fields != [] {
      StoredOk(fields[0].0);
      StoredOk(fields[0].1);
      FieldsOk(fields[1..]);
    }
  }

  lemma StoredOk(s: Bytes)
    requires |s| < TWO32
    ensures EntryOk(Stored(s))
  {
  }

  lemma RecordOk(id: Id, item: Item, master: Id, names: seq<Bytes>)
    requires ItemOk(item)
    ensures AllOk(Record(id, item, master, names))
  {
    FieldsOk(item.fields);
    hide Values, Pairs, Names;
  }

  lemma {:induction false} AllRecordsOk(rs: Records, master: Id, names: seq<Bytes>)
    requires forall i :: 0 <= i < |rs| ==> ItemOk(rs[i].1)
    ensures AllOk(AllRecords(rs, master, names))
  {
    hide ItemOk, Record, EntryOk;
    if rs != [] {
      RecordOk(rs[0].0, rs[0].1, master, names);
      AllRecordsOk(rs[1..], master, names);
    }
  }

  lemma NodeElemsOk(node: Node)
    requires NodeOk(node)
    ensures AllOk(NodeElems(node))
  {
    TextsOk(node.names);
    AllRecordsOk(node.records, node.master, node.names);
    hide Texts, AllRecords;
  }

  // ---- writing ----

  type Worth = (nat, nat) -> bool

  function IdBytes(id: Id): (b: Bytes)
    ensures |b| == 16
  {
    Be(id.ms, 8) + Be(id.sq, 8)
  }

  function SavedId(id: Id): Bytes
    requires IdOk(id)
  {
    SavedLen(id.ms) + SavedLen(id.sq)
  }

  function SavedNode(node: Node, worth: Worth): Bytes
    requires NodeOk(node) && |NodeBytes(node)| < TWO64
  {
    SavedString(IdBytes(node.master), worth) + SavedString(NodeBytes(node), worth)
  }

  predicate NodesFit(ns: seq<Node>) {
    forall i :: 0 <= i < |ns| ==> NodeOk(ns[i]) && |NodeBytes(ns[i])| < TWO32
  }

  function SavedNodes(ns: seq<Node>, worth: Worth): Bytes
    requires NodesFit(ns)
  {
    if ns == [] then [] else SavedNode(ns[0], worth) + SavedNodes(ns[1..], worth)
  }

  predicate PendingOk(p: (Id, Pending)) { IdOk(p.0) && p.1.time < TWO64 && p.1.count < TWO64 }

  function SavedPel(pel: seq<(Id, Pending)>): Bytes
    requires forall i :: 0 <= i < |pel| ==> PendingOk(pel[i])
  {
    if pel == [] then []
    else
      assert PendingOk(pel[0]);
      IdBytes(pel[0].0) + Le(pel[0].1.time, 8) + SavedLen(pel[0].1.count) + SavedPel(pel[1..])
  }

  /** The IDs of `pel` that consumer `name` owns. */
  function Owned(pel: seq<(Id, Pending)>, name: Bytes): (ids: seq<Id>)
    ensures |ids| <= |pel|
  {
    if pel == [] then [] else (if pel[0].1.consumer == name then [pel[0].0] else []) + Owned(pel[1..], name)
  }

  function IdList(ids: seq<Id>): Bytes { if ids == [] then [] else IdBytes(ids[0]) + IdList(ids[1..]) }

  predicate ConsumerOk(c: (Bytes, Consumer)) { |c.0| < TWO64 && c.1.seen < TWO64 && IsI64(c.1.active) }

  function SavedConsumer(c: (Bytes, Consumer), ids: seq<Id>, worth: Worth): Bytes
    requires ConsumerOk(c) && |ids| < TWO64
  {
    SavedString(c.0, worth) + Le(c.1.seen, 8) + Le(Wrap(c.1.active, TWO64), 8) + SavedLen(|ids|) + IdList(ids)
  }

  function SavedConsumers(cs: seq<(Bytes, Consumer)>, pel: seq<(Id, Pending)>, worth: Worth): Bytes
    requires |pel| < TWO64 && forall i :: 0 <= i < |cs| ==> ConsumerOk(cs[i])
  {
    if cs == [] then [] else SavedConsumer(cs[0], Owned(pel, cs[0].0), worth) + SavedConsumers(cs[1..], pel, worth)
  }

  predicate GroupOk(g: (Bytes, GroupView)) {
    && |g.0| < TWO64 && IdOk(g.1.last) && IsI64(g.1.entriesRead)
    && |g.1.pel| < TWO64 && (forall i :: 0 <= i < |g.1.pel| ==> PendingOk(g.1.pel[i]))
    && |g.1.consumers| < TWO64 && (forall i :: 0 <= i < |g.1.consumers| ==> ConsumerOk(g.1.consumers[i]))
  }

  function SavedGroup(g: (Bytes, GroupView), worth: Worth): Bytes
    requires GroupOk(g)
  {
    SavedString(g.0, worth) + SavedId(g.1.last) + SavedLen(Wrap(g.1.entriesRead + 1, TWO64))
    + SavedLen(|g.1.pel|) + SavedPel(g.1.pel)
    + SavedLen(|g.1.consumers|) + SavedConsumers(g.1.consumers, g.1.pel, worth)
  }

  function SavedGroups(gs: seq<(Bytes, GroupView)>, worth: Worth): Bytes
    requires forall i :: 0 <= i < |gs| ==> GroupOk(gs[i])
  {
    if gs == [] then [] else SavedGroup(gs[0], worth) + SavedGroups(gs[1..], worth)
  }

  function FirstLive(rs: Records): Id {
    if rs == [] then Id(0, 0) else if !rs[0].1.deleted then rs[0].0 else FirstLive(rs[1..])
  }

  predicate ViewOk(v: View) {
    && RecordsOk(v.entries) && |v.entries| < TWO64 && |NodesOf(v.entries)| < TWO64 && NodesFit(NodesOf(v.entries))
    && v.length < TWO64 && IdOk(v.last) && IdOk(v.maxDeleted)
    && |v.groups| < TWO64 && forall i :: 0 <= i < |v.groups| ==> GroupOk(v.groups[i])
  }

  function SavedCounters(v: View): Bytes
    requires ViewOk(v)
  {
    FirstLiveOk(v.entries);
    SavedLen(v.length) + SavedId(v.last) + SavedId(FirstLive(v.entries)) + SavedId(v.maxDeleted) + SavedLen(|v.entries|)
  }

  lemma {:induction false} FirstLiveOk(rs: Records)
    requires IdsOk(rs)
    ensures IdOk(FirstLive(rs))
  {
    if rs != [] && rs[0].1.deleted { FirstLiveOk(rs[1..]); }
  }

  /** Everything `save_stream` appends. */
  function SavedStream(v: View, worth: Worth): Bytes
    requires ViewOk(v)
  {
    var ns := NodesOf(v.entries);
    SavedLen(|ns|) + SavedNodes(ns, worth) + SavedCounters(v) + SavedLen(|v.groups|) + SavedGroups(v.groups, worth)
  }

  // ---- reading ----

  function ReadNat(b: Bytes): Parse<nat> {
    var l := ReadLen(b);
    if l.Bad? then Bad else Good(l.value.value, l.rest)
  }

  function ReadId(b: Bytes): Parse<Id> {
    var ms := ReadNat(b);
    if ms.Bad? then Bad else
    var sq := ReadNat(ms.rest);
    if sq.Bad? then Bad else Good(Id(ms.value, sq.value), sq.rest)
  }

  function IdFrom(b: Bytes): Id
    requires |b| == 16
  {
    Id(FromBe(b[..8]), FromBe(b[8..]))
  }

  function ReadRawId(b: Bytes): Parse<Id> {
    var raw := Exact(b, 16);
    if raw.Bad? then Bad else Good(IdFrom(raw.value), raw.rest)
  }

  function ReadU64(b: Bytes): Parse<nat> {
    var raw := Exact(b, 8);
    if raw.Bad? then Bad else Good(FromLe(raw.value), raw.rest)
  }

  function LoadNode(b: Bytes): Parse<Records> {
    var key := ReadString(b);
    if key.Bad? || |key.value| != 16 then Bad else
    var lp := ReadString(key.rest);
    if lp.Bad? || lp.value == [] || !Validated(lp.value) then Bad else
    var es := Elements(lp.value, HEADER);
    if es.None? then Bad else
    var rs := ParsedNode(es.value, IdFrom(key.value));
    if rs.None? then Bad else Good(rs.value, lp.rest)
  }

  function LoadNodes(b: Bytes, n: nat, m: map<Id, Item>): Parse<map<Id, Item>>
    decreases n
  {
    if n == 0 then Good(m, b) else
    var r := LoadNode(b);
    if r.Bad? then Bad else LoadNodes(r.rest, n - 1, Insert(m, r.value))
  }

  function LoadPel(b: Bytes, n: nat, m: map<Id, Pending>): Parse<map<Id, Pending>>
    decreases n
  {
    if n == 0 then Good(m, b) else
    var id := ReadRawId(b);
    if id.Bad? then Bad else
    var time := ReadU64(id.rest);
    if time.Bad? then Bad else
    var count := ReadNat(time.rest);
    if count.Bad? then Bad else LoadPel(count.rest, n - 1, m[id.value := Pending([], time.value, count.value)])
  }

  /** Give `id` to consumer `name`; an ID outside the pending list becomes an orphan entry. */
  function Assign(m: map<Id, Pending>, id: Id, name: Bytes): map<Id, Pending> {
    if id in m then m[id := m[id].(consumer := name)] else m[id := Pending(name, 0, 0)]
  }

  function LoadOwned(b: Bytes, n: nat, name: Bytes, m: map<Id, Pending>): Parse<map<Id, Pending>>
    decreases n
  {
    if n == 0 then Good(m, b) else
    var id := ReadRawId(b);
    if id.Bad? then Bad else LoadOwned(id.rest, n - 1, name, Assign(m, id.value, name))
  }

  datatype Members = Members(pel: map<Id, Pending>, consumers: map<Bytes, Consumer>)

  function LoadConsumer(b: Bytes, s: Members): Parse<Members> {
    var name := ReadString(b);
    if name.Bad? then Bad else
    var seen := ReadU64(name.rest);
    if seen.Bad? then Bad else
    var active := ReadU64(seen.rest);
    if active.Bad? then Bad else
    var n := ReadNat(active.rest);
    if n.Bad? then Bad else
    var pel := LoadOwned(n.rest, n.value, name.value, s.pel);
    if pel.Bad? then Bad else
    Good(Members(pel.value, s.consumers[name.value := Consumer(seen.value, Signed(active.value, TWO64), n.value)]), pel.rest)
  }

  function LoadConsumers(b: Bytes, n: nat, s: Members): Parse<Members>
    decreases n
  {
    if n == 0 then Good(s, b) else
    var r := LoadConsumer(b, s);
    if r.Bad? then Bad else LoadConsumers(r.rest, n - 1, r.value)
  }

  /** The stored counter is one more than the signed one; both steps wrap. */
  function CountRead(stored: nat): int { Signed(Wrap(Signed(stored, TWO64) - 1, TWO64), TWO64) }

  function LoadGroup(b: Bytes): Parse<(Bytes, Group)> {
    var name := ReadString(b);
    if name.Bad? then Bad else
    var last := ReadId(name.rest);
    if last.Bad? then Bad else
    var read := ReadNat(last.rest);
    if read.Bad? then Bad else
    var pelSize := ReadNat(read.rest);
    if pelSize.Bad? then Bad else
    var pel := LoadPel(pelSize.rest, pelSize.value, map[]);
    if pel.Bad? then Bad else
    var n := ReadNat(pel.rest);
    if n.Bad? then Bad else
    var s := LoadConsumers(n.rest, n.value, Members(pel.value, map[]));
    if s.Bad? then Bad else
    Good((name.value, Group(last.value, CountRead(read.value), s.value.pel, s.value.consumers)), s.rest)
  }

  function LoadGroups(b: Bytes, n: nat, m: map<Bytes, Group>): Parse<map<Bytes, Group>>
    decreases n
  {
    if n == 0 then Good(m, b) else
    var g := LoadGroup(b);
    if g.Bad? then Bad else LoadGroups(g.rest, n - 1, m[g.value.0 := g.value.1])
  }

  datatype Counters = Counters(length: nat, last: Id, maxDeleted: Id)

  function LoadCounters(b: Bytes): Parse<Counters> {
    var length := ReadNat(b);
    if length.Bad? then Bad else
    var last := ReadId(length.rest);
    if last.Bad? then Bad else
    var first := ReadId(last.rest);
    if first.Bad? then Bad else
    var deleted := ReadId(first.rest);
    if deleted.Bad? then Bad else
    var added := ReadNat(deleted.rest);
    if added.Bad? then Bad else Good(Counters(length.value, last.value, deleted.value), added.rest)
  }

  /** `load_stream` on the current stream type. */
  function LoadStream(b: Bytes): Parse<Stream> {
    var n := ReadNat(b);
    if n.Bad? then Bad else
    var entries := LoadNodes(n.rest, n.value, map[]);
    if entries.Bad? then Bad else
    var c := LoadCounters(entries.rest);
    if c.Bad? then Bad else
    var k := ReadNat(c.rest);
    if k.Bad? then Bad else
    var groups := LoadGroups(k.rest, k.value, map[]);
    if groups.Bad? then Bad else
    Good(Stream(entries.value, c.value.length, c.value.last, c.value.maxDeleted, groups.value), groups.rest)
  }
}

/** Restoring what was dumped gives the stream back. */
module StreamDumpProof {
  import opened Bits
  import opened Words
  import opened Decimal
  import opened RdbStringSpec
  import opened ListpackSpec
  import opened StreamNodeSpec
  import opened StreamDumpSpec

  // ---- the small parts ----

  lemma ReadNatBack(n: nat, rest: Bytes)
    requires n < TWO64
    ensures ReadNat(SavedLen(n) + rest) == Good(n, rest)
  {
    ReadLenSaved(n, rest);
  }

  lemma ReadIdBack(id: Id, rest: Bytes)
    requires IdOk(id)
    ensures ReadId(SavedId(id) + rest) == Good(id, rest)
  {
    hide SavedLen, ReadNat;
    assert SavedId(id) + rest == SavedLen(id.ms) + (SavedLen(id.sq) + rest);
    ReadNatBack(id.ms, SavedLen(id.sq) + rest);
    ReadNatBack(id.sq, rest);
  }

  lemma IdFromBytes(id: Id)
    requires IdOk(id)
    ensures IdFrom(IdBytes(id)) == id
  {
    Widths();
    BeInverse(id.ms, 8);
    BeInverse(id.sq, 8);
    hide Be, FromBe, Power;
    assert IdBytes(id)[..8] == Be(id.ms, 8) && IdBytes(id)[8..] == Be(id.sq, 8);
  }

  lemma ReadRawIdBack(id: Id, rest: Bytes)
    requires IdOk(id)
    ensures ReadRawId(IdBytes(id) + rest) == Good(id, rest)
  {
    IdFromBytes(id);
    hide IdBytes, IdFrom;
    var b := IdBytes(id) + rest;
    assert b[..16] == IdBytes(id) && b[16..] == rest;
  }

  lemma ReadU64Back(v: nat, rest: Bytes)
    requires v < TWO64
    ensures ReadU64(Le(v, 8) + rest) == Good(v, rest)
  {
    Widths();
    LeInverse(v, 8);
    hide Le, FromLe, Power;
    var b := Le(v, 8) + rest;
    assert b[..8] == Le(v, 8) && b[8..] == rest;
  }

  // ---- entries ----

  lemma LoadNodeBack(node: Node, worth: Worth, rest: Bytes)
    requires NodeOk(node) && |NodeBytes(node)| < TWO32
    ensures LoadNode(SavedNode(node, worth) + rest) ==
            if Restorable(NodeBytes(node), worth) then Good(node.records, rest) else Bad
  {
    hide ReadString, SavedString, Compressible, Validated, Elements, ParsedNode, NodeElems, IdBytes, IdFrom;
    var key, lp := IdBytes(node.master), NodeBytes(node);
    assert SavedNode(node, worth) + rest == SavedString(key, worth) + (SavedString(lp, worth) + rest);
    StringRoundTrip(key, worth, SavedString(lp, worth) + rest);
    StringRoundTrip(lp, worth, rest);
    NodeElemsOk(node);
    PackedReads(NodeElems(node));
    IdFromBytes(node.master);
    ParsedNodeBack(node);
  }

  predicate NodesRestorable(ns: seq<Node>, worth: Worth)
    requires NodesFit(ns)
  {
    forall i :: 0 <= i < |ns| ==> Restorable(NodeBytes(ns[i]), worth)
  }

  lemma NodesRestorableStep(ns: seq<Node>, worth: Worth)
    requires NodesFit(ns) && ns != []
    ensures NodesRestorable(ns, worth) <==> Restorable(NodeBytes(ns[0]), worth) && NodesRestorable(ns[1..], worth)
  {
    hide NodeOk, NodeBytes, Restorable;
    forall i | 1 <= i < |ns|
      ensures ns[i] == ns[1..][i - 1]
    {
    }
  }

  lemma {:induction false} LoadNodesBack(ns: seq<Node>, worth: Worth, rest: Bytes, m: map<Id, Item>)
    requires NodesFit(ns)
    ensures LoadNodes(SavedNodes(ns, worth) + rest, |ns|, m) ==
            if NodesRestorable(ns, worth) then Good(Insert(m, Flatten(ns)), rest) else Bad
    decreases |ns|
  {
    hide SavedNode, LoadNode, NodeOk, NodeBytes, Restorable, NodesRestorable;
    if ns == [] {
      assert SavedNodes(ns, worth) + rest == rest;
      assert NodesRestorable(ns, worth) by { NoNodes(worth); }
    } else {
      var tail := SavedNodes(ns[1..], worth) + rest;
      assert SavedNodes(ns, worth) + rest == SavedNode(ns[0], worth) + tail;
      LoadNodeBack(ns[0], worth, tail);
      NodesRestorableStep(ns, worth);
      LoadNodesBack(ns[1..], worth, rest, Insert(m, ns[0].records));
      InsertConcat(m, ns[0].records, Flatten(ns[1..]));
    }
  }

  lemma NoNodes(worth: Worth)
    ensures NodesRestorable([], worth)
  {
  }

  lemma CountersBack(length: nat, last: Id, first: Id, deleted: Id, added: nat, rest: Bytes)
    requires length < TWO64 && IdOk(last) && IdOk(first) && IdOk(deleted) && added < TWO64
    ensures LoadCounters(SavedLen(length) + (SavedId(last) + (SavedId(first) + (SavedId(deleted) + (SavedLen(added) + rest)))))
            == Good(Counters(length, last, deleted), rest)
  {
    hide SavedLen, SavedId, ReadNat, ReadId;
    var e := SavedLen(added) + rest;
    ReadNatBack(length, SavedId(last) + (SavedId(first) + (SavedId(deleted) + e)));
    ReadIdBack(last, SavedId(first) + (SavedId(deleted) + e));
    ReadIdBack(first, SavedId(deleted) + e);
    ReadIdBack(deleted, e);
    ReadNatBack(added, rest);
  }

  lemma LoadCountersBack(v: View, rest: Bytes)
    requires ViewOk(v)
    ensures LoadCounters(SavedCounters(v) + rest) == Good(Counters(v.length, v.last, v.maxDeleted), rest)
  {
    FirstLiveOk(v.entries);
    hide SavedLen, SavedId, LoadCounters, FirstLive, NodesFit, NodesOf, GroupOk, ItemOk;
    var first := FirstLive(v.entries);
    CountersBack(v.length, v.last, first, v.maxDeleted, |v.entries|, rest);
    Associate(SavedLen(v.length), SavedId(v.last), SavedId(first), SavedId(v.maxDeleted), SavedLen(|v.entries|), rest);
  }

  lemma Associate(a: Bytes, b: Bytes, c: Bytes, d: Bytes, e: Bytes, rest: Bytes)
    ensures a + b + c + d + e + rest == a + (b + (c + (d + (e + rest))))
  {
  }

  // ---- pending lists ----

  function Blank(pel: seq<(Id, Pending)>): seq<(Id, Pending)> {
    if pel == [] then [] else [(pel[0].0, pel[0].1.(consumer := []))] + Blank(pel[1..])
  }

  lemma {:induction false} LoadPelBack(pel: seq<(Id, Pending)>, rest: Bytes, m: map<Id, Pending>)
    requires forall i :: 0 <= i < |pel| ==> PendingOk(pel[i])
    ensures LoadPel(SavedPel(pel) + rest, |pel|, m) == Good(Insert(m, Blank(pel)), rest)
    decreases |pel|
  {
    hide SavedLen, ReadNat, ReadRawId, ReadU64, IdBytes, Le;
    if pel == [] {
      assert SavedPel(pel) + rest == rest;
    } else {
      var p := pel[0];
      assert PendingOk(p);
      var tail := SavedPel(pel[1..]) + rest;
      var c := SavedLen(p.1.count) + tail;
      var t := Le(p.1.time, 8) + c;
      assert SavedPel(pel) + rest == IdBytes(p.0) + t;
      ReadRawIdBack(p.0, t);
      ReadU64Back(p.1.time, c);
      ReadNatBack(p.1.count, tail);
      LoadPelBack(pel[1..], rest, m[p.0 := Pending([], p.1.time, p.1.count)]);
      assert Blank(pel)[1..] == Blank(pel[1..]);
    }
  }

  function AssignAll(m: map<Id, Pending>, ids: seq<Id>, name: Bytes): map<Id, Pending>
    decreases |ids|
  {
    if ids == [] then m else AssignAll(Assign(m, ids[0], name), ids[1..], name)
  }

  lemma {:induction false} LoadOwnedBack(ids: seq<Id>, rest: Bytes, name: Bytes, m: map<Id, Pending>)
    requires forall i :: 0 <= i < |ids| ==> IdOk(ids[i])
    ensures LoadOwned(IdList(ids) + rest, |ids|, name, m) == Good(AssignAll(m, ids, name), rest)
    decreases |ids|
  {
    hide ReadRawId, IdBytes, Assign;
    if ids == [] {
      assert IdList(ids) + rest == rest;
    } else {
      var tail := IdList(ids[1..]) + rest;
      assert IdList(ids) + rest == IdBytes(ids[0]) + tail;
      ReadRawIdBack(ids[0], tail);
      LoadOwnedBack(ids[1..], rest, name, Assign(m, ids[0], name));
    }
  }

  lemma {:induction false} OwnedOk(pel: seq<(Id, Pending)>, name: Bytes)
    requires forall i :: 0 <= i < |pel| ==> PendingOk(pel[i])
    ensures forall i :: 0 <= i < |Owned(pel, name)| ==> IdOk(Owned(pel, name)[i])
  {
    if pel != [] { OwnedOk(pel[1..], name); }
  }

  // ---- consumers ----

  /** What each consumer in the listing adds, as the loader sees it. */
  function Added(s: Members, cs: seq<(Bytes, Consumer)>, pel: seq<(Id, Pending)>): Members
    decreases |cs|
  {
    if cs == [] then s else
    var c := cs[0];
    var ids := Owned(pel, c.0);
    Added(Members(AssignAll(s.pel, ids, c.0), s.consumers[c.0 := c.1.(pending := |ids|)]), cs[1..], pel)
  }

  lemma LoadConsumerBack(c: (Bytes, Consumer), ids: seq<Id>, worth: Worth, rest: Bytes, s: Members)
    requires ConsumerOk(c) && |ids| < TWO64 && forall i :: 0 <= i < |ids| ==> IdOk(ids[i])
    ensures LoadConsumer(SavedConsumer(c, ids, worth) + rest, s) ==
            if Restorable(c.0, worth)
            then Good(Members(AssignAll(s.pel, ids, c.0), s.consumers[c.0 := c.1.(pending := |ids|)]), rest)
            else Bad
  {
    hide Restorable, SavedLen, SavedString, ReadString, ReadNat, ReadU64, LoadOwned, IdList, Le, AssignAll;
    var ids' := IdList(ids) + rest;
    var n := SavedLen(|ids|) + ids';
    var a := Le(Wrap(c.1.active, TWO64), 8) + n;
    var t := Le(c.1.seen, 8) + a;
    assert SavedConsumer(c, ids, worth) + rest == SavedString(c.0, worth) + t;
    StringRoundTrip(c.0, worth, t);
    ReadU64Back(c.1.seen, a);
    ReadU64Back(Wrap(c.1.active, TWO64), n);
    SignedWrap(c.1.active, TWO64);
    ReadNatBack(|ids|, ids');
    LoadOwnedBack(ids, rest, c.0, s.pel);
  }

  predicate NamesRestorable(cs: seq<(Bytes, Consumer)>, worth: Worth) {
    forall i :: 0 <= i < |cs| ==> Restorable(cs[i].0, worth)
  }

  lemma NamesRestorableStep(cs: seq<(Bytes, Consumer)>, worth: Worth)
    requires cs != []
    ensures NamesRestorable(cs, worth) <==> Restorable(cs[0].0, worth) && NamesRestorable(cs[1..], worth)
  {
    hide Restorable;
    forall i | 1 <= i < |cs|
      ensures cs[i] == cs[1..][i - 1]
    {
    }
  }

  lemma {:induction false} LoadConsumersBack(cs: seq<(Bytes, Consumer)>, pel: seq<(Id, Pending)>, worth: Worth, rest: Bytes, s: Members)
    requires |pel| < TWO64 && (forall i :: 0 <= i < |pel| ==> PendingOk(pel[i])) && forall i :: 0 <= i < |cs| ==> ConsumerOk(cs[i])
    ensures LoadConsumers(SavedConsumers(cs, pel, worth) + rest, |cs|, s) ==
            if NamesRestorable(cs, worth) then Good(Added(s, cs, pel), rest) else Bad
    decreases |cs|
  {
    hide Restorable, SavedConsumer, LoadConsumer, ConsumerOk, PendingOk, Owned, AssignAll;
    if cs == [] {
      assert SavedConsumers(cs, pel, worth) + rest == rest;
    } else {
      var ids := Owned(pel, cs[0].0);
      OwnedOk(pel, cs[0].0);
      var tail := SavedConsumers(cs[1..], pel, worth) + rest;
      assert SavedConsumers(cs, pel, worth) + rest == SavedConsumer(cs[0], ids, worth) + tail;
      LoadConsumerBack(cs[0], ids, worth, tail, s);
      NamesRestorableStep(cs, worth);
      LoadConsumersBack(cs[1..], pel, worth, rest,
        Members(AssignAll(s.pel, ids, cs[0].0), s.consumers[cs[0].0 := cs[0].1.(pending := |ids|)]));
    }
  }

  // ---- who owns what after loading ----

  predicate DistinctKeys<K(==), V>(s: seq<(K, V)>) { forall i, j :: 0 <= i < j < |s| ==> s[i].0 != s[j].0 }

  /** A pending entry once the consumers of `done` have been read. */
  function Shown(p: Pending, done: set<Bytes>): Pending { if p.consumer in done then p else p.(consumer := []) }

  predicate InKeys<K(==), V>(s: seq<(K, V)>, k: K) { exists i :: 0 <= i < |s| && s[i].0 == k }

  predicate Marked(m: map<Id, Pending>, pel: seq<(Id, Pending)>, done: set<Bytes>) {
    && (forall x :: x in m ==> InKeys(pel, x))
    && (forall i :: 0 <= i < |pel| ==> pel[i].0 in m && m[pel[i].0] == Shown(pel[i].1, done))
  }

  /** Looking up a key of a listing. */
  lemma {:induction false} InsertAt<K, V>(m: map<K, V>, s: seq<(K, V)>, k: K)
    requires DistinctKeys(s)
    ensures InKeys(s, k) ==> k in Insert(m, s)
    ensures !InKeys(s, k) ==> (k in Insert(m, s) <==> k in m) && (k in m ==> Insert(m, s)[k] == m[k])
    ensures forall i :: 0 <= i < |s| && s[i].0 == k ==> k in Insert(m, s) && Insert(m, s)[k] == s[i].1
    decreases |s|
  {
    if s != [] {
      var m', t := m[s[0].0 := s[0].1], s[1..];
      InsertAt(m', t, k);
      assert InKeys(t, k) ==> InKeys(s, k) by {
        if InKeys(t, k) {
          var i :| 0 <= i < |t| && t[i].0 == k;
          assert s[i + 1].0 == k;
        }
      }
      assert s[0].0 == k ==> !InKeys(t, k);
      forall i | 0 <= i < |s| && s[i].0 == k
        ensures k in Insert(m, s) && Insert(m, s)[k] == s[i].1
      {
        if i > 0 {
          assert t[i - 1] == s[i];
        }
      }
      if InKeys(s, k) {
        var i :| 0 <= i < |s| && s[i].0 == k;
      }
    }
  }

  lemma {:induction false} BlankAt(pel: seq<(Id, Pending)>)
    ensures |Blank(pel)| == |pel|
    ensures forall i :: 0 <= i < |pel| ==> Blank(pel)[i] == (pel[i].0, pel[i].1.(consumer := []))
  {
    if pel != [] { BlankAt(pel[1..]); }
  }

  lemma BlankMarked(pel: seq<(Id, Pending)>)
    requires DistinctKeys(pel)
    ensures Marked(MapOf(Blank(pel)), pel, {})
  {
    BlankAt(pel);
    var b := Blank(pel);
    hide Blank;
    forall x
      ensures x in MapOf(b) ==> InKeys(pel, x)
    {
      InsertAt(map[], b, x);
      if InKeys(b, x) {
        var i :| 0 <= i < |b| && b[i].0 == x;
        assert pel[i].0 == x;
      }
    }
    forall i | 0 <= i < |pel|
      ensures pel[i].0 in MapOf(b) && MapOf(b)[pel[i].0] == Shown(pel[i].1, {})
    {
      InsertAt(map[], b, b[i].0);
    }
  }

  lemma {:induction false} AssignAt(m: map<Id, Pending>, ids: seq<Id>, name: Bytes, x: Id)
    requires forall i :: 0 <= i < |ids| ==> ids[i] in m
    ensures var r := AssignAll(m, ids, name);
            && (x in r <==> x in m)
            && (x in m ==> r[x] == if x in ids then m[x].(consumer := name) else m[x])
    decreases |ids|
  {
    if ids != [] {
      AssignAt(Assign(m, ids[0], name), ids[1..], name, x);
    }
  }

  lemma {:induction false} OwnedAt(pel: seq<(Id, Pending)>, name: Bytes, x: Id)
    ensures x in Owned(pel, name) <==> exists i :: 0 <= i < |pel| && pel[i].0 == x && pel[i].1.consumer == name
  {
    if pel != [] {
      var t := pel[1..];
      OwnedAt(t, name, x);
      if exists i :: 0 <= i < |pel| && pel[i].0 == x && pel[i].1.consumer == name {
        var i :| 0 <= i < |pel| && pel[i].0 == x && pel[i].1.consumer == name;
        assert i > 0 ==> t[i - 1] == pel[i];
      }
      if x in Owned(t, name) {
        var i :| 0 <= i < |t| && t[i].0 == x && t[i].1.consumer == name;
        assert pel[i + 1] == t[i];
      }
    }
  }

  lemma AssignMarked(m: map<Id, Pending>, pel: seq<(Id, Pending)>, done: set<Bytes>, name: Bytes)
    requires Marked(m, pel, done) && DistinctKeys(pel)
    ensures Marked(AssignAll(m, Owned(pel, name), name), pel, done + {name})
  {
    var ids := Owned(pel, name);
    forall i | 0 <= i < |ids|
      ensures ids[i] in m
    {
      OwnedAt(pel, name, ids[i]);
    }
    hide Owned;
    var r := AssignAll(m, ids, name);
    forall x
      ensures x in r ==> InKeys(pel, x)
    {
      AssignAt(m, ids, name, x);
    }
    forall i | 0 <= i < |pel|
      ensures pel[i].0 in r && r[pel[i].0] == Shown(pel[i].1, done + {name})
    {
      AssignAt(m, ids, name, pel[i].0);
      OwnedAt(pel, name, pel[i].0);
    }
  }

  function NameSet(cs: seq<(Bytes, Consumer)>): set<Bytes> {
    if cs == [] then {} else {cs[0].0} + NameSet(cs[1..])
  }

  /** The consumers with the pending counts that loading computes. */
  function Counted(cs: seq<(Bytes, Consumer)>, pel: seq<(Id, Pending)>): (r: seq<(Bytes, Consumer)>)
    ensures |r| == |cs|
    ensures forall i :: 0 <= i < |cs| ==> r[i] == (cs[i].0, cs[i].1.(pending := |Owned(pel, cs[i].0)|))
  {
    if cs == [] then [] else [(cs[0].0, cs[0].1.(pending := |Owned(pel, cs[0].0)|))] + Counted(cs[1..], pel)
  }

  lemma {:induction false} AddedMarked(s: Members, cs: seq<(Bytes, Consumer)>, pel: seq<(Id, Pending)>, done: set<Bytes>)
    requires Marked(s.pel, pel, done) && DistinctKeys(pel)
    ensures Marked(Added(s, cs, pel).pel, pel, done + NameSet(cs))
    ensures Added(s, cs, pel).consumers == Insert(s.consumers, Counted(cs, pel))
    decreases |cs|
  {
    hide Marked, Owned;
    if cs == [] {
      assert done + NameSet(cs) == done;
    } else {
      var c := cs[0];
      var ids := Owned(pel, c.0);
      AssignMarked(s.pel, pel, done, c.0);
      AddedMarked(Members(AssignAll(s.pel, ids, c.0), s.consumers[c.0 := c.1.(pending := |ids|)]), cs[1..], pel, done + {c.0});
      assert done + {c.0} + NameSet(cs[1..]) == done + NameSet(cs);
      assert Counted(cs, pel)[1..] == Counted(cs[1..], pel);
    }
  }

  /** Every pending entry has a listed owner (or none at all), and every consumer counts the entries it owns. */
  predicate Consistent(g: GroupView) {
    && (forall i :: 0 <= i < |g.pel| ==> g.pel[i].1.consumer == [] || g.pel[i].1.consumer in NameSet(g.consumers))
    && (forall i :: 0 <= i < |g.consumers| ==> g.consumers[i].1.pending == |Owned(g.pel, g.consumers[i].0)|)
  }

  lemma MarkedIff(m: map<Id, Pending>, pel: seq<(Id, Pending)>, done: set<Bytes>)
    requires Marked(m, pel, done) && DistinctKeys(pel)
    ensures m == MapOf(pel) <==> forall i :: 0 <= i < |pel| ==> pel[i].1.consumer == [] || pel[i].1.consumer in done
  {
    forall i | 0 <= i < |pel|
      ensures pel[i].0 in MapOf(pel) && MapOf(pel)[pel[i].0] == pel[i].1
    {
      InsertAt(map[], pel, pel[i].0);
    }
    if forall i :: 0 <= i < |pel| ==> pel[i].1.consumer == [] || pel[i].1.consumer in done {
      forall x
        ensures x in m <==> x in MapOf(pel)
        ensures x in m ==> m[x] == MapOf(pel)[x]
      {
        InsertAt(map[], pel, x);
      }
    }
  }

  lemma CountedIff(cs: seq<(Bytes, Consumer)>, pel: seq<(Id, Pending)>)
    requires DistinctKeys(cs)
    ensures MapOf(Counted(cs, pel)) == MapOf(cs) <==>
            forall i :: 0 <= i < |cs| ==> cs[i].1.pending == |Owned(pel, cs[i].0)|
  {
    hide Owned;
    var r := Counted(cs, pel);
    forall i | 0 <= i < |cs|
      ensures MapOf(r) == MapOf(cs) ==> cs[i].1 == r[i].1
    {
      InsertAt(map[], cs, cs[i].0);
      InsertAt(map[], r, r[i].0);
    }
    if forall i :: 0 <= i < |cs| ==> cs[i].1.pending == |Owned(pel, cs[i].0)| {
      assert forall i :: 0 <= i < |cs| ==> r[i] == cs[i];
      assert r == cs;
    }
  }

  // ---- groups and the whole stream ----

  predicate GroupListed(g: GroupView) { DistinctKeys(g.pel) && DistinctKeys(g.consumers) }

  lemma EntriesReadBack(e: int)
    requires IsI64(e)
    ensures CountRead(Wrap(e + 1, TWO64)) == e
  {
    if e == I64_MAX {
      ModUnique(e + 1, TWO64, 0, e + 1);
      ModUnique(e + 1 - TWO64 - 1, TWO64, -1, e);
    } else {
      SignedWrap(e + 1, TWO64);
      SignedWrap(e, TWO64);
    }
  }

  function GroupRead(g: GroupView): Group {
    var s := Added(Members(MapOf(Blank(g.pel)), map[]), g.consumers, g.pel);
    Group(g.last, g.entriesRead, s.pel, s.consumers)
  }

  predicate GroupRestorable(g: (Bytes, GroupView), worth: Worth) {
    Restorable(g.0, worth) && NamesRestorable(g.1.consumers, worth)
  }

  lemma LoadGroupBack(g: (Bytes, GroupView), worth: Worth, rest: Bytes)
    requires GroupOk(g)
    ensures LoadGroup(SavedGroup(g, worth) + rest) ==
            if GroupRestorable(g, worth) then Good((g.0, GroupRead(g.1)), rest) else Bad
  {
    hide Restorable, NamesRestorable, SavedLen, SavedString, ReadString, ReadNat, ReadId, SavedId, SavedPel, SavedConsumers, LoadPel, LoadConsumers,
         Blank, Added, PendingOk, ConsumerOk;
    var v := g.1;
    var cs := SavedConsumers(v.consumers, v.pel, worth) + rest;
    var n := SavedLen(|v.consumers|) + cs;
    var pel := SavedPel(v.pel) + n;
    var k := SavedLen(|v.pel|) + pel;
    var read := SavedLen(Wrap(v.entriesRead + 1, TWO64)) + k;
    var last := SavedId(v.last) + read;
    assert SavedGroup(g, worth) + rest == SavedString(g.0, worth) + last;
    StringRoundTrip(g.0, worth, last);
    ReadIdBack(v.last, read);
    ReadNatBack(Wrap(v.entriesRead + 1, TWO64), k);
    EntriesReadBack(v.entriesRead);
    ReadNatBack(|v.pel|, pel);
    LoadPelBack(v.pel, n, map[]);
    ReadNatBack(|v.consumers|, cs);
    LoadConsumersBack(v.consumers, v.pel, worth, rest, Members(MapOf(Blank(v.pel)), map[]));
  }

  /** A group comes back as it was if and only if it is consistent. */
  lemma GroupRoundTrip(g: GroupView)
    requires GroupListed(g)
    ensures GroupRead(g) == GroupOf(g) <==> Consistent(g)
  {
    hide Blank, Added, Owned, NameSet, Marked, Counted;
    var s := Members(MapOf(Blank(g.pel)), map[]);
    BlankMarked(g.pel);
    AddedMarked(s, g.consumers, g.pel, {});
    assert {} + NameSet(g.consumers) == NameSet(g.consumers);
    MarkedIff(Added(s, g.consumers, g.pel).pel, g.pel, NameSet(g.consumers));
    CountedIff(g.consumers, g.pel);
  }

  /** The groups as the loader sees them. */
  function GroupsRead(gs: seq<(Bytes, GroupView)>): (r: seq<(Bytes, Group)>)
    ensures |r| == |gs| && forall i :: 0 <= i < |gs| ==> r[i] == (gs[i].0, GroupRead(gs[i].1))
  {
    if gs == [] then [] else [(gs[0].0, GroupRead(gs[0].1))] + GroupsRead(gs[1..])
  }

  predicate GroupsRestorable(gs: seq<(Bytes, GroupView)>, worth: Worth) {
    forall i :: 0 <= i < |gs| ==> GroupRestorable(gs[i], worth)
  }

  lemma GroupsRestorableStep(gs: seq<(Bytes, GroupView)>, worth: Worth)
    requires gs != []
    ensures GroupsRestorable(gs, worth) <==> GroupRestorable(gs[0], worth) && GroupsRestorable(gs[1..], worth)
  {
    hide GroupRestorable;
    forall i | 1 <= i < |gs|
      ensures gs[i] == gs[1..][i - 1]
    {
    }
  }

  lemma {:induction false} LoadGroupsBack(gs: seq<(Bytes, GroupView)>, worth: Worth, rest: Bytes, m: map<Bytes, Group>)
    requires forall i :: 0 <= i < |gs| ==> GroupOk(gs[i])
    ensures LoadGroups(SavedGroups(gs, worth) + rest, |gs|, m) ==
            if GroupsRestorable(gs, worth) then Good(Insert(m, GroupsRead(gs)), rest) else Bad
    decreases |gs|
  {
    hide SavedGroup, LoadGroup, GroupOk, GroupRead, GroupRestorable;
    if gs == [] {
      assert SavedGroups(gs, worth) + rest == rest;
    } else {
      var g := gs[0];
      assert GroupOk(g);
      var tail := SavedGroups(gs[1..], worth) + rest;
      assert SavedGroups(gs, worth) + rest == SavedGroup(g, worth) + tail;
      LoadGroupBack(g, worth, tail);
      GroupsRestorableStep(gs, worth);
      LoadGroupsBack(gs[1..], worth, rest, m[g.0 := GroupRead(g.1)]);
      assert GroupsRead(gs)[1..] == GroupsRead(gs[1..]);
    }
  }

  lemma {:induction false} GroupsOfAt(gs: seq<(Bytes, GroupView)>)
    ensures |GroupsOf(gs)| == |gs|
    ensures forall i :: 0 <= i < |gs| ==> GroupsOf(gs)[i] == (gs[i].0, GroupOf(gs[i].1))
  {
    hide GroupOf;
    if gs != [] {
      GroupsOfAt(gs[1..]);
    }
  }

  predicate AllConsistent(gs: seq<(Bytes, GroupView)>) { forall i :: 0 <= i < |gs| ==> Consistent(gs[i].1) }

  /** Listings of maps: no key twice. */
  predicate GroupsListed(gs: seq<(Bytes, GroupView)>) {
    DistinctKeys(gs) && forall i :: 0 <= i < |gs| ==> GroupListed(gs[i].1)
  }

  lemma GroupsRoundTrip(gs: seq<(Bytes, GroupView)>)
    requires GroupsListed(gs)
    ensures MapOf(GroupsRead(gs)) == MapOf(GroupsOf(gs)) <==> AllConsistent(gs)
  {
    var r, o := GroupsRead(gs), GroupsOf(gs);
    GroupsOfAt(gs);
    hide GroupRead, GroupOf, Consistent, GroupListed, GroupsRead, GroupsOf;
    forall i | 0 <= i < |gs|
      ensures r[i] == o[i] <==> Consistent(gs[i].1)
      ensures MapOf(r) == MapOf(o) ==> r[i] == o[i]
    {
      GroupRoundTrip(gs[i].1);
      InsertAt(map[], r, gs[i].0);
      InsertAt(map[], o, gs[i].0);
    }
    if AllConsistent(gs) {
      assert r == o;
    }
  }

  /** No string of the dump was compressed from more than 2^29 bytes. */
  predicate StreamRestorable(v: View, worth: Worth)
    requires ViewOk(v)
  {
    NodesRestorable(NodesOf(v.entries), worth) && GroupsRestorable(v.groups, worth)
  }

  lemma LoadStreamBack(v: View, worth: Worth, rest: Bytes)
    requires ViewOk(v)
    ensures LoadStream(SavedStream(v, worth) + rest) ==
            if StreamRestorable(v, worth)
            then Good(StreamOf(v).(groups := MapOf(GroupsRead(v.groups))), rest)
            else Bad
  {
    hide SavedLen, ReadNat, LoadNodes, LoadCounters, LoadGroups, SavedNodes, SavedCounters, SavedGroups, NodesOf,
         GroupOk, RecordsOk, NodesFit, NodesRestorable, GroupsRestorable, GroupsRead, GroupsOf;
    var ns := NodesOf(v.entries);
    var gs := SavedGroups(v.groups, worth) + rest;
    var k := SavedLen(|v.groups|) + gs;
    var c := SavedCounters(v) + k;
    var b := SavedNodes(ns, worth) + c;
    assert SavedStream(v, worth) + rest == SavedLen(|ns|) + b;
    ReadNatBack(|ns|, b);
    LoadNodesBack(ns, worth, c, map[]);
    NodesOfFlatten(v.entries);
    LoadCountersBack(v, k);
    ReadNatBack(|v.groups|, gs);
    LoadGroupsBack(v.groups, worth, rest, map[]);
  }

  /**
   A saved stream is refused exactly when one of its strings went out compressed from more than 2^29 bytes.
   Otherwise loading stops exactly at what follows the dump, and gives the same stream if and only if
   every group is consistent.
   */
  lemma StreamRoundTrip(v: View, worth: Worth, rest: Bytes)
    requires ViewOk(v) && GroupsListed(v.groups)
    ensures var r := LoadStream(SavedStream(v, worth) + rest);
            && (r.Bad? <==> !StreamRestorable(v, worth))
            && (r.Good? ==> r.rest == rest)
            && (r == Good(StreamOf(v), rest) <==> StreamRestorable(v, worth) && AllConsistent(v.groups))
  {
    hide LoadStream, SavedStream, ViewOk, StreamRestorable, AllConsistent, GroupsListed, GroupsRead, GroupsOf;
    LoadStreamBack(v, worth, rest);
    GroupsRoundTrip(v.groups);
  }
}
