/**
 The operations of a stream (src/core/stream.rs): appending, deleting, trimming, and reading and
 acknowledging through consumer groups. Every operation keeps the books: `length` counts the live
 entries, and each consumer's `pending` counts the pending entries it owns.
 */
module StreamModel {
  import opened Bits
  import RdbStringSpec
  import opened StreamNodeSpec
  import opened StreamDumpSpec
  import opened StreamDumpProof
  import opened StreamState
  import opened StreamTrim


  lemma {:induction false} WithoutFirst(ids: seq<Id>)
    requires ids != [] && Sorted(ids)
    ensures Without(ids, ids[0]) == ids[1..]
  {
    assert ids[0] !in ids[1..];
    WithoutAbsent(ids[1..], ids[0]);
  }

  lemma KillStays(es: Entries, id: Id, last: Id)
    requires Ascending(es) && forall i :: 0 <= i < |es| && !es[i].1.deleted ==> AtMost(es[i].0, last)
    ensures forall i :: 0 <= i < |Kill(es, id)| && !Kill(es, id)[i].1.deleted ==> AtMost(Kill(es, id)[i].0, last)
  {
    var r := Kill(es, id);
    forall i | 0 <= i < |r| && !r[i].1.deleted
      ensures AtMost(r[i].0, last)
    {
      assert r[i] == es[i];
    }
  }

  lemma JoinFirst(nodes: seq<seq<Id>>)
    requires nodes != []
    ensures Join(nodes) == nodes[0] + Join(nodes[1..])
  {
  }

  // ---- chunks of live IDs ----

  function Join(nodes: seq<seq<Id>>): seq<Id> { if nodes == [] then [] else nodes[0] + Join(nodes[1..]) }

  lemma {:induction false} JoinLast(nodes: seq<seq<Id>>, node: seq<Id>)
    ensures Join(nodes + [node]) == Join(nodes) + node
    decreases |nodes|
  {
    if nodes == [] {
      assert [node][1..] == [] && [] + [node] == [node];
      assert node + [] == node && [] + node == node;
    } else {
      assert (nodes + [node])[1..] == nodes[1..] + [node];
      JoinLast(nodes[1..], node);
      assert nodes[0] + (Join(nodes[1..]) + node) == nodes[0] + Join(nodes[1..]) + node;
    }
  }

  /** Live entries after `last`, in order. */
  function After(es: Entries, last: Id): seq<(Id, Item)> {
    if es == [] then []
    else (if Before(last, es[0].0) && !es[0].1.deleted then [es[0]] else []) + After(es[1..], last)
  }

  /** The pending entries of `name` from `id` on. */
  function OwnFrom(pel: seq<(Id, Pending)>, name: Bytes, id: Id): seq<Id> {
    if pel == [] then []
    else (if !Before(pel[0].0, id) && pel[0].1.consumer == name then [pel[0].0] else []) + OwnFrom(pel[1..], name, id)
  }

  function Limit<T>(s: seq<T>, count: Option<nat>): (r: seq<T>)
    ensures r <= s
  {
    if count.Some? && count.value < |s| then s[..count.value] else s
  }

  function DeliverAll(g: Cg, name: Bytes, es: seq<(Id, Item)>, now: nat, noack: bool): Cg
    requires name in g.consumers
    decreases |es|
  {
    if es == [] then g
    else if noack then DeliverAll(g.(lastDelivered := es[0].0), name, es[1..], now, noack)
    else DeliverAll(Deliver(g, name, es[0].0, now), name, es[1..], now, noack)
  }

  function RedeliverAll(g: Cg, ids: seq<Id>, now: nat): Cg
    decreases |ids|
  {
    if ids == [] then g else RedeliverAll(Redelivered(g, ids[0], now), ids[1..], now)
  }

  /** Group state, with the number of IDs that were pending. */
  function AckAll(g: Cg, ids: seq<Id>): (Cg, nat)
    decreases |ids|
  {
    if ids == [] then (g, 0) else
    var r := AckAll(Acked(g, ids[0]), ids[1..]);
    (r.0, r.1 + if Has(g.pel, ids[0]) then 1 else 0)
  }

  lemma NoAckOk(g: Cg, id: Id)
    requires CgOk(g) && Before(g.lastDelivered, id)
    ensures CgOk(g.(lastDelivered := id))
  {
    forall i | 0 <= i < |g.pel|
      ensures AtMost(g.pel[i].0, id)
    {
      assert AtMost(g.pel[i].0, g.lastDelivered);
    }
  }

  // ---- the invariant and the dump ----

  /** A well-kept group, listed in any order, is what a dump brings back unchanged. */
  lemma CgConsistent(g: Cg, entriesRead: int, cs: seq<(Bytes, Consumer)>)
    requires CgOk(g) && MapOf(cs) == g.consumers && DistinctKeys(cs)
    ensures var v := GroupView(g.lastDelivered, entriesRead, g.pel, cs); GroupListed(v) && Consistent(v)
  {
    hide Owned;
    forall i, j | 0 <= i < j < |g.pel|
      ensures g.pel[i].0 != g.pel[j].0
    {
      assert Before(g.pel[i].0, g.pel[j].0);
    }
    forall i | 0 <= i < |cs|
      ensures cs[i].1.pending == |Owned(g.pel, cs[i].0)|
    {
      InsertAt(map[], cs, cs[i].0);
    }
    forall i | 0 <= i < |g.pel|
      ensures g.pel[i].1.consumer in NameSet(cs)
    {
      var n := g.pel[i].1.consumer;
      assert n in g.consumers;
      InsertAt(map[], cs, n);
      NamesListed(cs, n);
    }
  }

  lemma {:induction false} NamesListed(cs: seq<(Bytes, Consumer)>, n: Bytes)
    requires InKeys(cs, n)
    ensures n in NameSet(cs)
  {
    var i :| 0 <= i < |cs| && cs[i].0 == n;
    if i > 0 {
      assert cs[1..][i - 1].0 == n;
      NamesListed(cs[1..], n);
    }
  }

  /** `v` lists the parts of group `g`, its consumers in some order. */
  predicate ListsGroup(g: Cg, v: GroupView) {
    v.last == g.lastDelivered && v.pel == g.pel && MapOf(v.consumers) == g.consumers && DistinctKeys(v.consumers)
  }

  /** `gs` lists the groups, in some order. */
  predicate ListsGroups(groups: map<Bytes, Cg>, gs: seq<(Bytes, GroupView)>) {
    && DistinctKeys(gs) && (forall n :: n in groups ==> InKeys(gs, n))
    && forall i :: 0 <= i < |gs| ==> gs[i].0 in groups && ListsGroup(groups[gs[i].0], gs[i].1)
  }

  lemma ListedConsistent(groups: map<Bytes, Cg>, gs: seq<(Bytes, GroupView)>)
    requires ListsGroups(groups, gs) && forall n :: n in groups ==> CgOk(groups[n])
    ensures GroupsListed(gs) && AllConsistent(gs)
  {
    hide CgOk, GroupListed, Consistent;
    forall i | 0 <= i < |gs|
      ensures GroupListed(gs[i].1) && Consistent(gs[i].1)
    {
      var g, v := groups[gs[i].0], gs[i].1;
      CgConsistent(g, v.entriesRead, v.consumers);
      assert v == GroupView(g.lastDelivered, v.entriesRead, g.pel, v.consumers);
    }
  }

  datatype CreateError = Empty | Exists

  class Stream {
    var entries: Entries
    var length: nat
    var last: Id
    var maxDeleted: Id
    var groups: map<Bytes, Cg>

    ghost predicate Valid()
      reads this
    {
      && Ascending(entries)
      && length == |LiveIds(entries)|
      && (forall i :: 0 <= i < |entries| && !entries[i].1.deleted ==> AtMost(entries[i].0, last))
      && (forall n :: n in groups ==> CgOk(groups[n]))
    }

    ghost function Live(): seq<Id>
      reads this
    {
      LiveIds(entries)
    }

    /**
     Whatever operations led here, dumping the stream and loading the dump gives the stream back, unless one of
     its strings is refused.
     */
    lemma DumpRestores(gs: seq<(Bytes, GroupView)>, worth: Worth, rest: Bytes)
      requires Valid() && ListsGroups(groups, gs) && ViewOk(View(entries, length, last, maxDeleted, gs))
      ensures var v := View(entries, length, last, maxDeleted, gs);
              LoadStream(SavedStream(v, worth) + rest) == if StreamRestorable(v, worth) then RdbStringSpec.Good(StreamOf(v), rest) else RdbStringSpec.Bad
    {
      hide ViewOk, StreamRestorable, LoadStream, SavedStream, GroupsListed, AllConsistent, ListsGroups, StreamOf;
      ListedConsistent(groups, gs);
      StreamRoundTrip(View(entries, length, last, maxDeleted, gs), worth, rest);
    }

    constructor ()
      ensures Valid() && entries == [] && groups == map[] && last == Id(0, 0) && maxDeleted == Id(0, 0)
    {
      entries, length, last, maxDeleted, groups := [], 0, Id(0, 0), Id(0, 0), map[];
    }

    /** The caller guarantees an ID after the last one. */
    method Append(id: Id, fields: Fields)
      requires Valid() && Before(last, id)
      modifies this`entries, this`last, this`length
      ensures Valid() && Live() == old(Live()) + [id] && last == id
      ensures entries == Put(old(entries), id, Item(fields, false))
    {
      hide LiveIds, Rank;
      ghost var was := entries;
      forall i | 0 <= i < |entries| && !entries[i].1.deleted
        ensures Before(entries[i].0, id)
      {
        assert AtMost(entries[i].0, last);
      }
      AppendLive(entries, id, Item(fields, false));
      PutAscending(entries, id, Item(fields, false));
      entries := Put(entries, id, Item(fields, false));
      last := id;
      length := length + 1;
      forall i | 0 <= i < |entries| && !entries[i].1.deleted
        ensures AtMost(entries[i].0, last)
      {
        assert entries[i].0 == id || entries[i] in was;
      }
    }

    method TrimDelete(id: Id) returns (r: bool)
      requires Valid()
      modifies this`entries, this`length
      ensures Valid() && r == (id in old(Live())) && entries == (if r then Kill(old(entries), id) else old(entries))
      ensures Live() == Without(old(Live()), id)
    {
      hide LiveIds, Rank;
      KillLive(entries, id);
      KillStays(entries, id, last);
      r := Has(entries, id) && !Get(entries, id).deleted;
      if r {
        entries := Kill(entries, id);
        length := length - 1;
      }
    }

    method Delete(id: Id) returns (r: bool)
      requires Valid()
      modifies this`entries, this`length, this`maxDeleted
      ensures Valid() && r == (id in old(Live())) && entries == (if r then Kill(old(entries), id) else old(entries))
      ensures Live() == Without(old(Live()), id)
      ensures maxDeleted == if r && Before(old(maxDeleted), id) then id else old(maxDeleted)
    {
      r := TrimDelete(id);
      if r && Before(maxDeleted, id) {
        maxDeleted := id;
      }
    }

    // ---- trimming ----

    method NodeChunks() returns (nodes: seq<seq<Id>>)
      ensures Join(nodes) == Live() && forall i :: 0 <= i < |nodes| ==> nodes[i] != [] && |nodes[i]| <= 100
      ensures forall i :: 0 <= i < |nodes| - 1 ==> |nodes[i]| == 100
    {
      hide LiveIds, Join;
      nodes := [];
      var current: seq<Id> := [];
      assert entries[0..] == entries;
      JoinNothing();
      assert [] + [] + Live() == Live();
      for i := 0 to |entries|
        invariant forall i :: 0 <= i < |nodes| ==> |nodes[i]| == NODE_SIZE
        invariant |current| < NODE_SIZE && Join(nodes) + current + LiveIds(entries[i..]) == LiveIds(entries)
      {
        ghost var rest := LiveIds(entries[i + 1..]);
        LiveFirst(entries[i..]);
        assert entries[i..][0] == entries[i] && entries[i..][1..] == entries[i + 1..];
        if entries[i].1.deleted {
          assert [] + rest == rest;
          continue;
        }
        assert Join(nodes) + current + ([entries[i].0] + rest) == Join(nodes) + (current + [entries[i].0]) + rest;
        current := current + [entries[i].0];
        if |current| == NODE_SIZE {
          JoinLast(nodes, current);
          assert Join(nodes) + current + [] == Join(nodes) + current;
          nodes, current := nodes + [current], [];
        }
      }
      NoLive(entries[|entries|..]);
      assert Join(nodes) + current + [] == Join(nodes) + current;
      if current != [] {
        JoinLast(nodes, current);
        nodes := nodes + [current];
      } else {
        assert Join(nodes) + [] == Join(nodes);
      }
    }

    /** Removes a whole prefix of the live entries, one by one. */
    method RemoveAll(node: seq<Id>)
      requires Valid() && node <= Live()
      modifies this`entries, this`length
      ensures Valid() && Live() == old(Live())[|node|..]
    {
      hide Valid, LiveIds;
      ghost var all := Live();
      for i := 0 to |node|
        invariant Valid() && Live() == all[i..]
      {
        RemoveOldest(node[i]);
      }
    }

    method RemoveOldest(id: Id)
      requires Valid() && Live() != [] && Live()[0] == id
      modifies this`entries, this`length
      ensures Valid() && Live() == old(Live())[1..]
    {
      hide LiveIds, Without;
      LiveSorted(entries);
      WithoutFirst(Live());
      var r := TrimDelete(id);
    }

    /** Removes the oldest of `node` while there are more than `maxlen` entries or they are before `minid`. */
    method RemoveSome(node: seq<Id>, maxlen: Option<nat>, minid: Option<Id>) returns (k: nat)
      requires Valid() && node <= Live()
      modifies this`entries, this`length
      ensures Valid() && k <= |node| && Live() == old(Live())[k..]
      ensures forall j :: 0 <= j < k ==> Excess(old(Live()), j, maxlen, minid)
      ensures k < |node| ==> !Excess(old(Live()), k, maxlen, minid)
    {
      hide LiveIds, Without;
      ghost var all := Live();
      k := 0;
      while k < |node|
        invariant Valid() && k <= |node| && Live() == all[k..]
        invariant forall j :: 0 <= j < k ==> Excess(all, j, maxlen, minid)
      {
        var overLen := maxlen.Some? && length > maxlen.value;
        var belowMin := minid.Some? && Before(node[k], minid.value);
        assert node[k] == all[k] && length == |all| - k;
        if !overLen && !belowMin {
          break;
        }
        RemoveOldest(node[k]);
        k := k + 1;
      }
    }

    lemma Facts()
      requires Valid()
      ensures length == |Live()| && Sorted(Live())
    {
      LiveSorted(entries);
    }

    /** Removes whole nodes while they are in excess, then, unless approximate, the part of one more that is. */
    method TrimNodes(maxlen: Option<nat>, minid: Option<Id>, approx: bool, limit: Option<nat>) returns (removed: nat)
      requires Valid()
      modifies this`entries, this`length
      ensures Valid() && Stopped(old(Live()), removed, maxlen, minid, approx, limit) && Live() == old(Live())[removed..]
    {
      hide Valid, LiveIds, Join, Excess, WholeNode, Before, Sorted, Walked, Stopped, OneBound;
      ghost var all := Live();
      Facts();
      removed := 0;
      NothingWalked(all, maxlen, minid, limit);
      var nodes := NodeChunks();
      assert nodes[0..] == nodes;
      for i := 0 to |nodes|
        invariant Valid() && removed <= |all| && Join(nodes[i..]) == all[removed..] == Live()
        invariant Walked(all, removed, maxlen, minid, limit) && (i < |nodes| ==> removed % NODE_SIZE == 0)
      {
        Facts();
        var node := nodes[i];
        assert nodes[i..][0] == node && nodes[i..][1..] == nodes[i + 1..];
        JoinFirst(nodes[i..]);
        NodeAhead(all, removed, node, Join(nodes[i + 1..]));
        if i == |nodes| - 1 {
          assert nodes[i + 1..] == [];
          JoinNothing();
        }
        NodeOutcome(all, removed, |node|, maxlen, minid, approx, limit);
        if maxlen.Some? && length <= maxlen.value {
          return;
        }
        if limit.Some? && removed + |node| > limit.value {
          return;
        }
        if WholeNode(length, |node|, node[|node| - 1], maxlen, minid) {
          RemoveAll(node);
          removed := removed + |node|;
          continue;
        }
        if approx {
          return;
        }
        removed := RemovePart(node, maxlen, minid, removed, limit, all);
        return;
      }
      JoinNothing();
      assert nodes[|nodes|..] == [];
      WalkEnds(all, maxlen, minid, approx, limit);
    }

    /**
     Trimming removes the oldest live entries, only such as are in excess, and never more than the limit. An exact
     trim to a length leaves min(length, limit) entries; an exact trim to an ID leaves exactly those not before it.
     An approximate trim removes whole nodes of 100 entries, as many as are in excess and within the limit.
     */
    method Trim(maxlen: Option<nat>, minid: Option<Id>, approx: bool, limit: Option<nat>) returns (removed: nat)
      requires Valid()
      modifies this`entries, this`length
      ensures Valid() && removed <= |old(Live())| && Live() == old(Live())[removed..]
      ensures limit.Some? ==> removed <= limit.value
      ensures forall j :: 0 <= j < removed ==> Excess(old(Live()), j, maxlen, minid)
      ensures !approx && limit.None? && maxlen.Some? && minid.None? ==>
                |Live()| == Min(|old(Live())|, maxlen.value)
      ensures !approx && limit.None? && maxlen.None? && minid.Some? ==>
                forall i :: 0 <= i < |old(Live())| ==> (i >= removed <==> !Before(old(Live())[i], minid.value))
      ensures approx && limit.None? && maxlen.Some? && minid.None? ==>
                removed == var len, m := |old(Live())|, maxlen.value;
                           if m == 0 then len else if len <= m then 0 else 100 * ((len - m) / 100)
      ensures approx && OneBound(maxlen, minid) ==> IsLargest(old(Live()), removed, maxlen, minid, limit)
      ensures Stopped(old(Live()), removed, maxlen, minid, approx, limit)
    {
      hide Valid, LiveIds, Excess, Before, Amount, InExcess, Sorted, IsLargest;
      Facts();
      ghost var all := Live();
      removed := TrimNodes(maxlen, minid, approx, limit);
      if OneBound(maxlen, minid) {
        if approx {
          ApproxLargest(all, removed, maxlen, minid, limit);
          if limit.None? && maxlen.Some? {
            ApproxLength(all, removed, maxlen.value);
          }
        } else if limit.None? {
          if removed < |all| {
            ExactStops(all, removed, maxlen, minid);
          }
          if maxlen.Some? {
            ExactLength(all, removed, maxlen.value);
          } else {
            forall i | 0 <= i < |all|
              ensures i >= removed <==> !Before(all[i], minid.value)
            {
              ExactMinId(all, removed, minid.value, i);
            }
          }
        }
      }
    }

    /** The last step of an exact trim, with its result told in terms of the whole list. */
    method RemovePart(node: seq<Id>, maxlen: Option<nat>, minid: Option<Id>, removed: nat, ghost limit: Option<nat>, ghost all: seq<Id>)
      returns (r: nat)
      requires Valid() && Sorted(all) && removed < |all| && removed % NODE_SIZE == 0 && Live() == all[removed..]
      requires node != [] && node <= Live() && removed + |node| == Min(|all|, removed + NODE_SIZE)
      requires Walked(all, removed, maxlen, minid, limit) && Within(removed + |node|, limit)
      requires !(maxlen.Some? && |all| - removed <= maxlen.value)
      requires !WholeNode(|all| - removed, |node|, all[removed + |node| - 1], maxlen, minid)
      modifies this`entries, this`length
      ensures Valid() && Stopped(all, r, maxlen, minid, false, limit) && r <= |all| && Live() == all[r..]
    {
      hide Valid, LiveIds, Excess, InExcess, Sorted, WholeNode, Stopped;
      var k := RemoveSome(node, maxlen, minid);
      r := removed + k;
      forall j | removed <= j < r
        ensures Excess(all, j, maxlen, minid)
      {
        ExcessShift(all, removed, j - removed, maxlen, minid);
      }
      if k < |node| {
        ExcessShift(all, removed, k, maxlen, minid);
      }
      PartOutcome(all, removed, |node|, r, maxlen, minid, limit);
    }

    // ---- consumer groups ----

    method CreateGroup(name: Bytes, id: Id, mkstream: bool, idIsDollar: bool) returns (r: Option<CreateError>)
      requires Valid()
      modifies this`groups, this`last
      ensures Valid()
      ensures r == if old(length) == 0 && idIsDollar && !mkstream then Some(Empty)
                   else if name in old(groups) then Some(Exists) else None
      ensures groups == if r.None? then old(groups)[name := Cg(id, [], map[])] else old(groups)
      ensures last == if r.None? && mkstream && length == 0 && idIsDollar then id else old(last)
    {
      if length == 0 && idIsDollar && !mkstream {
        return Some(Empty);
      }
      if name in groups {
        return Some(Exists);
      }
      if mkstream && length == 0 && idIsDollar {
        NoneAlive();
        last := id;
      }
      groups := groups[name := Cg(id, [], map[])];
      r := None;
    }

    /** A stream of length 0 has only tombstones, so its last ID may be set freely. */
    lemma NoneAlive()
      requires Valid() && length == 0
      ensures forall i :: 0 <= i < |entries| ==> entries[i].1.deleted
    {
      forall i | 0 <= i < |entries|
        ensures entries[i].1.deleted
      {
        LiveIn(entries, entries[i].0);
      }
    }

    method DestroyGroup(name: Bytes) returns (r: bool)
      requires Valid()
      modifies this`groups
      ensures Valid() && r == (name in old(groups)) && groups == old(groups) - {name}
    {
      r := name in groups;
      groups := groups - {name};
    }

    /** Delivers the entries after the last delivered one: the oldest first, at most `count`. */
    method ReadNew(group: Bytes, name: Bytes, count: Option<nat>, noack: bool, now: nat) returns (r: Option<seq<(Id, Item)>>)
      requires Valid()
      modifies this`groups
      ensures Valid() && r.Some? == (group in old(groups))
      ensures r.Some? ==>
                && r.value == Limit(After(entries, old(groups)[group].lastDelivered), count)
                && groups == old(groups)[group := DeliverAll(Touch(old(groups)[group], name, now), name, r.value, now, noack)]
      ensures r.None? ==> groups == old(groups)
    {
      if group !in groups {
        return None;
      }
      hide LiveIds, CgOk, After, DeliverAll;
      TouchOk(groups[group], name, now);
      var g := Touch(groups[group], name, now);
      var out;
      g, out := DeliverNew(g, entries, name, count, noack, now);
      groups := groups[group := g];
      r := Some(out);
    }

    /** Delivers again what the consumer already has pending from `id` on. */
    method ReadOwn(group: Bytes, name: Bytes, id: Id, count: Option<nat>, now: nat) returns (r: Option<seq<(Id, Fields)>>)
      requires Valid()
      modifies this`groups
      ensures Valid() && r.Some? == (group in old(groups))
      ensures r.Some? ==>
                var ids := Limit(OwnFrom(old(groups)[group].pel, name, id), count);
                && |r.value| == |ids|
                && (forall j :: 0 <= j < |ids| ==> r.value[j] == (ids[j], FieldsOf(entries, ids[j])))
                && groups == old(groups)[group := RedeliverAll(Touch(old(groups)[group], name, now), ids, now)]
      ensures r.None? ==> groups == old(groups)
    {
      if group !in groups {
        return None;
      }
      hide LiveIds, CgOk, Rank, Owned, RedeliverAll, OwnFrom;
      TouchOk(groups[group], name, now);
      var g := Touch(groups[group], name, now);
      var ids := OwnIds(g.pel, name, id, count);
      var out := Report(entries, ids);
      g := Redeliver(g, ids, now);
      groups := groups[group := g];
      r := Some(out);
    }

    /** Acknowledged IDs leave the pending list; the count says how many were pending. */
    method Ack(group: Bytes, ids: seq<Id>) returns (removed: nat)
      requires Valid()
      modifies this`groups
      ensures Valid()
      ensures group in old(groups) ==>
                (groups, removed) == (old(groups)[group := AckAll(old(groups)[group], ids).0], AckAll(old(groups)[group], ids).1)
      ensures group !in old(groups) ==> groups == old(groups) && removed == 0
    {
      removed := 0;
      if group !in groups {
        return;
      }
      hide LiveIds, CgOk, AckAll;
      var g;
      g, removed := AckIds(groups[group], ids);
      groups := groups[group := g];
    }
  }

  // ---- loops over one group ----

  method DeliverNew(start: Cg, entries: Entries, name: Bytes, count: Option<nat>, noack: bool, now: nat)
    returns (g: Cg, out: seq<(Id, Item)>)
    requires CgOk(start) && name in start.consumers && Ascending(entries)
    ensures CgOk(g) && out == Limit(After(entries, start.lastDelivered), count)
    ensures g == DeliverAll(start, name, out, now, noack)
  {
    hide CgOk, Deliver, DeliverAll, After;
    var last := start.lastDelivered;
    g, out := start, [];
    AllAfter(entries, last);
    DeliverNone(start, name, now, noack);
    for i := 0 to |entries|
      invariant CgOk(g) && name in g.consumers
      invariant out + After(entries[i..], last) == After(entries, last)
      invariant count.Some? ==> |out| <= count.value
      invariant DeliverAll(start, name, out, now, noack) == g
      invariant g.lastDelivered == last || exists j :: 0 <= j < i && entries[j].0 == g.lastDelivered
    {
      AfterStep(entries, i, last);
      if !Before(last, entries[i].0) || entries[i].1.deleted {
        continue;
      }
      var e := entries[i];
      if count.Some? && |out| >= count.value {
        CutHere(out, e, After(entries[i + 1..], last), count.value);
        return;
      }
      assert Before(g.lastDelivered, e.0);
      Regroup(out, e, After(entries[i + 1..], last));
      DeliverLast(start, name, out, e, now, noack);
      if noack {
        NoAckOk(g, e.0);
        g := g.(lastDelivered := e.0);
      } else {
        DeliverOk(g, name, e.0, now);
        DeliverKeeps(g, name, e.0, now);
        g := Deliver(g, name, e.0, now);
      }
      out := out + [e];
    }
    NoneAfter(entries, last);
    assert out + [] == out;
  }

  lemma AllAfter(es: Entries, last: Id)
    ensures [] + After(es[0..], last) == After(es, last)
  {
    assert es[0..] == es;
  }

  lemma NoneAfter(es: Entries, last: Id)
    ensures After(es[|es|..], last) == []
  {
  }

  lemma AfterStep(es: Entries, i: nat, last: Id)
    requires i < |es|
    ensures var rest := After(es[i + 1..], last);
            After(es[i..], last) == if Before(last, es[i].0) && !es[i].1.deleted then [es[i]] + rest else rest
  {
    assert es[i..][0] == es[i] && es[i..][1..] == es[i + 1..];
  }

  lemma DeliverNone(g: Cg, name: Bytes, now: nat, noack: bool)
    requires name in g.consumers
    ensures DeliverAll(g, name, [], now, noack) == g
  {
  }

  lemma CutHere<T>(out: seq<T>, e: T, rest: seq<T>, n: nat)
    requires |out| == n
    ensures Limit(out + ([e] + rest), Some(n)) == out
  {
  }

  lemma Regroup<T>(out: seq<T>, e: T, rest: seq<T>)
    ensures out + ([e] + rest) == out + [e] + rest
  {
  }

  method Report(entries: Entries, ids: seq<Id>) returns (out: seq<(Id, Fields)>)
    ensures |out| == |ids| && forall j :: 0 <= j < |ids| ==> out[j] == (ids[j], FieldsOf(entries, ids[j]))
  {
    out := [];
    for i := 0 to |ids|
      invariant |out| == i && forall j :: 0 <= j < i ==> out[j] == (ids[j], FieldsOf(entries, ids[j]))
    {
      out := out + [(ids[i], FieldsOf(entries, ids[i]))];
    }
  }

  method Redeliver(start: Cg, ids: seq<Id>, now: nat) returns (g: Cg)
    requires CgOk(start)
    ensures CgOk(g) && g == RedeliverAll(start, ids, now)
  {
    hide CgOk, Redelivered;
    g := start;
    assert ids[0..] == ids;
    for i := 0 to |ids|
      invariant CgOk(g) && RedeliverAll(g, ids[i..], now) == RedeliverAll(start, ids, now)
    {
      assert ids[i..][0] == ids[i] && ids[i..][1..] == ids[i + 1..];
      RedeliveredOk(g, ids[i], now);
      g := Redelivered(g, ids[i], now);
    }
  }

  method AckIds(start: Cg, ids: seq<Id>) returns (g: Cg, removed: nat)
    requires CgOk(start)
    ensures CgOk(g) && (g, removed) == AckAll(start, ids)
  {
    hide CgOk, Acked;
    g, removed := start, 0;
    assert ids[0..] == ids;
    for i := 0 to |ids|
      invariant CgOk(g)
      invariant var rest, all := AckAll(g, ids[i..]), AckAll(start, ids); rest.0 == all.0 && removed + rest.1 == all.1
    {
      assert ids[i..][0] == ids[i] && ids[i..][1..] == ids[i + 1..];
      AckedOk(g, ids[i]);
      if Has(g.pel, ids[i]) {
        removed := removed + 1;
      }
      g := Acked(g, ids[i]);
    }
  }

  // ---- helper facts for the methods ----

  lemma NodeAhead(all: seq<Id>, removed: nat, node: seq<Id>, rest: seq<Id>)
    requires removed <= |all| && all[removed..] == node + rest && node != []
    ensures removed + |node| <= |all| && node <= all[removed..] && node[|node| - 1] == all[removed + |node| - 1]
    ensures all[removed..][|node|..] == all[removed + |node|..] == rest
  {
    assert node[|node| - 1] == all[removed..][|node| - 1];
  }

  lemma JoinNothing()
    ensures Join([]) == []
  {
  }

  /** What a redelivery reports: nothing for an entry that is gone. */
  function FieldsOf(es: Entries, id: Id): Fields {
    if Has(es, id) && !Get(es, id).deleted then Get(es, id).fields else []
  }

  lemma {:induction false} DeliverLast(g: Cg, name: Bytes, es: seq<(Id, Item)>, e: (Id, Item), now: nat, noack: bool)
    requires name in g.consumers
    ensures var d := DeliverAll(g, name, es, now, noack);
            && name in d.consumers
            && DeliverAll(g, name, es + [e], now, noack) == if noack then d.(lastDelivered := e.0) else Deliver(d, name, e.0, now)
    decreases |es|
  {
    if es == [] {
      assert [] + [e] == [e] && [e][1..] == [];
    } else {
      assert (es + [e])[1..] == es[1..] + [e];
      DeliverLast(if noack then g.(lastDelivered := es[0].0) else Deliver(g, name, es[0].0, now), name, es[1..], e, now, noack);
    }
  }

  lemma DeliverKeeps(g: Cg, name: Bytes, id: Id, now: nat)
    requires name in g.consumers
    ensures var d := Deliver(g, name, id, now); name in d.consumers && d.lastDelivered == id
  {
  }

  method OwnIds(pel: seq<(Id, Pending)>, name: Bytes, id: Id, count: Option<nat>) returns (ids: seq<Id>)
    ensures ids == Limit(OwnFrom(pel, name, id), count)
  {
    ids := [];
    assert pel[0..] == pel;
    for i := 0 to |pel|
      invariant ids + OwnFrom(pel[i..], name, id) == OwnFrom(pel, name, id)
      invariant count.Some? ==> |ids| <= count.value
    {
      ghost var rest := OwnFrom(pel[i + 1..], name, id);
      assert pel[i..][0] == pel[i] && pel[i..][1..] == pel[i + 1..];
      if Before(pel[i].0, id) || pel[i].1.consumer != name {
        assert [] + rest == rest;
        continue;
      }
      if count.Some? && |ids| >= count.value {
        assert (ids + OwnFrom(pel[i..], name, id))[..count.value] == ids;
        break;
      }
      assert ids + ([pel[i].0] + rest) == ids + [pel[i].0] + rest;
      ids := ids + [pel[i].0];
    }
    assert ids == Limit(OwnFrom(pel, name, id), count) by {
      assert ids + [] == ids;
    }
  }
}
