/**
 What reading and acknowledging through a consumer group mean for its pending list
 (src/core/stream.rs), in terms of the IDs on it and of integer comparisons.
 */
module StreamGroups {
  import opened Bits
  import opened StreamNodeSpec
  import opened StreamDumpSpec
  import opened StreamState
  import opened StreamModel

  /** `a` is a later ID than `b`: a later millisecond, or the same and a greater sequence number. */
  predicate Later(a: Id, b: Id) { a.ms > b.ms || (a.ms == b.ms && a.sq > b.sq) }

  /** The live IDs of a stream come in order of time, then sequence number. */
  lemma LiveInOrder(es: Entries, i: nat, j: nat)
    requires Ascending(es) && i < j < |LiveIds(es)|
    ensures Later(LiveIds(es)[j], LiveIds(es)[i])
  {
    LiveSorted(es);
  }

  /** The first ID a dump records is the least live one, or 0-0 when there is none. */
  lemma {:induction false} FirstLiveLeast(es: Entries)
    requires Ascending(es)
    ensures var live, first := LiveIds(es), FirstLive(es);
            if live == [] then first == Id(0, 0) else first in live && forall x :: x in live && x != first ==> Later(x, first)
  {
    FirstOfLive(es);
    LiveSorted(es);
  }

  lemma {:induction false} FirstOfLive(es: Entries)
    ensures FirstLive(es) == if LiveIds(es) == [] then Id(0, 0) else LiveIds(es)[0]
    decreases |es|
  {
    if es != [] {
      FirstOfLive(es[1..]);
    }
  }

  // ---- new entries ----

  /** What is read as new: exactly the live entries later than the last delivered one, oldest first. */
  lemma {:induction false} AfterMeans(es: Entries, last: Id, e: (Id, Item))
    requires Ascending(es)
    ensures e in After(es, last) <==> e in es && !e.1.deleted && Later(e.0, last)
    ensures Ascending(After(es, last)) && forall i :: 0 <= i < |After(es, last)| ==> After(es, last)[i] in es
    decreases |es|
  {
    if es != [] {
      var rest := After(es[1..], last);
      AfterMeans(es[1..], last, e);
      assert e in es <==> e == es[0] || e in es[1..];
      forall i | 0 <= i < |rest|
        ensures rest[i] in es && Before(es[0].0, rest[i].0)
      {
        assert rest[i] in es[1..];
        var j :| 0 <= j < |es[1..]| && es[1..][j] == rest[i];
        assert es[j + 1] == rest[i];
      }
    }
  }

  function NewPending(es: seq<(Id, Item)>, name: Bytes, now: nat): (r: seq<(Id, Pending)>)
    ensures |r| == |es|
  {
    seq(|es|, i requires 0 <= i < |es| => (es[i].0, Pending(name, now, 1)))
  }

  /** Delivering adds one pending entry each, delivered once and now, to the end of the list; without acknowledgement, none. */
  lemma {:induction false} DeliverMeans(g: Cg, name: Bytes, es: seq<(Id, Item)>, now: nat, noack: bool)
    requires CgOk(g) && name in g.consumers && Ascending(es) && forall i :: 0 <= i < |es| ==> Later(es[i].0, g.lastDelivered)
    ensures var d := DeliverAll(g, name, es, now, noack);
            && d.lastDelivered == (if es == [] then g.lastDelivered else es[|es| - 1].0)
            && (noack ==> d.pel == g.pel && d.consumers == g.consumers)
            && (!noack ==> d.pel == g.pel + NewPending(es, name, now) && d.consumers.Keys == g.consumers.Keys
                           && d.consumers[name].pending == g.consumers[name].pending + |es|)
    decreases |es|
  {
    hide CgOk, Deliver;
    if es == [] {
      assert g.pel + NewPending(es, name, now) == g.pel;
      return;
    }
    var id, rest := es[0].0, es[1..];
    assert Before(g.lastDelivered, id);
    forall i | 0 <= i < |rest|
      ensures Later(rest[i].0, id)
    {
      assert Before(es[0].0, es[i + 1].0);
    }
    assert Ascending(rest);
    if noack {
      NoAckOk(g, id);
      DeliverMeans(g.(lastDelivered := id), name, rest, now, noack);
    } else {
      DeliverOk(g, name, id, now);
      DeliverFields(g, name, id, now);
      var d := Deliver(g, name, id, now);
      DeliverMeans(d, name, rest, now, noack);
      var p := (id, Pending(name, now, 1));
      assert NewPending(es, name, now) == [p] + NewPending(rest, name, now);
      assert g.pel + [p] + NewPending(rest, name, now) == g.pel + ([p] + NewPending(rest, name, now));
    }
  }

  lemma DeliverFields(g: Cg, name: Bytes, id: Id, now: nat)
    requires name in g.consumers
    ensures var d := Deliver(g, name, id, now);
            && d.lastDelivered == id && d.consumers.Keys == g.consumers.Keys && name in d.consumers
            && d.consumers[name].pending == g.consumers[name].pending + 1
  {
  }

  // ---- pending entries ----

  /** `x` is on the pending list, owned by `name`. */
  ghost predicate Owns(pel: seq<(Id, Pending)>, name: Bytes, x: Id) {
    exists i :: 0 <= i < |pel| && pel[i].0 == x && pel[i].1.consumer == name
  }

  /** What a consumer reads again: exactly the pending IDs it owns that are not earlier than `id`, oldest first. */
  lemma {:induction false} OwnFromMeans(pel: seq<(Id, Pending)>, name: Bytes, id: Id, x: Id)
    requires Ascending(pel)
    ensures x in OwnFrom(pel, name, id) <==> Owns(pel, name, x) && !Later(id, x)
    ensures Sorted(OwnFrom(pel, name, id))
    decreases |pel|
  {
    if pel != [] {
      var rest := OwnFrom(pel[1..], name, id);
      OwnFromMeans(pel[1..], name, id, x);
      OwnsFirst(pel, name, x);
      forall i | 0 <= i < |rest|
        ensures Before(pel[0].0, rest[i])
      {
        OwnFromMeans(pel[1..], name, id, rest[i]);
        var j :| 0 <= j < |pel[1..]| && pel[1..][j].0 == rest[i];
        assert pel[j + 1].0 == rest[i];
      }
    }
  }

  lemma OwnsFirst(pel: seq<(Id, Pending)>, name: Bytes, x: Id)
    requires pel != []
    ensures Owns(pel, name, x) <==> (pel[0].0 == x && pel[0].1.consumer == name) || Owns(pel[1..], name, x)
  {
    if i :| 0 <= i < |pel| && pel[i].0 == x && pel[i].1.consumer == name {
      assert i > 0 ==> pel[1..][i - 1] == pel[i];
    }
    if i :| 0 <= i < |pel[1..]| && pel[1..][i].0 == x && pel[1..][i].1.consumer == name {
      assert pel[i + 1] == pel[1..][i];
    }
  }

  /** The pending entry after a redelivery of `ids`: one more delivery, now, if it is among them; otherwise as it was. */
  function Again(p: (Id, Pending), ids: seq<Id>, now: nat): (Id, Pending) {
    if p.0 in ids then (p.0, Pending(p.1.consumer, now, p.1.count + 1)) else p
  }

  /** Reading pending entries again raises their delivery counts by one and changes nothing else. */
  lemma {:induction false} RedeliverMeans(g: Cg, ids: seq<Id>, now: nat)
    requires CgOk(g) && Sorted(ids)
    ensures var d := RedeliverAll(g, ids, now);
            && d.lastDelivered == g.lastDelivered && d.consumers == g.consumers && |d.pel| == |g.pel|
            && forall i :: 0 <= i < |g.pel| ==> d.pel[i] == Again(g.pel[i], ids, now)
    decreases |ids|
  {
    hide CgOk, Redelivered;
    if ids != [] {
      var h, rest := Redelivered(g, ids[0], now), ids[1..];
      RedeliveredOk(g, ids[0], now);
      RedeliveredFields(g, ids[0], now);
      RedeliverMeans(h, rest, now);
      assert ids[0] !in rest by {
        forall j | 0 <= j < |rest|
          ensures rest[j] != ids[0]
        {
          assert Before(ids[0], ids[j + 1]);
        }
      }
      forall i | 0 <= i < |g.pel|
        ensures RedeliverAll(g, ids, now).pel[i] == Again(g.pel[i], ids, now)
      {
        assert g.pel[i].0 in ids <==> g.pel[i].0 == ids[0] || g.pel[i].0 in rest;
      }
    }
  }

  lemma RedeliveredFields(g: Cg, id: Id, now: nat)
    requires CgOk(g)
    ensures var d := Redelivered(g, id, now);
            && d.lastDelivered == g.lastDelivered && d.consumers == g.consumers && |d.pel| == |g.pel|
            && forall i :: 0 <= i < |g.pel| ==> d.pel[i] == Again(g.pel[i], [id], now)
  {
    hide Owned;
    HasIff(g.pel, id);
    forall i | 0 <= i < |g.pel|
      ensures Redelivered(g, id, now).pel[i] == Again(g.pel[i], [id], now)
    {
      HasAt(g.pel, i);
    }
  }

  // ---- acknowledging ----

  ghost predicate PendingId(pel: seq<(Id, Pending)>, x: Id) { exists i :: 0 <= i < |pel| && pel[i].0 == x }

  /** The given IDs that are pending. */
  ghost function PendingAmong(pel: seq<(Id, Pending)>, ids: seq<Id>): set<Id> { set x | x in ids && PendingId(pel, x) }

  /** Acknowledging takes exactly the given IDs off the pending list, and replies how many distinct ones were on it. */
  lemma {:induction false} AckMeans(g: Cg, ids: seq<Id>)
    requires CgOk(g)
    ensures var (d, removed) := AckAll(g, ids);
            && CgOk(d) && removed == |PendingAmong(g.pel, ids)| && d.lastDelivered == g.lastDelivered
            && d.consumers.Keys == g.consumers.Keys && |d.pel| + removed == |g.pel|
            && forall e :: e in d.pel <==> e in g.pel && e.0 !in ids
    decreases |ids|
  {
    hide CgOk, Acked, PendingAmong;
    if ids == [] {
      NoneAmong(g.pel);
      return;
    }
    var id, rest := ids[0], ids[1..];
    var h := Acked(g, id);
    AckedOk(g, id);
    AckedFields(g, id);
    AckMeans(h, rest);
    AmongStep(g.pel, h.pel, ids);
    forall e
      ensures e in AckAll(g, ids).0.pel <==> e in g.pel && e.0 !in ids
    {
      assert e.0 in ids <==> e.0 == id || e.0 in rest;
    }
  }

  lemma NoneAmong(pel: seq<(Id, Pending)>)
    ensures PendingAmong(pel, []) == {}
  {
  }

  lemma AckedFields(g: Cg, id: Id)
    requires CgOk(g)
    ensures var d := Acked(g, id);
            && d.lastDelivered == g.lastDelivered && d.consumers.Keys == g.consumers.Keys
            && (Has(g.pel, id) <==> PendingId(g.pel, id))
            && |d.pel| == |g.pel| - (if PendingId(g.pel, id) then 1 else 0)
            && forall e :: e in d.pel <==> e in g.pel && e.0 != id
  {
    HasIff(g.pel, id);
    if !Has(g.pel, id) {
      return;
    }
    AckedParts(g, id);
    RemovedIn(g.pel, id);
    hide CgOk, Acked, Has, Rank;
  }

  lemma RemovedIn(pel: seq<(Id, Pending)>, id: Id)
    requires Ascending(pel) && Has(pel, id)
    ensures var k := Rank(pel, id); forall e :: e in pel[..k] + pel[k + 1..] <==> e in pel && e.0 != id
  {
    var k := Rank(pel, id);
    hide Rank;
    var r := pel[..k] + pel[k + 1..];
    forall e
      ensures e in r <==> e in pel && e.0 != id
    {
      if e in r {
        var i :| 0 <= i < |r| && r[i] == e;
        var j := if i < k then i else i + 1;
        assert pel[j] == e;
        assert j < k ==> Before(pel[j].0, pel[k].0);
        assert j > k ==> Before(pel[k].0, pel[j].0);
      }
      if e in pel && e.0 != id {
        var i :| 0 <= i < |pel| && pel[i] == e;
        assert r[if i < k then i else i - 1] == e;
      }
    }
  }

  lemma AmongStep(pel: seq<(Id, Pending)>, left: seq<(Id, Pending)>, ids: seq<Id>)
    requires ids != [] && forall e :: e in left <==> e in pel && e.0 != ids[0]
    ensures |PendingAmong(pel, ids)| == |PendingAmong(left, ids[1..])| + if PendingId(pel, ids[0]) then 1 else 0
  {
    var a, b, id := PendingAmong(pel, ids), PendingAmong(left, ids[1..]), ids[0];
    forall x
      ensures PendingId(left, x) <==> PendingId(pel, x) && x != id
    {
      if i :| 0 <= i < |left| && left[i].0 == x {
        assert left[i] in pel;
      }
      if i :| 0 <= i < |pel| && pel[i].0 == x && x != id {
        assert pel[i] in left;
      }
    }
    assert forall x :: x in ids <==> x == id || x in ids[1..];
    assert id !in b;
    assert a == if PendingId(pel, id) then b + {id} else b;
  }
}
