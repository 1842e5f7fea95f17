/**
 The state of a stream (src/core/stream.rs): entries in ID order, some of them tombstones, and
 consumer groups with their pending lists. The ordered map is a list of strictly ascending keys.
 */
module StreamState {
  import opened Bits
  import opened StreamNodeSpec
  import opened StreamDumpSpec

  // ---- ordered maps ----

  predicate Before(a: Id, b: Id) { a.ms < b.ms || (a.ms == b.ms && a.sq < b.sq) }

  predicate AtMost(a: Id, b: Id) { !Before(b, a) }

  predicate Ascending<V>(s: seq<(Id, V)>) { forall i, j :: 0 <= i < j < |s| ==> Before(s[i].0, s[j].0) }

  /** Number of keys before `id`. */
  function Rank<V>(s: seq<(Id, V)>, id: Id): (k: nat)
    ensures k <= |s|
  {
    if s == [] || !Before(s[0].0, id) then 0 else 1 + Rank(s[1..], id)
  }

  predicate Has<V>(s: seq<(Id, V)>, id: Id) { Rank(s, id) < |s| && s[Rank(s, id)].0 == id }

  function Get<V>(s: seq<(Id, V)>, id: Id): V
    requires Has(s, id)
  {
    s[Rank(s, id)].1
  }

  function Put<V>(s: seq<(Id, V)>, id: Id, v: V): seq<(Id, V)> {
    var k := Rank(s, id);
    if Has(s, id) then s[k := (id, v)] else s[..k] + [(id, v)] + s[k..]
  }

  function Remove<V>(s: seq<(Id, V)>, id: Id): seq<(Id, V)> {
    var k := Rank(s, id);
    if Has(s, id) then s[..k] + s[k + 1..] else s
  }

  lemma {:induction false} RankAt<V>(s: seq<(Id, V)>, id: Id)
    requires Ascending(s)
    ensures forall i :: 0 <= i < |s| ==> (Before(s[i].0, id) <==> i < Rank(s, id))
    decreases |s|
  {
    if s != [] {
      RankAt(s[1..], id);
      forall i | 0 <= i < |s|
        ensures Before(s[i].0, id) <==> i < Rank(s, id)
      {
        if i > 0 {
          assert Before(s[0].0, s[i].0);
          assert s[i] == s[1..][i - 1];
        }
      }
    }
  }

  lemma HasAt<V>(s: seq<(Id, V)>, i: nat)
    requires Ascending(s) && i < |s|
    ensures Rank(s, s[i].0) == i && Has(s, s[i].0)
  {
    RankAt(s, s[i].0);
    var k := Rank(s, s[i].0);
    assert k <= i && (k < |s| ==> !Before(s[k].0, s[i].0));
  }

  lemma HasIff<V>(s: seq<(Id, V)>, id: Id)
    requires Ascending(s)
    ensures Has(s, id) <==> exists i :: 0 <= i < |s| && s[i].0 == id
  {
    if i :| 0 <= i < |s| && s[i].0 == id {
      HasAt(s, i);
    }
  }

  lemma PutAscending<V>(s: seq<(Id, V)>, id: Id, v: V)
    requires Ascending(s)
    ensures Ascending(Put(s, id, v))
  {
    RankAt(s, id);
    var k, r := Rank(s, id), Put(s, id, v);
    if !Has(s, id) {
      forall i, j | 0 <= i < j < |r|
        ensures Before(r[i].0, r[j].0)
      {
        assert r[i] == if i < k then s[i] else if i == k then (id, v) else s[i - 1];
        assert r[j] == if j < k then s[j] else if j == k then (id, v) else s[j - 1];
        if i == k {
          assert !Before(s[j - 1].0, id);
          assert s[j - 1].0 != id by {
            HasIff(s, id);
          }
        }
      }
    }
  }

  lemma RemoveAscending<V>(s: seq<(Id, V)>, id: Id)
    requires Ascending(s)
    ensures Ascending(Remove(s, id))
  {
    var k, r := Rank(s, id), Remove(s, id);
    if Has(s, id) {
      forall i, j | 0 <= i < j < |r|
        ensures Before(r[i].0, r[j].0)
      {
        assert r[i] == s[if i < k then i else i + 1] && r[j] == s[if j < k then j else j + 1];
      }
    }
  }

  // ---- live entries ----

  type Entries = seq<(Id, Item)>

  /** The IDs of the entries that are not tombstones, oldest first. */
  function LiveIds(es: Entries): (ids: seq<Id>)
    ensures |ids| <= |es|
  {
    if es == [] then [] else (if es[0].1.deleted then [] else [es[0].0]) + LiveIds(es[1..])
  }

  lemma {:induction false} LiveConcat(a: Entries, b: Entries)
    ensures LiveIds(a + b) == LiveIds(a) + LiveIds(b)
    decreases |a|
  {
    hide LiveIds;
    if a == [] {
      assert a + b == b;
      NoLive(a);
      assert [] + LiveIds(b) == LiveIds(b);
    } else {
      var ab := a + b;
      assert ab[0] == a[0] && ab[1..] == a[1..] + b;
      LiveConcat(a[1..], b);
      LiveFirst(a);
      LiveFirst(ab);
      var m, x, y := Alive(a[0]), LiveIds(a[1..]), LiveIds(b);
      assert m + (x + y) == m + x + y;
    }
  }

  lemma {:induction false} LiveIn(es: Entries, id: Id)
    ensures id in LiveIds(es) <==> exists i :: 0 <= i < |es| && es[i].0 == id && !es[i].1.deleted
  {
    if es != [] {
      LiveIn(es[1..], id);
      if i :| 0 <= i < |es| && es[i].0 == id && !es[i].1.deleted {
        if i > 0 {
          assert es[i] == es[1..][i - 1];
        }
      }
      if id in LiveIds(es[1..]) {
        var i :| 0 <= i < |es[1..]| && es[1..][i].0 == id && !es[1..][i].1.deleted;
        assert es[i + 1] == es[1..][i];
      }
    }
  }

  predicate Sorted(ids: seq<Id>) { forall i, j :: 0 <= i < j < |ids| ==> Before(ids[i], ids[j]) }

  lemma {:induction false} LiveSorted(es: Entries)
    requires Ascending(es)
    ensures Sorted(LiveIds(es))
  {
    if es != [] {
      var rest := LiveIds(es[1..]);
      LiveSorted(es[1..]);
      forall j | 0 <= j < |rest|
        ensures Before(es[0].0, rest[j])
      {
        LiveIn(es[1..], rest[j]);
        var i :| 0 <= i < |es[1..]| && es[1..][i].0 == rest[j];
        assert es[i + 1].0 == rest[j];
      }
    }
  }

  function Alive(e: (Id, Item)): seq<Id> { if e.1.deleted then [] else [e.0] }

  /** `es` around position `k`. */
  lemma LiveAround(es: Entries, k: nat)
    requires k < |es|
    ensures LiveIds(es) == LiveIds(es[..k]) + (Alive(es[k]) + LiveIds(es[k + 1..]))
  {
    assert es == es[..k] + es[k..];
    LiveConcat(es[..k], es[k..]);
    LiveFirst(es[k..]);
    hide LiveIds;
    assert es[k..][1..] == es[k + 1..];
  }

  lemma LiveFirst(es: Entries)
    requires es != []
    ensures LiveIds(es) == Alive(es[0]) + LiveIds(es[1..])
  {
  }

  /** Tombstone the entry `id`. */
  function Kill(es: Entries, id: Id): Entries {
    if Has(es, id) then Put(es, id, Get(es, id).(deleted := true)) else es
  }

  function Without(ids: seq<Id>, id: Id): seq<Id> {
    if ids == [] then [] else (if ids[0] == id then [] else [ids[0]]) + Without(ids[1..], id)
  }

  lemma {:induction false} WithoutConcat(a: seq<Id>, b: seq<Id>, id: Id)
    ensures Without(a + b, id) == Without(a, id) + Without(b, id)
    decreases |a|
  {
    if a == [] {
      assert a + b == b;
    } else {
      assert (a + b)[1..] == a[1..] + b;
      WithoutConcat(a[1..], b, id);
    }
  }

  lemma {:induction false} WithoutAbsent(ids: seq<Id>, id: Id)
    requires id !in ids
    ensures Without(ids, id) == ids
  {
    if ids != [] {
      WithoutAbsent(ids[1..], id);
      assert ids == [ids[0]] + ids[1..];
    }
  }

  /** Tombstoning takes exactly that ID out of the live ones. */
  lemma KillLive(es: Entries, id: Id)
    requires Ascending(es)
    ensures Ascending(Kill(es, id)) && LiveIds(Kill(es, id)) == Without(LiveIds(es), id)
    ensures Has(es, id) && !Get(es, id).deleted ==> id in LiveIds(es) && |LiveIds(Kill(es, id))| == |LiveIds(es)| - 1
    ensures !(Has(es, id) && !Get(es, id).deleted) ==> id !in LiveIds(es) && LiveIds(Kill(es, id)) == LiveIds(es)
  {
    var k := Rank(es, id);
    HasIff(es, id);
    LiveIn(es, id);
    if Has(es, id) {
      var was := Get(es, id);
      PutAscending(es, id, was.(deleted := true));
      var r := Kill(es, id);
      hide Rank, LiveIds;
      Alone(es, k);
      LiveAround(es, k);
      LiveAround(r, k);
      assert r[..k] == es[..k] && r[k + 1..] == es[k + 1..];
      var a, b, x := LiveIds(es[..k]), LiveIds(es[k + 1..]), Alive(es[k]);
      WithoutConcat(a, x + b, id);
      WithoutConcat(x, b, id);
      WithoutAbsent(a, id);
      WithoutAbsent(b, id);
      assert Without(x, id) == [];
      assert [] + b == b;
    } else {
      WithoutAbsent(LiveIds(es), id);
    }
  }

  /** A key occurs once. */
  lemma Alone(es: Entries, k: nat)
    requires Ascending(es) && k < |es|
    ensures es[k].0 !in LiveIds(es[..k]) && es[k].0 !in LiveIds(es[k + 1..])
    ensures !es[k].1.deleted ==> es[k].0 in LiveIds(es)
    ensures es[k].1.deleted ==> es[k].0 !in LiveIds(es)
  {
    var id := es[k].0;
    LiveIn(es[..k], id);
    LiveIn(es[k + 1..], id);
    LiveIn(es, id);
    var before, after := es[..k], es[k + 1..];
    forall i | 0 <= i < |before|
      ensures before[i].0 != id
    {
      assert Before(es[i].0, es[k].0);
    }
    forall i | 0 <= i < |after|
      ensures after[i].0 != id
    {
      assert after[i] == es[k + 1 + i] && Before(es[k].0, es[k + 1 + i].0);
    }
    HasAt(es, k);
    forall i | 0 <= i < |es| && es[i].0 == id
      ensures i == k
    {
      HasAt(es, i);
    }
  }

  /** Appending beyond every live ID adds one live ID at the end, even over an old tombstone. */
  lemma {:induction false} AppendLive(es: Entries, id: Id, item: Item)
    requires Ascending(es) && !item.deleted
    requires forall i :: 0 <= i < |es| && !es[i].1.deleted ==> Before(es[i].0, id)
    ensures LiveIds(Put(es, id, item)) == LiveIds(es) + [id]
  {
    var k, r := Rank(es, id), Put(es, id, item);
    RankAt(es, id);
    TailDead(es, id, k);
    hide LiveIds, Rank;
    assert es == es[..k] + es[k..];
    LiveConcat(es[..k], es[k..]);
    assert LiveIds(es) == LiveIds(es[..k]) + [] == LiveIds(es[..k]);
    LiveAround(r, k);
    assert r[..k] == es[..k] && r[k] == (id, item);
    assert r[k + 1..] == es[if Has(es, id) then k + 1 else k..];
    assert [id] + [] == [id];
  }

  lemma TailDead(es: Entries, id: Id, k: nat)
    requires k <= |es| && forall i :: 0 <= i < |es| ==> (Before(es[i].0, id) <==> i < k)
    requires forall i :: 0 <= i < |es| && !es[i].1.deleted ==> Before(es[i].0, id)
    ensures LiveIds(es[k..]) == []
    ensures k < |es| ==> LiveIds(es[k + 1..]) == []
  {
    forall i | k <= i < |es|
      ensures es[i].1.deleted
    {
      assert !Before(es[i].0, id);
    }
    NoLive(es[k..]);
    if k < |es| {
      NoLive(es[k + 1..]);
    }
  }

  lemma {:induction false} NoLive(es: Entries)
    requires forall i :: 0 <= i < |es| ==> es[i].1.deleted
    ensures LiveIds(es) == []
  {
    if es != [] { NoLive(es[1..]); }
  }

  // ---- consumer groups ----

  /** A consumer group; the read counter behind the lag estimate is not part of this state. */
  datatype Cg = Cg(lastDelivered: Id, pel: seq<(Id, Pending)>, consumers: map<Bytes, Consumer>)

  /** Pending IDs were delivered, every one has a known owner, and each consumer counts the ones it owns. */
  predicate CgOk(g: Cg) {
    && Ascending(g.pel)
    && (forall i :: 0 <= i < |g.pel| ==> AtMost(g.pel[i].0, g.lastDelivered) && g.pel[i].1.consumer in g.consumers)
    && (forall n :: n in g.consumers ==> g.consumers[n].pending == |Owned(g.pel, n)|)
  }

  lemma {:induction false} OwnedConcat(a: seq<(Id, Pending)>, b: seq<(Id, Pending)>, name: Bytes)
    ensures Owned(a + b, name) == Owned(a, name) + Owned(b, name)
    decreases |a|
  {
    hide Owned;
    if a == [] {
      assert a + b == b;
      OwnedNone(a, name);
      assert [] + Owned(b, name) == Owned(b, name);
    } else {
      var ab := a + b;
      assert ab[0] == a[0] && ab[1..] == a[1..] + b;
      OwnedConcat(a[1..], b, name);
      OwnedFirst(a, name);
      OwnedFirst(ab, name);
      var m, x, y := Mine(a[0], name), Owned(a[1..], name), Owned(b, name);
      assert m + (x + y) == m + x + y;
    }
  }

  function Mine(p: (Id, Pending), name: Bytes): seq<Id> { if p.1.consumer == name then [p.0] else [] }

  lemma OwnedAround(pel: seq<(Id, Pending)>, k: nat, name: Bytes)
    requires k < |pel|
    ensures Owned(pel, name) == Owned(pel[..k], name) + (Mine(pel[k], name) + Owned(pel[k + 1..], name))
  {
    assert pel == pel[..k] + pel[k..];
    OwnedConcat(pel[..k], pel[k..], name);
    OwnedFirst(pel[k..], name);
    hide Owned;
    assert pel[k..][1..] == pel[k + 1..];
  }

  lemma OwnedFirst(pel: seq<(Id, Pending)>, name: Bytes)
    requires pel != []
    ensures Owned(pel, name) == Mine(pel[0], name) + Owned(pel[1..], name)
  {
  }

  lemma {:induction false} OwnedNone(pel: seq<(Id, Pending)>, name: Bytes)
    requires forall i :: 0 <= i < |pel| ==> pel[i].1.consumer != name
    ensures Owned(pel, name) == []
  {
    if pel != [] { OwnedNone(pel[1..], name); }
  }

  /** The consumer is known and was seen now. */
  function Touch(g: Cg, name: Bytes, now: nat): Cg {
    var c := if name in g.consumers then g.consumers[name].(seen := now) else Consumer(now, -1, 0);
    g.(consumers := g.consumers[name := c])
  }

  lemma TouchOk(g: Cg, name: Bytes, now: nat)
    requires CgOk(g)
    ensures CgOk(Touch(g, name, now))
  {
    hide Owned;
    if name !in g.consumers {
      OwnedNone(g.pel, name);
    }
  }

  /** Entry `id` goes to consumer `name`. */
  function Deliver(g: Cg, name: Bytes, id: Id, now: nat): Cg
    requires name in g.consumers
  {
    var c := g.consumers[name];
    Cg(id, Put(g.pel, id, Pending(name, now, 1)),
       g.consumers[name := Consumer(now, now, c.pending + 1)])
  }

  lemma {:induction false} PutLast<V>(s: seq<(Id, V)>, id: Id, v: V)
    requires Ascending(s) && forall i :: 0 <= i < |s| ==> Before(s[i].0, id)
    ensures Put(s, id, v) == s + [(id, v)]
  {
    RankAt(s, id);
    if s != [] {
      assert Before(s[|s| - 1].0, id);
    }
    assert Rank(s, id) == |s|;
  }

  lemma DeliverOk(g: Cg, name: Bytes, id: Id, now: nat)
    requires CgOk(g) && name in g.consumers && Before(g.lastDelivered, id)
    ensures CgOk(Deliver(g, name, id, now))
    ensures Deliver(g, name, id, now).pel == g.pel + [(id, Pending(name, now, 1))]
  {
    var p := (id, Pending(name, now, 1));
    forall i | 0 <= i < |g.pel|
      ensures Before(g.pel[i].0, id)
    {
      assert AtMost(g.pel[i].0, g.lastDelivered);
    }
    PutLast(g.pel, id, p.1);
    PutAscending(g.pel, id, p.1);
    var d := Deliver(g, name, id, now);
    forall n | n in d.consumers
      ensures d.consumers[n].pending == |Owned(d.pel, n)|
    {
      OwnedConcat(g.pel, [p], n);
      assert [p][1..] == [];
    }
  }

  /** `id` is acknowledged: it leaves the pending list and its owner's count. */
  function Acked(g: Cg, id: Id): Cg {
    if !Has(g.pel, id) then g else
    var owner := Get(g.pel, id).consumer;
    var cs := if owner in g.consumers
      then g.consumers[owner := g.consumers[owner].(pending := Less1(g.consumers[owner].pending))] else g.consumers;
    g.(pel := Remove(g.pel, id), consumers := cs)
  }

  /** Saturating decrement. */
  function Less1(n: nat): nat { if n == 0 then 0 else n - 1 }

  /** What acknowledging a pending entry changes. */
  lemma AckedParts(g: Cg, id: Id)
    requires CgOk(g) && Has(g.pel, id)
    ensures var k, d := Rank(g.pel, id), Acked(g, id);
            && k < |g.pel| && d.pel == g.pel[..k] + g.pel[k + 1..] && Ascending(d.pel) && d.lastDelivered == g.lastDelivered
            && var owner := g.pel[k].1.consumer;
            && owner in g.consumers
            && d.consumers == g.consumers[owner := g.consumers[owner].(pending := Less1(g.consumers[owner].pending))]
  {
    RemoveAscending(g.pel, id);
    hide Owned, Ascending;
  }

  lemma AckedCounts(g: Cg, d: Cg, k: nat, n: Bytes)
    requires k < |g.pel| && d.pel == g.pel[..k] + g.pel[k + 1..] && g.pel[k].1.consumer in g.consumers && n in g.consumers
    requires g.consumers[n].pending == |Owned(g.pel, n)|
    requires var owner := g.pel[k].1.consumer;
             d.consumers == g.consumers[owner := g.consumers[owner].(pending := Less1(g.consumers[owner].pending))]
    ensures d.consumers[n].pending == |Owned(d.pel, n)|
  {
    hide Owned;
    OwnedAround(g.pel, k, n);
    OwnedConcat(g.pel[..k], g.pel[k + 1..], n);
  }

  lemma AckedOk(g: Cg, id: Id)
    requires CgOk(g)
    ensures CgOk(Acked(g, id))
  {
    if Has(g.pel, id) {
      var k, d := Rank(g.pel, id), Acked(g, id);
      AckedParts(g, id);
      hide Rank, Owned, Acked, Has, Less1, Ascending;
      forall n | n in d.consumers
        ensures d.consumers[n].pending == |Owned(d.pel, n)|
      {
        AckedCounts(g, d, k, n);
      }
      forall i | 0 <= i < |d.pel|
        ensures AtMost(d.pel[i].0, d.lastDelivered) && d.pel[i].1.consumer in d.consumers
      {
        assert d.pel[i] == g.pel[if i < k then i else i + 1];
      }
    }
  }

  /** A redelivery: same owner, one more delivery, now. */
  function Redelivered(g: Cg, id: Id, now: nat): Cg {
    if !Has(g.pel, id) then g else
    var p := Get(g.pel, id);
    g.(pel := Put(g.pel, id, p.(count := p.count + 1, time := now)))
  }

  lemma RedeliveredOk(g: Cg, id: Id, now: nat)
    requires CgOk(g)
    ensures CgOk(Redelivered(g, id, now))
  {
    if Has(g.pel, id) {
      var k, p := Rank(g.pel, id), Get(g.pel, id);
      var d := Redelivered(g, id, now);
      PutAscending(g.pel, id, p.(count := p.count + 1, time := now));
      hide Rank, Owned;
      forall n | n in d.consumers
        ensures d.consumers[n].pending == |Owned(d.pel, n)|
      {
        OwnedAround(g.pel, k, n);
        OwnedAround(d.pel, k, n);
        assert d.pel[..k] == g.pel[..k] && d.pel[k + 1..] == g.pel[k + 1..];
      }
      forall i | 0 <= i < |d.pel|
        ensures AtMost(d.pel[i].0, d.lastDelivered) && d.pel[i].1.consumer in d.consumers
      {
        assert d.pel[i].0 == g.pel[i].0 && d.pel[i].1.consumer == g.pel[i].1.consumer;
      }
    }
  }
}
