/**
 How many entries a trim removes (src/core/stream.rs), as arithmetic on the number of live entries
 and the number in excess. Entries are grouped in nodes of 100, and only whole nodes go approximately.
 */
module StreamTrim {
  import opened Bits
  import opened StreamNodeSpec
  import opened StreamState

  const NODE_SIZE: nat := 100

  /** The length of the longest prefix of IDs before `min`. */
  function CountBefore(ids: seq<Id>, min: Id): (n: nat)
    ensures n <= |ids| && (forall i :: 0 <= i < n ==> Before(ids[i], min)) && (n < |ids| ==> !Before(ids[n], min))
  {
    if ids == [] || !Before(ids[0], min) then 0 else
    var n := CountBefore(ids[1..], min);
    assert forall i :: 0 < i < n + 1 ==> ids[i] == ids[1..][i - 1];
    n + 1
  }

  predicate OneBound(maxlen: Option<nat>, minid: Option<Id>) { maxlen.Some? != minid.Some? }

  /** The number of entries in excess of a single bound: they are the oldest ones. */
  function InExcess(ids: seq<Id>, maxlen: Option<nat>, minid: Option<Id>): (c: nat)
    requires OneBound(maxlen, minid)
    ensures c <= |ids|
  {
    if maxlen.Some? then (if |ids| > maxlen.value then |ids| - maxlen.value else 0) else CountBefore(ids, minid.value)
  }

  function AtMostLimit(n: nat, limit: Option<nat>): nat { if limit.Some? && limit.value < n then limit.value else n }

  predicate Within(n: nat, limit: Option<nat>) { limit.Some? ==> n <= limit.value }

  /** The end of the node in which the first `c` of `len` entries end. */
  function NodeEnd(c: nat, len: nat): nat { if c % NODE_SIZE == 0 then c else Min(len, NODE_SIZE * (c / NODE_SIZE) + NODE_SIZE) }

  /** The first `c` of `len` entries, rounded down to whole nodes, within the limit. */
  function WholeNodes(c: nat, len: nat, limit: Option<nat>): nat {
    if c == len && Within(len, limit) then len else NODE_SIZE * (AtMostLimit(c, limit) / NODE_SIZE)
  }

  /**
   What is removed of `len` entries of which the first `c` are in excess. An exact trim takes all of
   them, unless the node it would end in passes the limit.
   */
  function Amount(len: nat, c: nat, approx: bool, limit: Option<nat>): nat {
    if !approx && Within(NodeEnd(c, len), limit) then c else WholeNodes(c, len, limit)
  }

  // ---- where the walk over the nodes stops ----

  lemma Aligned(r: nat, x: nat)
    requires r % NODE_SIZE == 0 && r <= x < r + NODE_SIZE
    ensures NODE_SIZE * (x / NODE_SIZE) == r
  {
  }

  /** Nothing in excess is left at the start of a node. */
  lemma StopsClean(len: nat, r: nat, approx: bool, limit: Option<nat>)
    requires r < len && r % NODE_SIZE == 0 && Within(r, limit)
    ensures Amount(len, r, approx, limit) == r
  {
    Aligned(r, r);
  }

  /** The next node would pass the limit. */
  lemma StopsAtLimit(len: nat, c: nat, r: nat, approx: bool, limit: Option<nat>)
    requires r < len && r <= c <= len && r % NODE_SIZE == 0 && Within(r, limit) && !Within(Min(len, r + NODE_SIZE), limit)
    ensures Amount(len, c, approx, limit) == r
  {
    Aligned(r, AtMostLimit(c, limit));
    if c == r {
      StopsClean(len, r, approx, limit);
    } else if c < r + NODE_SIZE {
      Aligned(r, c);
    }
  }

  /** The next node is not in excess as a whole. */
  lemma StopsInside(len: nat, c: nat, r: nat, approx: bool, limit: Option<nat>)
    requires r <= c < Min(len, r + NODE_SIZE) && r % NODE_SIZE == 0 && Within(Min(len, r + NODE_SIZE), limit)
    ensures Amount(len, c, approx, limit) == if approx then r else c
  {
    Aligned(r, c);
  }

  lemma StopsAtEnd(len: nat, approx: bool, limit: Option<nat>)
    requires Within(len, limit)
    ensures Amount(len, len, approx, limit) == len
  {
    hide Min;
  }

  // ---- what is in excess ----

  /** With the ones before it gone, the live entry at `j` is one too many, or before the least ID to keep. */
  predicate Excess(all: seq<Id>, j: nat, maxlen: Option<nat>, minid: Option<Id>)
    requires j < |all|
  {
    (maxlen.Some? && |all| - j > maxlen.value) || (minid.Some? && Before(all[j], minid.value))
  }

  /** Whether the tail of the list from `k` on would be removed as one node of `n` entries. */
  predicate WholeNode(length: nat, n: nat, lastId: Id, maxlen: Option<nat>, minid: Option<Id>)
    requires n <= length
  {
    if maxlen.Some? && minid.None? then length - n >= maxlen.value
    else if maxlen.None? && minid.Some? then Before(lastId, minid.value) else false
  }

  lemma WholeNodeExcess(all: seq<Id>, removed: nat, n: nat, maxlen: Option<nat>, minid: Option<Id>)
    requires Sorted(all) && 0 < n && removed + n <= |all|
    requires WholeNode(|all| - removed, n, all[removed + n - 1], maxlen, minid)
    ensures forall j :: removed <= j < removed + n ==> Excess(all, j, maxlen, minid)
  {
    forall j | removed <= j < removed + n
      ensures Excess(all, j, maxlen, minid)
    {
      if minid.Some? {
        assert j < removed + n - 1 ==> Before(all[j], all[removed + n - 1]);
      }
    }
  }

  /** With one bound only, a node that is not removed whole has an entry to keep. */
  lemma PartNodeStops(all: seq<Id>, removed: nat, n: nat, maxlen: Option<nat>, minid: Option<Id>)
    requires 0 < n && removed + n <= |all| && (maxlen.None? || minid.None?)
    requires !WholeNode(|all| - removed, n, all[removed + n - 1], maxlen, minid)
    ensures !Excess(all, removed + n - 1, maxlen, minid)
  {
  }

  /** The entries in excess of one bound are the first `InExcess` ones, and a node goes whole if it ends among them. */
  lemma ExcessCount(all: seq<Id>, maxlen: Option<nat>, minid: Option<Id>, j: nat)
    requires Sorted(all) && OneBound(maxlen, minid) && j < |all|
    ensures Excess(all, j, maxlen, minid) <==> j < InExcess(all, maxlen, minid)
  {
    if minid.Some? {
      hide Before;
      var c := CountBefore(all, minid.value);
      if c < j {
        NotBeforeLater(all, c, j, minid.value);
      }
    }
  }

  lemma NotBeforeLater(all: seq<Id>, i: nat, j: nat, min: Id)
    requires Sorted(all) && i < j < |all| && !Before(all[i], min)
    ensures !Before(all[j], min)
  {
    assert Before(all[i], all[j]);
  }

  lemma WholeCount(all: seq<Id>, removed: nat, n: nat, maxlen: Option<nat>, minid: Option<Id>)
    requires Sorted(all) && OneBound(maxlen, minid) && 0 < n && removed + n <= |all|
    ensures WholeNode(|all| - removed, n, all[removed + n - 1], maxlen, minid) <==> removed + n <= InExcess(all, maxlen, minid)
  {
    ExcessCount(all, maxlen, minid, removed + n - 1);
  }

  /** A prefix of entries in excess, with one that is not behind it, is all that is in excess. */
  lemma CountReached(all: seq<Id>, maxlen: Option<nat>, minid: Option<Id>, r: nat)
    requires Sorted(all) && OneBound(maxlen, minid) && r <= |all|
    requires forall j :: 0 <= j < r ==> Excess(all, j, maxlen, minid)
    ensures r <= InExcess(all, maxlen, minid)
    ensures r < |all| && !Excess(all, r, maxlen, minid) ==> r == InExcess(all, maxlen, minid)
  {
    hide Excess, InExcess;
    if r > 0 {
      ExcessCount(all, maxlen, minid, r - 1);
    }
    if r < |all| {
      ExcessCount(all, maxlen, minid, r);
    }
  }

  /** The walk over the nodes may have removed `r` entries so far: whole nodes, in excess and within the limit. */
  ghost predicate Walked(all: seq<Id>, r: nat, maxlen: Option<nat>, minid: Option<Id>, limit: Option<nat>) {
    && r <= |all| && Within(r, limit)
    && (forall j :: 0 <= j < r ==> Excess(all, j, maxlen, minid))
    && (!OneBound(maxlen, minid) ==> r == 0)
  }

  /** A trim may remove `r` entries in the end. With both bounds, an exact trim looks at the first node only. */
  ghost predicate Stopped(all: seq<Id>, r: nat, maxlen: Option<nat>, minid: Option<Id>, approx: bool, limit: Option<nat>) {
    && r <= |all| && Within(r, limit)
    && (forall j :: 0 <= j < r ==> Excess(all, j, maxlen, minid))
    && (OneBound(maxlen, minid) ==> r == Amount(|all|, InExcess(all, maxlen, minid), approx, limit))
    && (!OneBound(maxlen, minid) ==> r <= FirstNode(all, maxlen, approx, limit))
    && (!OneBound(maxlen, minid) && r < FirstNode(all, maxlen, approx, limit) ==> !Excess(all, r, maxlen, minid))
  }

  /** How many entries a trim with two bounds (or none) looks at. */
  function FirstNode(all: seq<Id>, maxlen: Option<nat>, approx: bool, limit: Option<nat>): (n: nat)
    ensures n <= |all|
  {
    var n := Min(|all|, NODE_SIZE);
    if approx || (maxlen.Some? && |all| <= maxlen.value) || !Within(n, limit) then 0 else n
  }

  /** The walk stops at the start of a node of `n` entries, goes on past it, or stops inside it. */
  lemma NodeOutcome(all: seq<Id>, r: nat, n: nat, maxlen: Option<nat>, minid: Option<Id>, approx: bool, limit: Option<nat>)
    requires Sorted(all) && r < |all| && r % NODE_SIZE == 0 && n > 0 && r + n == Min(|all|, r + NODE_SIZE)
    requires Walked(all, r, maxlen, minid, limit)
    ensures (maxlen.Some? && |all| - r <= maxlen.value) || (limit.Some? && r + n > limit.value) ==>
              Stopped(all, r, maxlen, minid, approx, limit)
    ensures !(maxlen.Some? && |all| - r <= maxlen.value) && !(limit.Some? && r + n > limit.value) ==>
              if WholeNode(|all| - r, n, all[r + n - 1], maxlen, minid) then Walked(all, r + n, maxlen, minid, limit)
              else approx ==> Stopped(all, r, maxlen, minid, approx, limit)
  {
    hide Amount, InExcess, Excess, WholeNode, Sorted;
    if !OneBound(maxlen, minid) {
      NotWhole(|all| - r, n, all[r + n - 1], maxlen, minid);
      return;
    }
    var c := InExcess(all, maxlen, minid);
    CountReached(all, maxlen, minid, r);
    WholeCount(all, r, n, maxlen, minid);
    if maxlen.Some? && |all| - r <= maxlen.value {
      NotOver(all, r, maxlen, minid);
      StopsClean(|all|, r, approx, limit);
    } else if limit.Some? && r + n > limit.value {
      StopsAtLimit(|all|, c, r, approx, limit);
    } else if c < r + n {
      StopsInside(|all|, c, r, approx, limit);
    } else {
      WholeNodeExcess(all, r, n, maxlen, minid);
    }
  }

  /** An exact trim ends inside a node it looks at: `q` entries in excess, and the next one is not, or it is the end of the node. */
  lemma PartOutcome(all: seq<Id>, r: nat, n: nat, q: nat, maxlen: Option<nat>, minid: Option<Id>, limit: Option<nat>)
    requires Sorted(all) && r < |all| && r % NODE_SIZE == 0 && n > 0 && r + n == Min(|all|, r + NODE_SIZE)
    requires Walked(all, r, maxlen, minid, limit) && !(maxlen.Some? && |all| - r <= maxlen.value) && Within(r + n, limit)
    requires !WholeNode(|all| - r, n, all[r + n - 1], maxlen, minid) && r <= q <= r + n
    requires forall j :: 0 <= j < q ==> Excess(all, j, maxlen, minid)
    requires q < r + n ==> !Excess(all, q, maxlen, minid)
    ensures Stopped(all, q, maxlen, minid, false, limit)
  {
    hide Amount, InExcess, Excess, WholeNode, Sorted;
    if OneBound(maxlen, minid) {
      PartNodeStops(all, r, n, maxlen, minid);
      CountReached(all, maxlen, minid, q);
      StopsInside(|all|, InExcess(all, maxlen, minid), r, false, limit);
    }
  }

  lemma WalkEnds(all: seq<Id>, maxlen: Option<nat>, minid: Option<Id>, approx: bool, limit: Option<nat>)
    requires Sorted(all) && Walked(all, |all|, maxlen, minid, limit)
    ensures Stopped(all, |all|, maxlen, minid, approx, limit)
  {
    hide Amount, InExcess, Excess, Sorted;
    if OneBound(maxlen, minid) {
      CountReached(all, maxlen, minid, |all|);
      StopsAtEnd(|all|, approx, limit);
    }
  }

  /** `r` entries make up whole nodes: the last node may be shorter. */
  predicate NodeBoundary(r: nat, len: nat) { r <= len && (r % 100 == 0 || r == len) }

  /** An approximate trim may remove the first `r` entries: all in excess, in whole nodes, within the limit. */
  ghost predicate MayGo(all: seq<Id>, r: nat, maxlen: Option<nat>, minid: Option<Id>, limit: Option<nat>) {
    && NodeBoundary(r, |all|) && (limit.Some? ==> r <= limit.value)
    && (r > 0 ==> (maxlen.Some? ==> |all| - r >= maxlen.value) && (minid.Some? ==> Before(all[r - 1], minid.value)))
  }

  ghost predicate IsLargest(all: seq<Id>, r: nat, maxlen: Option<nat>, minid: Option<Id>, limit: Option<nat>) {
    MayGo(all, r, maxlen, minid, limit) && forall q :: r < q <= |all| ==> !MayGo(all, q, maxlen, minid, limit)
  }

  lemma MayGoCount(all: seq<Id>, r: nat, maxlen: Option<nat>, minid: Option<Id>, limit: Option<nat>)
    requires Sorted(all) && OneBound(maxlen, minid) && r <= |all|
    ensures MayGo(all, r, maxlen, minid, limit) <==>
            NodeBoundary(r, |all|) && Within(r, limit) && r <= InExcess(all, maxlen, minid)
  {
    if r > 0 {
      ExcessCount(all, maxlen, minid, r - 1);
    }
  }

  /** An approximate trim removes the longest prefix that may go. */
  lemma ApproxLargest(all: seq<Id>, r: nat, maxlen: Option<nat>, minid: Option<Id>, limit: Option<nat>)
    requires Sorted(all) && OneBound(maxlen, minid) && Stopped(all, r, maxlen, minid, true, limit)
    ensures IsLargest(all, r, maxlen, minid, limit)
  {
    hide InExcess, Excess, Sorted, MayGo;
    var c := InExcess(all, maxlen, minid);
    assert r == WholeNodes(c, |all|, limit);
    WholeNodesLargest(c, |all|, limit, r);
    MayGoCount(all, r, maxlen, minid, limit);
    forall q | r < q <= |all|
      ensures !MayGo(all, q, maxlen, minid, limit)
    {
      MayGoCount(all, q, maxlen, minid, limit);
      WholeNodesLargest(c, |all|, limit, q);
    }
  }

  lemma WholeNodesLargest(c: nat, len: nat, limit: Option<nat>, q: nat)
    requires c <= len
    ensures var r := WholeNodes(c, len, limit);
            && NodeBoundary(r, len) && Within(r, limit) && r <= c
            && (NodeBoundary(q, len) && Within(q, limit) && q <= c ==> q <= r)
  {
  }

  lemma ApproxLength(all: seq<Id>, r: nat, m: nat)
    requires Stopped(all, r, Some(m), None, true, None)
    ensures r == if m == 0 then |all| else if |all| <= m then 0 else 100 * ((|all| - m) / 100)
  {
    hide Excess;
  }

  /** An exact trim by one bound and without a limit leaves nothing in excess. */
  lemma ExactStops(all: seq<Id>, r: nat, maxlen: Option<nat>, minid: Option<Id>)
    requires Sorted(all) && OneBound(maxlen, minid) && Stopped(all, r, maxlen, minid, false, None) && r < |all|
    ensures !Excess(all, r, maxlen, minid)
  {
    ExcessCount(all, maxlen, minid, r);
  }

  lemma ExcessShift(all: seq<Id>, removed: nat, k: nat, maxlen: Option<nat>, minid: Option<Id>)
    requires removed + k < |all|
    ensures Excess(all[removed..], k, maxlen, minid) == Excess(all, removed + k, maxlen, minid)
  {
  }

  /** Stopping where nothing is in excess leaves exactly the newest `maxlen` entries, or all if there are fewer. */
  lemma ExactLength(all: seq<Id>, removed: nat, m: nat)
    requires removed <= |all| && forall j :: 0 <= j < removed ==> Excess(all, j, Some(m), None)
    requires removed < |all| ==> !Excess(all, removed, Some(m), None)
    ensures |all[removed..]| == if |all| < m then |all| else m
  {
    if removed > 0 {
      assert Excess(all, removed - 1, Some(m), None);
    }
  }

  /** And for a least ID: exactly the entries from it on. */
  lemma ExactMinId(all: seq<Id>, removed: nat, min: Id, i: nat)
    requires Sorted(all) && removed <= |all| && i < |all| && forall j :: 0 <= j < removed ==> Excess(all, j, None, Some(min))
    requires removed < |all| ==> !Excess(all, removed, None, Some(min))
    ensures i >= removed <==> !Before(all[i], min)
  {
    if i < removed {
      assert Excess(all, i, None, Some(min));
    } else if i > removed {
      assert Before(all[removed], all[i]);
    }
  }

  lemma NotWhole(length: nat, n: nat, lastId: Id, maxlen: Option<nat>, minid: Option<Id>)
    requires n <= length && !OneBound(maxlen, minid)
    ensures !WholeNode(length, n, lastId, maxlen, minid)
  {
  }

  lemma NotOver(all: seq<Id>, removed: nat, maxlen: Option<nat>, minid: Option<Id>)
    requires removed < |all| && maxlen.Some? && |all| - removed <= maxlen.value
    ensures minid.None? ==> !Excess(all, removed, maxlen, minid)
  {
  }

  lemma NothingWalked(all: seq<Id>, maxlen: Option<nat>, minid: Option<Id>, limit: Option<nat>)
    ensures Walked(all, 0, maxlen, minid, limit)
  {
  }
}
