/**
 The sorted set of src/core/zset.rs: a skip list in an arena, with an index from member to score.
 The random level is any number from 1 to MAX_LEVEL.
 */
module ZSetModel {
  import opened Bits
  import opened ZSetSpec
  import opened ZSetProof
  import opened ZSetOrder

  // ---- single link writes ----

  function SetNext(nodes: seq<Node>, x: nat, i: nat, v: Option<nat>): seq<Node>
    requires x < |nodes| && i < Height(nodes, x)
  {
    nodes[x := nodes[x].(next := nodes[x].next[i := v])]
  }

  function SetBackward(nodes: seq<Node>, x: nat, v: Option<nat>): seq<Node>
    requires x < |nodes|
  {
    nodes[x := nodes[x].(backward := v)]
  }

  predicate SameBackward(nodes: seq<Node>, nodes': seq<Node>) {
    |nodes| <= |nodes'| && forall x :: 0 <= x < |nodes| ==> nodes'[x].backward == nodes[x].backward
  }

  lemma SpliceStep(was: seq<Node>, nodes: seq<Node>, p: nat, n: nat, i: nat)
    requires SameShape(was, nodes) && SameBackward(was, nodes) && n == |was| && |nodes| == n + 1
    requires p < n && i < Height(was, p) && i < Height(nodes, n) && SameLevel(was, nodes, i, {})
    ensures var nodes' := SetNext(SetNext(nodes, p, i, Some(n)), n, i, nodes[p].next[i]);
            && SameShape(nodes, nodes') && SameShape(was, nodes') && SameBackward(nodes, nodes')
            && SplicedAt(was, nodes', p, n, i)
            && (forall m :: 0 <= m && m != i ==> SameLevel(nodes, nodes', m, {}))
  {
  }

  lemma SplicedStays(was: seq<Node>, nodes: seq<Node>, nodes': seq<Node>, p: nat, n: nat, i: nat)
    requires n == |was| && |nodes| == |nodes'| == n + 1 && SplicedAt(was, nodes, p, n, i) && SameLevel(nodes, nodes', i, {})
    ensures SplicedAt(was, nodes', p, n, i)
  {
  }

  lemma SameLevelTrans(was: seq<Node>, nodes: seq<Node>, nodes': seq<Node>, i: nat)
    requires |was| <= |nodes| <= |nodes'| && SameLevel(was, nodes, i, {}) && SameLevel(nodes, nodes', i, {})
    ensures SameLevel(was, nodes', i, {})
  {
  }

  lemma SplicedOnward(was: seq<Node>, here: seq<Node>, nodes: seq<Node>, update: seq<nat>, n: nat, i: nat)
    requires n == |was| && |here| == |nodes| == n + 1 && i < |update| && SplicedAt(was, nodes, update[i], n, i)
    requires forall m :: 0 <= m < i ==> SplicedAt(was, here, update[m], n, m)
    requires forall m :: m >= i ==> SameLevel(was, here, m, {})
    requires forall m :: 0 <= m && m != i ==> SameLevel(here, nodes, m, {})
    ensures forall m :: 0 <= m < i + 1 ==> SplicedAt(was, nodes, update[m], n, m)
    ensures forall m :: m >= i + 1 ==> SameLevel(was, nodes, m, {})
  {
    hide SplicedAt, SameLevel;
    forall m | 0 <= m < i
      ensures SplicedAt(was, nodes, update[m], n, m)
    {
      SplicedStays(was, here, nodes, update[m], n, m);
    }
    forall m | m >= i + 1
      ensures SameLevel(was, nodes, m, {})
    {
      SameLevelTrans(was, here, nodes, m);
    }
  }

  lemma BypassStep(was: seq<Node>, nodes: seq<Node>, p: nat, n: nat, i: nat)
    requires SameShape(was, nodes) && SameBackward(was, nodes) && |nodes| == |was| && n < |was|
    requires p < |was| && i < Height(was, p) && SameLevel(was, nodes, i, {})
    requires was[p].next[i] == Some(n) ==> i < Height(was, n)
    ensures var nodes' := if nodes[p].next[i] == Some(n) then SetNext(nodes, p, i, nodes[n].next[i]) else nodes;
            && SameShape(nodes, nodes') && SameShape(was, nodes') && SameBackward(nodes, nodes') && |nodes'| == |was|
            && BypassedAt(was, nodes', p, n, i)
            && (forall m :: 0 <= m && m != i ==> SameLevel(nodes, nodes', m, {}))
  {
  }

  lemma BypassedStays(was: seq<Node>, nodes: seq<Node>, nodes': seq<Node>, p: nat, n: nat, i: nat)
    requires |was| == |nodes| == |nodes'| && n < |was| && BypassedAt(was, nodes, p, n, i) && SameLevel(nodes, nodes', i, {})
    ensures BypassedAt(was, nodes', p, n, i)
  {
  }

  // ---- the backward chain ----

  lemma PredBottom(nodes: seq<Node>, c: seq<nat>, level: nat, k: nat)
    requires Chained(nodes, c, level) && k <= |c|
    ensures Pred(nodes, c, k, 0) == At(c, k)
    ensures Tall(nodes, c, 0) == c
    ensures At(c, k) < |nodes| && 0 < Height(nodes, At(c, k)) && nodes[At(c, k)].next[0] == Head(c[k..])
  {
    hide Less;
    assert InArena(nodes, c[..k]);
    TallBottom(nodes, c[..k]);
    TallBottom(nodes, c);
    assert LinkAt(nodes, c, 0, k);
  }

  lemma PutBackLinked(nodes: seq<Node>, nodes': seq<Node>, c: seq<nat>, k: nat, n: nat)
    requires InArena(nodes, c) && BackLinked(nodes, c) && Distinct(c) && k <= |c|
    requires n == |nodes| > 0 && |nodes'| == n + 1
    requires nodes'[n].backward == if k == 0 then None else Some(c[k - 1])
    requires forall x :: 0 <= x < n && (k == |c| || x != c[k]) ==> nodes'[x].backward == nodes[x].backward
    requires k < |c| ==> nodes'[c[k]].backward == Some(n)
    ensures InArena(nodes', Put(c, k, n)) && BackLinked(nodes', Put(c, k, n))
  {
    var d := Put(c, k, n);
    assert InArena(nodes', d) by {
      assert forall j :: 0 <= j < |d| ==> d[j] == if j < k then c[j] else if j == k then n else c[j - 1];
    }
    forall j | 0 <= j < |d|
      ensures BackAt(nodes', d, j)
    {
      if j < k {
        assert BackAt(nodes, c, j);
        assert d[j] == c[j] && (j > 0 ==> d[j - 1] == c[j - 1]) && (k < |c| ==> c[j] != c[k]);
      } else if j > k + 1 {
        assert BackAt(nodes, c, j - 1);
        assert d[j] == c[j - 1] && d[j - 1] == c[j - 2] && c[j - 1] != c[k];
      } else if j == k + 1 {
        assert d[j] == c[k] && d[j - 1] == n;
      }
    }
  }

  lemma CutoutBackLinked(nodes: seq<Node>, nodes': seq<Node>, c: seq<nat>, k: nat)
    requires InArena(nodes, c) && BackLinked(nodes, c) && Distinct(c) && k < |c| && |nodes'| == |nodes|
    requires forall x :: 0 <= x < |nodes| && (k + 1 == |c| || x != c[k + 1]) ==> nodes'[x].backward == nodes[x].backward
    requires k + 1 < |c| ==> nodes'[c[k + 1]].backward == nodes[c[k]].backward
    ensures InArena(nodes', Cutout(c, k)) && BackLinked(nodes', Cutout(c, k))
  {
    var d := Cutout(c, k);
    assert InArena(nodes', d);
    forall j | 0 <= j < |d|
      ensures BackAt(nodes', d, j)
    {
      if j < k {
        assert BackAt(nodes, c, j);
        assert d[j] == c[j] && (j > 0 ==> d[j - 1] == c[j - 1]) && (k + 1 < |c| ==> c[j] != c[k + 1]);
      } else if j > k {
        assert BackAt(nodes, c, j + 1);
        assert d[j] == c[j + 1] && d[j - 1] == c[j] && c[j + 1] != c[k + 1];
      } else {
        assert BackAt(nodes, c, k);
        assert d[k] == c[k + 1] && (k > 0 ==> d[k - 1] == c[k - 1]);
      }
    }
  }

  // ---- the index ----

  lemma PutIndexed(ks: seq<Key>, index: map<Member, Score>, key: Key, k: nat)
    requires Indexed(ks, index) && key.member !in index && k <= |ks|
    ensures Indexed(ks[..k] + [key] + ks[k..], index[key.member := key.score])
    ensures key !in ks
  {
    var ls := ks[..k] + [key] + ks[k..];
    assert forall x :: x in ls <==> x == key || x in ks by {
      assert ks == ks[..k] + ks[k..];
    }
    assert key == Key(key.score, key.member);
  }

  lemma CutoutIndexed(ks: seq<Key>, index: map<Member, Score>, k: nat)
    requires Sorted(ks) && Indexed(ks, index) && k < |ks|
    ensures Indexed(ks[..k] + ks[k + 1..], index - {ks[k].member})
  {
    hide Less, Sorted;
    CutoutIn(ks, k);
    var ls, m := ks[..k] + ks[k + 1..], ks[k].member;
    assert ks[k] in ks;
    OneLess(index, m);
    forall x | x in ls
      ensures x.member in index - {m} && (index - {m})[x.member] == x.score
    {
      assert x in ks && x == Key(x.score, x.member) && ks[k] == Key(ks[k].score, ks[k].member);
    }
    forall n | n in index - {m}
      ensures Key((index - {m})[n], n) in ls
    {
      assert Key(index[n], n) in ks;
    }
  }

  lemma OneLess(index: map<Member, Score>, m: Member)
    requires m in index
    ensures |index - {m}| == |index| - 1
  {
    assert (index - {m}).Keys == index.Keys - {m};
  }

  lemma CutoutIn(ks: seq<Key>, k: nat)
    requires Sorted(ks) && k < |ks|
    ensures var ls := ks[..k] + ks[k + 1..]; forall x :: x in ls <==> x in ks && x != ks[k]
  {
    SortedDistinct(ks);
    hide Less, Sorted;
    var ls := ks[..k] + ks[k + 1..];
    forall x
      ensures x in ls <==> x in ks && x != ks[k]
    {
      if x in ls {
        var i :| 0 <= i < |ls| && ls[i] == x;
        assert ks[if i < k then i else i + 1] == x;
      }
      if x in ks && x != ks[k] {
        var i :| 0 <= i < |ks| && ks[i] == x;
        assert ls[if i < k then i else i - 1] == x;
      }
    }
  }

  /** The entry at the cut is the key itself when the set holds it. */
  lemma CutFinds(nodes: seq<Node>, c: seq<nat>, key: Key, k: nat)
    requires InArena(nodes, c) && Sorted(KeysOf(nodes, c)) && IsCut(nodes, c, key, k) && key in KeysOf(nodes, c)
    ensures k < |c| && KeysOf(nodes, c)[k] == key
  {
    var ks := KeysOf(nodes, c);
    var j :| 0 <= j < |ks| && ks[j] == key;
    LessTotal(key, key);
    hide Less;
    assert j >= k && !Less(nodes[c[k]].key, key);
    assert ks[k] == nodes[c[k]].key;
  }

  // ---- reading the level-0 list ----

  function Reversed(s: seq<Key>): (r: seq<Key>)
    ensures |r| == |s|
    ensures forall j :: 0 <= j < |s| ==> r[j] == s[|s| - 1 - j]
  {
    if s == [] then [] else [s[|s| - 1]] + Reversed(s[..|s| - 1])
  }

  class ZSet {
    var nodes: seq<Node>
    var level: nat
    var len: nat
    var index: map<Member, Score>
    ghost var chain: seq<nat>

    ghost predicate Valid()
      reads this
    {
      && Chained(nodes, chain, level)
      && BackLinked(nodes, chain)
      && Indexed(KeysOf(nodes, chain), index)
      && len == |chain|
    }

    /** The entries in ascending order. `IndexDetermines`: a function of the index alone. */
    ghost function Entries(): (s: seq<Key>)
      reads this
      requires Valid()
      ensures Sorted(s) && Indexed(s, index) && |s| == len
    {
      KeysOf(nodes, chain)
    }

    constructor ()
      ensures Valid() && index == map[] && Entries() == []
    {
      nodes := [Node(Key(0, []), seq(MAX_LEVEL, _ => None), None)];
      level := 1;
      len := 0;
      index := map[];
      chain := [];
    }

    /** The predecessor of `key` on every level, walking down from the top (`insert` and `delete` share this). */
    method Search(key: Key) returns (update: seq<nat>, ghost k: nat)
      requires Valid()
      ensures k <= |chain| && IsCut(nodes, chain, key, k) && |update| == level
      ensures forall i :: 0 <= i < level ==> update[i] == Pred(nodes, chain, k, i)
    {
      hide Less, Linked, Tall, LinkAt;
      k := Cut(nodes, chain, key);
      update := seq(level, _ => 0);
      var x: nat := 0;
      var i := level;
      while i > 0
        invariant 0 <= i <= level && |update| == level
        invariant forall m :: i <= m < level ==> update[m] == Pred(nodes, chain, k, m)
        invariant x == 0 || (x in chain[..k] && x < |nodes| && Height(nodes, x) >= i)
      {
        i := i - 1;
        x := WalkLevel(key, x, i, k);
        update := update[i := x];
      }
    }

    method WalkLevel(key: Key, start: nat, i: nat, ghost k: nat) returns (x: nat)
      requires Valid() && k <= |chain| && IsCut(nodes, chain, key, k) && i < level
      requires start == 0 || (start in chain[..k] && start < |nodes| && Height(nodes, start) > i)
      ensures x == Pred(nodes, chain, k, i)
    {
      hide Less, Linked, Tall, LinkAt, IsCut, Sorted;
      x := start;
      ghost var t := Tall(nodes, chain, i);
      ghost var j := Descend(nodes, chain, k, i, x);
      ghost var stop := |Tall(nodes, chain[..k], i)|;
      WalkStep(nodes, chain, level, key, k, i, j);
      while nodes[x].next[i].Some? && Less(nodes[nodes[x].next[i].value].key, key)
        invariant j <= stop <= |t| && x == At(t, j) && x < |nodes| && i < Height(nodes, x)
        invariant nodes[x].next[i] == Head(t[j..])
        invariant j < |t| ==> (Less(nodes[t[j]].key, key) <==> j < stop)
        invariant j == stop ==> x == Pred(nodes, chain, k, i)
        decreases stop - j
      {
        x := nodes[x].next[i].value;
        j := j + 1;
        WalkStep(nodes, chain, level, key, k, i, j);
      }
    }

    /** The header grows by one empty link per level gained. */
    method Raise(l: nat)
      requires Valid() && l <= MAX_LEVEL
      modifies this`nodes, this`level
      ensures Valid() && level == (if l > old(level) then l else old(level))
      ensures Entries() == old(Entries())
    {
      hide Chained, BackLinked, Indexed, KeysOf, Sorted;
      if l > level {
        Header(nodes, chain, level);
        ghost var was := nodes;
        nodes := nodes[0 := nodes[0].(next := nodes[0].next + seq(l - level, _ => None))];
        RaiseChained(was, chain, level, nodes, l);
        level := l;
      }
    }

    method Insert(member: Member, score: Score, l: nat) returns (r: Option<Score>)
      requires Valid() && 1 <= l <= MAX_LEVEL
      modifies this
      ensures Valid()
      ensures if member in old(index) && ScoreEq(old(index)[member], score)
              then r == Some(old(index)[member]) && index == old(index) && Entries() == old(Entries())
              else r == None && index == old(index)[member := score]
    {
      hide Less, Linked, Tall, Chained, BackLinked, Indexed, KeysOf, Sorted, IsCut, Pred;
      if member in index {
        var was := index[member];
        if ScoreEq(was, score) {
          return Some(was);
        }
        var _ := Delete(member);
      }
      assert index[member := score] == old(index)[member := score];
      Raise(l);
      var key := Key(score, member);
      var update, k := Search(key);
      Link(key, l, update, k);
      r := None;
    }

    method Link(key: Key, l: nat, update: seq<nat>, ghost k: nat)
      requires Valid() && 1 <= l <= level && k <= |chain| && IsCut(nodes, chain, key, k) && key.member !in index
      requires |update| == level && forall i :: 0 <= i < level ==> update[i] == Pred(nodes, chain, k, i)
      modifies this
      ensures Valid() && index == old(index)[key.member := key.score]
    {
      hide Chained, BackLinked, Indexed, KeysOf, Less, Pred, SplicedAt, SameLevel, IsCut, At, Tall;
      ghost var was := nodes;
      PredBottom(nodes, chain, level, k);
      var n := |nodes|;
      nodes := nodes + [Node(key, seq(l, _ => None), if update[0] == 0 then None else Some(update[0]))];
      Splice(update, l, n, k, was);
      ghost var spliced := nodes;
      SplicedNext(was, nodes, update[0], n, 0);
      if nodes[n].next[0].Some? {
        HeadIn(was, chain, k);
        nodes := SetBackward(nodes, nodes[n].next[0].value, Some(n));
      }
      Linking(was, spliced, nodes, chain, level, k, l, key, index);
      chain := Put(chain, k, n);
      len := len + 1;
      index := index[key.member := key.score];
    }

    method Splice(update: seq<nat>, l: nat, n: nat, ghost k: nat, ghost was: seq<Node>)
      requires Chained(was, chain, level) && k <= |chain| && n == |was| && |nodes| == n + 1
      requires nodes[..n] == was && |nodes[n].next| == l && 1 <= l <= level
      requires |update| == level && forall i :: 0 <= i < level ==> update[i] == Pred(was, chain, k, i)
      modifies this`nodes
      ensures |nodes| == n + 1 && SameShape(was, nodes) && SameBackward(was, nodes)
      ensures nodes[n].key == old(nodes[n].key) && nodes[n].backward == old(nodes[n].backward) && Height(nodes, n) == l
      ensures forall m :: 0 <= m < l ==> SplicedAt(was, nodes, update[m], n, m)
      ensures forall m :: m >= l ==> SameLevel(was, nodes, m, {})
    {
      hide Less, Linked, Tall, SplicedAt, Pred;
      ghost var start := nodes;
      assert forall x :: 0 <= x < n ==> nodes[x] == was[x] by {
        assert forall x :: 0 <= x < n ==> nodes[..n][x] == nodes[x];
      }
      for i := 0 to l
        invariant |nodes| == n + 1 && SameShape(was, nodes) && SameBackward(was, nodes)
        invariant nodes[n].key == start[n].key && nodes[n].backward == start[n].backward && Height(nodes, n) == l
        invariant forall m :: 0 <= m < i ==> SplicedAt(was, nodes, update[m], n, m)
        invariant forall m :: m >= i ==> SameLevel(was, nodes, m, {})
      {
        hide SameLevel;
        ghost var here := nodes;
        var p := update[i];
        PredHeight(was, chain, level, k, i);
        assert SameLevel(was, nodes, i, {});
        SpliceStep(was, nodes, p, n, i);
        nodes := SetNext(SetNext(nodes, p, i, Some(n)), n, i, nodes[p].next[i]);
        SplicedOnward(was, here, nodes, update, n, i);
      }
    }

    method Delete(member: Member) returns (r: bool)
      requires Valid()
      modifies this
      ensures Valid() && r == (member in old(index)) && index == old(index) - {member}
      ensures !r ==> Entries() == old(Entries())
    {
      hide Less, Linked, Tall, IsCut, Pred;
      if member !in index {
        assert index - {member} == index;
        return false;
      }
      var key := Key(index[member], member);
      var update, k := Search(key);
      CutFinds(nodes, chain, key, k);
      PredBottom(nodes, chain, level, k);
      assert nodes[update[0]].next[0] == Some(chain[k]);
      var target := nodes[update[0]].next[0];
      r := target.Some? && nodes[target.value].key.member == member;
      Unlink(member, update, target.value, k);
      Lower();
    }

    method Unlink(member: Member, update: seq<nat>, target: nat, ghost k: nat)
      requires Valid() && k < |chain| && chain[k] == target && KeysOf(nodes, chain)[k].member == member
      requires |update| == level && forall i :: 0 <= i < level ==> update[i] == Pred(nodes, chain, k, i)
      modifies this
      ensures Valid() && index == old(index) - {member}
    {
      hide Chained, BackLinked, Indexed, KeysOf, Less, Pred, BypassedAt, SameLevel, Tall;
      ghost var was := nodes;
      assert level >= 1 by { PredHeight(nodes, chain, level, k, 0); }
      PredBottom(nodes, chain, level, k + 1);
      Bypass(update, target, k);
      ghost var bypassed := nodes;
      BypassKeepsTarget(was, nodes, chain, level, k);
      if nodes[target].next[0].Some? {
        HeadIn(was, chain, k + 1);
        nodes := SetBackward(nodes, nodes[target].next[0].value, nodes[target].backward);
      }
      Unlinking(was, bypassed, nodes, chain, level, k, index);
      chain := Cutout(chain, k);
      index := index - {member};
      len := len - 1;
    }

    method Bypass(update: seq<nat>, target: nat, ghost k: nat)
      requires Chained(nodes, chain, level) && k < |chain| && chain[k] == target
      requires |update| == level && forall i :: 0 <= i < level ==> update[i] == Pred(nodes, chain, k, i)
      modifies this`nodes
      ensures |nodes| == |old(nodes)| && SameShape(old(nodes), nodes) && SameBackward(old(nodes), nodes)
      ensures forall m :: 0 <= m < level ==> BypassedAt(old(nodes), nodes, update[m], target, m)
      ensures forall m :: m >= level ==> SameLevel(old(nodes), nodes, m, {})
    {
      hide Less, Linked, Tall, BypassedAt, Pred;
      ghost var was := nodes;
      for i := 0 to level
        invariant |nodes| == |was| && SameShape(was, nodes) && SameBackward(was, nodes)
        invariant forall m :: 0 <= m < i ==> BypassedAt(was, nodes, update[m], target, m)
        invariant forall m :: m >= i ==> SameLevel(was, nodes, m, {})
      {
        ghost var here := nodes;
        var p := update[i];
        PredLink(was, chain, level, k, i);
        assert SameLevel(was, nodes, i, {});
        BypassStep(was, nodes, p, target, i);
        if nodes[p].next[i] == Some(target) {
          nodes := SetNext(nodes, p, i, nodes[target].next[i]);
        }
        hide SameLevel;
        forall m | 0 <= m < i
          ensures BypassedAt(was, nodes, update[m], target, m)
        {
          BypassedStays(was, here, nodes, update[m], target, m);
        }
        forall m | m >= i + 1
          ensures SameLevel(was, nodes, m, {})
        {
          SameLevelTrans(was, here, nodes, m);
        }
      }
    }

    /** Empty top levels are dropped. */
    method Lower()
      requires Valid()
      modifies this`nodes, this`level
      ensures Valid() && Entries() == old(Entries())
    {
      hide Chained, BackLinked, Indexed, KeysOf, Sorted;
      Header(nodes, chain, level);
      while level > 1 && nodes[0].next[level - 1].None?
        invariant |nodes| > 0 && |nodes[0].next| == MAX_LEVEL - 1 + level && InArena(nodes, chain)
        invariant Chained(nodes, chain, level) && BackLinked(nodes, chain) && KeysOf(nodes, chain) == old(KeysOf(nodes, chain))
        decreases level
      {
        ghost var was := nodes;
        nodes := nodes[0 := nodes[0].(next := nodes[0].next[..|nodes[0].next| - 1])];
        LowerChained(was, chain, level, nodes);
        level := level - 1;
      }
    }

    // ---- reading ----

    /** All entries, following level 0 from the header. */
    method Iterate() returns (out: seq<Key>)
      requires Valid()
      ensures out == Entries() && |out| == |index|
      ensures forall k: Key :: k in out <==> k.member in index && index[k.member] == k.score
      ensures forall i, j :: 0 <= i < j < |out| ==>
                out[i].score <= out[j].score && (out[i].score == out[j].score ==> BytesBefore(out[i].member, out[j].member))
    {
      hide Chained, BackLinked, Indexed, Sorted, Tall, Pred, BytesBefore;
      SortedInOrder(Entries());
      InIndex(Entries(), index);
      out := [];
      PredBottom(nodes, chain, level, 0);
      var cur := nodes[0].next[0];
      while cur.Some?
        invariant |out| <= |chain| && out == KeysOf(nodes, chain)[..|out|] && cur == Head(chain[|out|..])
        decreases |chain| - |out|
      {
        PredBottom(nodes, chain, level, |out| + 1);
        out := out + [nodes[cur.value].key];
        cur := nodes[cur.value].next[0];
      }
    }

    /** All entries backwards: to the end of each level in turn, then along the backward links. */
    method RevIterate() returns (out: seq<Key>)
      requires Valid()
      ensures out == Reversed(Entries())
      ensures forall i, j :: 0 <= i < j < |out| ==>
                out[i].score >= out[j].score && (out[i].score == out[j].score ==> BytesBefore(out[j].member, out[i].member))
    {
      hide Chained, Indexed, Sorted, Tall, Pred, KeysOf, BytesBefore;
      SortedInOrder(Entries());
      Header(nodes, chain, level);
      var cur := None;
      if len > 0 {
        var x := Last();
        cur := Some(x);
      }
      out := [];
      ghost var s := Entries();
      while cur.Some?
        invariant |out| <= |chain|
        invariant forall m :: 0 <= m < |out| ==> out[m] == s[|s| - 1 - m]
        invariant cur == if |out| == |chain| then None else Some(chain[|chain| - 1 - |out|])
        decreases |chain| - |out|
      {
        ghost var j := |chain| - 1 - |out|;
        assert BackAt(nodes, chain, j);
        KeyAt(nodes, chain, j);
        out := out + [nodes[cur.value].key];
        cur := nodes[cur.value].backward;
      }
      assert out == Reversed(s);
    }

    method Last() returns (x: nat)
      requires Valid() && len > 0
      ensures x == chain[|chain| - 1]
    {
      hide Chained, BackLinked, Indexed, Sorted, Tall, Pred, KeysOf;
      x := 0;
      Header(nodes, chain, level);
      PredBottom(nodes, chain, level, |chain|);
      PredHeight(nodes, chain, level, |chain|, 0);
      var i := level;
      while i > 0
        invariant 0 <= i <= level
        invariant x == 0 || (x in chain[..|chain|] && x < |nodes| && Height(nodes, x) >= i)
        invariant i < level ==> x == Pred(nodes, chain, |chain|, i)
      {
        i := i - 1;
        ghost var t := Tall(nodes, chain, i);
        assert chain[..|chain|] == chain;
        ghost var j := Descend(nodes, chain, |chain|, i, x);
        EndStep(nodes, chain, level, i, j);
        while nodes[x].next[i].Some?
          invariant j <= |t| && x == At(t, j) && x < |nodes| && i < Height(nodes, x) && nodes[x].next[i] == Head(t[j..])
          invariant j == |t| ==> x == Pred(nodes, chain, |chain|, i)
          decreases |t| - j
        {
          x := nodes[x].next[i].value;
          j := j + 1;
          EndStep(nodes, chain, level, i, j);
        }
      }
    }

    /** Position of `member`, found by walking level 0. */
    method Rank(member: Member) returns (r: Option<nat>)
      requires Valid()
      ensures r.Some? <==> member in index
      ensures r.Some? ==> r.value < len && Entries()[r.value] == Key(index[member], member)
      ensures r.Some? ==> r.value == |Earlier(index, Key(index[member], member))|
    {
      hide Chained, BackLinked, Sorted, Tall, Pred, Earlier;
      if member !in index {
        return None;
      }
      ghost var s := Entries();
      assert Key(index[member], member) in s;
      var rank := 0;
      PredBottom(nodes, chain, level, 0);
      var cur := nodes[0].next[0];
      while cur.Some?
        invariant rank <= |chain| && cur == Head(chain[rank..])
        invariant forall j :: 0 <= j < rank ==> s[j].member != member
        decreases |chain| - rank
      {
        PredBottom(nodes, chain, level, rank + 1);
        assert s[rank] == nodes[cur.value].key && s[rank] in s;
        if nodes[cur.value].key.member == member {
          RankCounts(s, index, rank);
          return Some(rank);
        }
        rank := rank + 1;
        cur := nodes[cur.value].next[0];
      }
      r := None;
    }

    method ByRank(rank: nat) returns (r: Option<Key>)
      requires Valid()
      ensures r == if rank < len then Some(Entries()[rank]) else None
      ensures r.None? <==> rank >= |index|
      ensures r.Some? ==> r.value.member in index && index[r.value.member] == r.value.score && |Earlier(index, r.value)| == rank
    {
      hide Chained, BackLinked, Indexed, Sorted, Tall, Pred, Earlier;
      InIndex(Entries(), index);
      if rank >= len {
        return None;
      }
      var i := 0;
      PredBottom(nodes, chain, level, 0);
      var cur := nodes[0].next[0];
      while cur.Some?
        invariant i <= rank && cur == Head(chain[i..])
        decreases |chain| - i
      {
        PredBottom(nodes, chain, level, i + 1);
        if i == rank {
          RankCounts(Entries(), index, rank);
          assert Entries()[rank] in Entries();
          return Some(nodes[cur.value].key);
        }
        i := i + 1;
        cur := nodes[cur.value].next[0];
      }
      r := None;
    }

    method PopMin() returns (r: Option<Key>)
      requires Valid()
      modifies this
      ensures Valid()
      ensures old(len) == 0 ==> r == None && index == old(index)
      ensures old(len) > 0 ==> r == Some(old(Entries())[0]) && Entries() == old(Entries())[1..]
      ensures r.Some? <==> old(index) != map[]
      ensures r.Some? ==> r.value.member in old(index) && old(index)[r.value.member] == r.value.score
      ensures r.Some? ==> index == old(index) - {r.value.member}
      ensures r.Some? ==> forall m :: m in index ==>
                r.value.score <= index[m] && (r.value.score == index[m] ==> BytesBefore(r.value.member, m))
    {
      hide Chained, BackLinked, KeysOf, Sorted, Indexed, BytesBefore;
      InIndex(Entries(), index);
      if len == 0 {
        return None;
      }
      ghost var s, was := Entries(), index;
      forall m | m in index && m != s[0].member
        ensures ComesBefore(s[0], Key(index[m], m))
      {
        Ends(s, index, m);
      }
      r := ByRank(0);
      var _ := Delete(r.value.member);
      Popped(s, was, 0, Entries());
      assert s[..0] + s[1..] == s[1..];
    }

    method PopMax() returns (r: Option<Key>)
      requires Valid()
      modifies this
      ensures Valid()
      ensures old(len) == 0 ==> r == None && index == old(index)
      ensures old(len) > 0 ==> r == Some(old(Entries())[old(len) - 1]) && Entries() == old(Entries())[..old(len) - 1]
      ensures r.Some? <==> old(index) != map[]
      ensures r.Some? ==> r.value.member in old(index) && old(index)[r.value.member] == r.value.score
      ensures r.Some? ==> index == old(index) - {r.value.member}
      ensures r.Some? ==> forall m :: m in index ==>
                r.value.score >= index[m] && (r.value.score == index[m] ==> BytesBefore(m, r.value.member))
    {
      hide Chained, BackLinked, KeysOf, Sorted, Indexed, BytesBefore;
      InIndex(Entries(), index);
      if len == 0 {
        return None;
      }
      ghost var s, was := Entries(), index;
      forall m | m in index && m != s[|s| - 1].member
        ensures ComesBefore(Key(index[m], m), s[|s| - 1])
      {
        Ends(s, index, m);
      }
      r := ByRank(len - 1);
      var _ := Delete(r.value.member);
      Popped(s, was, |s| - 1, Entries());
      assert s[..|s| - 1] + s[|s|..] == s[..|s| - 1];
    }
  }

  // ---- helper facts for the two relinking methods ----

  lemma Header(nodes: seq<Node>, c: seq<nat>, level: nat)
    requires Chained(nodes, c, level)
    ensures |nodes| > 0 && |nodes[0].next| == MAX_LEVEL - 1 + level && InArena(nodes, c)
  {
  }

  lemma HeadIn(nodes: seq<Node>, c: seq<nat>, k: nat)
    requires InArena(nodes, c) && k <= |c| && Head(c[k..]).Some?
    ensures k < |c| && Head(c[k..]) == Some(c[k]) && c[k] < |nodes|
  {
  }

  /** What `Link` leaves behind, from what it wrote. */
  lemma Linking(was: seq<Node>, spliced: seq<Node>, nodes: seq<Node>, c: seq<nat>, level: nat, k: nat, l: nat, key: Key,
                index: map<Member, Score>)
    requires Chained(was, c, level) && BackLinked(was, c) && Indexed(KeysOf(was, c), index)
    requires key.member !in index && k <= |c| && IsCut(was, c, key, k) && 1 <= l <= level
    requires |spliced| == |was| + 1 && SameShape(was, spliced) && SameBackward(was, spliced)
    requires spliced[|was|].key == key && Height(spliced, |was|) == l
    requires spliced[|was|].backward == if At(c, k) == 0 then None else Some(At(c, k))
    requires forall m :: 0 <= m < l ==> SplicedAt(was, spliced, Pred(was, c, k, m), |was|, m)
    requires forall m :: m >= l ==> SameLevel(was, spliced, m, {})
    requires nodes == if k < |c| then SetBackward(spliced, c[k], Some(|was|)) else spliced
    ensures var d := Put(c, k, |was|);
            Chained(nodes, d, level) && BackLinked(nodes, d) && Indexed(KeysOf(nodes, d), index[key.member := key.score])
  {
    hide Less, Pred, SplicedAt, SameLevel, IsCut, Tall, Linked, Sorted, Indexed;
    var n := |was|;
    PutIndexed(KeysOf(was, c), index, key, k);
    BackwardOnly(was, spliced, nodes, c, k, n, l);
    PutSorted(was, nodes, c, k, n);
    assert BackLinked(nodes, Put(c, k, n)) by { PutBackLinked(was, nodes, c, k, n); }
    hide BackLinked;
    PutChained(was, nodes, c, level, k, n);
  }

  /** What `Unlink` leaves behind, from what it wrote. */
  lemma Unlinking(was: seq<Node>, bypassed: seq<Node>, nodes: seq<Node>, c: seq<nat>, level: nat, k: nat,
                  index: map<Member, Score>)
    requires Chained(was, c, level) && BackLinked(was, c) && Indexed(KeysOf(was, c), index) && k < |c|
    requires |bypassed| == |was| && SameShape(was, bypassed) && SameBackward(was, bypassed)
    requires forall m :: 0 <= m < level ==> BypassedAt(was, bypassed, Pred(was, c, k, m), c[k], m)
    requires forall m :: m >= level ==> SameLevel(was, bypassed, m, {})
    requires nodes == if k + 1 < |c| then SetBackward(bypassed, c[k + 1], bypassed[c[k]].backward) else bypassed
    ensures var d := Cutout(c, k);
            Chained(nodes, d, level) && BackLinked(nodes, d) && Indexed(KeysOf(nodes, d), index - {KeysOf(was, c)[k].member})
  {
    hide Less, Pred, BypassedAt, SameLevel, Tall, Linked, Sorted, Indexed;
    BackwardOnlyOut(was, bypassed, nodes, c, k, level);
    CutoutSorted(was, nodes, c, k);
    CutoutIndexed(KeysOf(was, c), index, k);
    assert BackLinked(nodes, Cutout(c, k)) by { CutoutBackLinked(was, nodes, c, k); }
    hide BackLinked;
    CutoutChained(was, nodes, c, level, k);
  }

  lemma PredHeight(nodes: seq<Node>, c: seq<nat>, level: nat, k: nat, i: nat)
    requires Chained(nodes, c, level) && k <= |c|
    ensures level >= 1
    ensures i < level ==> var p := Pred(nodes, c, k, i); p < |nodes| && i < Height(nodes, p)
  {
  }

  lemma SplicedNext(was: seq<Node>, nodes: seq<Node>, p: nat, n: nat, i: nat)
    requires n < |nodes| && SplicedAt(was, nodes, p, n, i)
    ensures p < |was| && i < Height(was, p) && i < Height(nodes, n) && nodes[n].next[i] == was[p].next[i]
  {
  }

  /** The backward write changes no key and no forward link. */
  lemma BackwardOnly(was: seq<Node>, spliced: seq<Node>, nodes: seq<Node>, c: seq<nat>, k: nat, n: nat, l: nat)
    requires InArena(was, c) && k <= |c| && n == |was| && |spliced| == |nodes| == n + 1 && SameShape(was, spliced)
    requires forall x :: 0 <= x < |spliced| ==> nodes[x].key == spliced[x].key && nodes[x].next == spliced[x].next
    requires forall m :: 0 <= m < l ==> SplicedAt(was, spliced, Pred(was, c, k, m), n, m)
    requires forall m :: m >= l ==> SameLevel(was, spliced, m, {})
    ensures SameShape(was, nodes)
    ensures forall m :: 0 <= m < l ==> SplicedAt(was, nodes, Pred(was, c, k, m), n, m)
    ensures forall m :: m >= l ==> SameLevel(was, nodes, m, {})
  {
    hide Pred, Less;
    forall m | 0 <= m < l
      ensures SplicedAt(was, nodes, Pred(was, c, k, m), n, m)
    {
      SplicedStays(was, spliced, nodes, Pred(was, c, k, m), n, m);
    }
    forall m | m >= l
      ensures SameLevel(was, nodes, m, {})
    {
      SameLevelTrans(was, spliced, nodes, m);
    }
  }

  lemma BypassKeepsTarget(was: seq<Node>, nodes: seq<Node>, c: seq<nat>, level: nat, k: nat)
    requires Chained(was, c, level) && k < |c| && |nodes| == |was| && SameShape(was, nodes)
    requires BypassedAt(was, nodes, Pred(was, c, k, 0), c[k], 0)
    ensures 0 < Height(nodes, c[k]) && nodes[c[k]].next[0] == was[c[k]].next[0]
  {
    PredBottom(was, c, level, k);
    assert k > 0 ==> c[k - 1] != c[k];
  }

  lemma BackwardOnlyOut(was: seq<Node>, bypassed: seq<Node>, nodes: seq<Node>, c: seq<nat>, k: nat, level: nat)
    requires InArena(was, c) && k < |c| && |was| == |bypassed| == |nodes| && SameShape(was, bypassed)
    requires forall x :: 0 <= x < |bypassed| ==> nodes[x].key == bypassed[x].key && nodes[x].next == bypassed[x].next
    requires forall m :: 0 <= m < level ==> BypassedAt(was, bypassed, Pred(was, c, k, m), c[k], m)
    requires forall m :: m >= level ==> SameLevel(was, bypassed, m, {})
    ensures SameShape(was, nodes)
    ensures forall m :: 0 <= m < level ==> BypassedAt(was, nodes, Pred(was, c, k, m), c[k], m)
    ensures forall m :: m >= level ==> SameLevel(was, nodes, m, {})
  {
    hide Pred, Less;
    forall m | 0 <= m < level
      ensures BypassedAt(was, nodes, Pred(was, c, k, m), c[k], m)
    {
      BypassedStays(was, bypassed, nodes, Pred(was, c, k, m), c[k], m);
    }
    forall m | m >= level
      ensures SameLevel(was, nodes, m, {})
    {
      SameLevelTrans(was, bypassed, nodes, m);
    }
  }

  // ---- helper facts for the reading methods ----

  lemma KeyAt(nodes: seq<Node>, c: seq<nat>, j: nat)
    requires InArena(nodes, c) && j < |c|
    ensures KeysOf(nodes, c)[j] == nodes[c[j]].key
  {
  }

  lemma EndStep(nodes: seq<Node>, c: seq<nat>, level: nat, i: nat, j: nat)
    requires Chained(nodes, c, level) && i < level && j <= |Tall(nodes, c, i)|
    ensures var t := Tall(nodes, c, i);
            && At(t, j) < |nodes| && i < Height(nodes, At(t, j))
            && nodes[At(t, j)].next[i] == Head(t[j..])
            && (j == |t| ==> At(t, j) == Pred(nodes, c, |c|, i))
  {
    assert c[..|c|] == c;
    assert LinkAt(nodes, Tall(nodes, c, i), i, j);
  }

  lemma InIndex(s: seq<Key>, index: map<Member, Score>)
    requires Indexed(s, index)
    ensures |s| == |index| && forall k: Key :: k in s <==> k.member in index && index[k.member] == k.score
  {
    forall k: Key | k.member in index && index[k.member] == k.score
      ensures k in s
    {
      assert k == Key(index[k.member], k.member);
    }
  }

  lemma Popped(s: seq<Key>, index: map<Member, Score>, k: nat, s': seq<Key>)
    requires Sorted(s) && Indexed(s, index) && k < |s| && Sorted(s') && Indexed(s', index - {s[k].member})
    ensures s' == s[..k] + s[k + 1..]
  {
    CutoutIndexed(s, index, k);
    var ls := s[..k] + s[k + 1..];
    hide Less;
    forall i, j | 0 <= i < j < |ls|
      ensures Less(ls[i], ls[j])
    {
      assert Less(s[if i < k then i else i + 1], s[if j < k then j else j + 1]);
    }
    IndexDetermines(s', ls, index - {s[k].member});
  }

  /** `Rank` and `ByRank` undo each other: a member stands at one position only. */
  lemma RankUnique(s: seq<Key>, index: map<Member, Score>, i: nat, j: nat)
    requires Sorted(s) && Indexed(s, index) && i < |s| && j < |s| && s[i].member == s[j].member
    ensures i == j
  {
    SortedDistinct(s);
    hide Less, Sorted;
    assert s[i] in s && s[j] in s;
    assert s[i] == Key(s[i].score, s[i].member) && s[j] == Key(s[j].score, s[j].member);
    assert s[i] == s[j];
  }
}
