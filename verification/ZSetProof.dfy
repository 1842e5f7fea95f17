/**
 What relinking does to a skip list: inserting a node behind its predecessor on each of its levels,
 and unlinking one, keep every level a sub-list of the one below in strict key order.
 */
module ZSetProof {
  import opened Bits
  import opened ZSetSpec

  // ---- levels as sub-lists ----

  function Kept(nodes: seq<Node>, x: nat, i: nat): seq<nat>
    requires x < |nodes|
  {
    if Height(nodes, x) > i then [x] else []
  }

  lemma TallLast(nodes: seq<Node>, c: seq<nat>, x: nat, i: nat)
    requires InArena(nodes, c) && 0 < x < |nodes|
    ensures InArena(nodes, c + [x]) && Tall(nodes, c + [x], i) == Tall(nodes, c, i) + Kept(nodes, x, i)
  {
    assert (c + [x])[..|c|] == c;
    assert Tall(nodes, c, i) + [] == Tall(nodes, c, i);
  }

  lemma ArenaPrefix(nodes: seq<Node>, b: seq<nat>)
    requires InArena(nodes, b) && b != []
    ensures InArena(nodes, b[..|b| - 1]) && 0 < b[|b| - 1] < |nodes|
  {
  }

  lemma {:induction false} TallConcat(nodes: seq<Node>, a: seq<nat>, b: seq<nat>, i: nat)
    requires InArena(nodes, a) && InArena(nodes, b)
    ensures InArena(nodes, a + b) && Tall(nodes, a + b, i) == Tall(nodes, a, i) + Tall(nodes, b, i)
    decreases |b|
  {
    if b == [] {
      assert a + b == a;
      assert Tall(nodes, a, i) + [] == Tall(nodes, a, i);
    } else {
      hide Tall, InArena, Kept;
      var n := |b| - 1;
      var t, x := b[..n], b[n];
      assert b == t + [x] && a + b == (a + t) + [x];
      ArenaPrefix(nodes, b);
      TallConcat(nodes, a, t, i);
      TallLast(nodes, t, x, i);
      TallLast(nodes, a + t, x, i);
      var u, v, w := Tall(nodes, a, i), Tall(nodes, t, i), Kept(nodes, x, i);
      assert u + v + w == u + (v + w);
    }
  }

  lemma {:induction false} TallSame(nodes: seq<Node>, nodes': seq<Node>, c: seq<nat>, i: nat)
    requires InArena(nodes, c) && InArena(nodes', c) && forall x :: x in c ==> Height(nodes, x) == Height(nodes', x)
    ensures Tall(nodes, c, i) == Tall(nodes', c, i)
    decreases |c|
  {
    if c != [] {
      TallSame(nodes, nodes', c[..|c| - 1], i);
    }
  }

  /** A level inherits distinctness and order. */
  lemma {:induction false} TallOrdered(nodes: seq<Node>, c: seq<nat>, i: nat)
    requires InArena(nodes, c) && Distinct(c) && Sorted(KeysOf(nodes, c))
    ensures Distinct(Tall(nodes, c, i)) && Sorted(KeysOf(nodes, Tall(nodes, c, i)))
    decreases |c|
  {
    hide Less;
    if c != [] {
      var n := |c| - 1;
      var t := Tall(nodes, c[..n], i);
      assert Sorted(KeysOf(nodes, c[..n])) by {
        assert KeysOf(nodes, c[..n]) == KeysOf(nodes, c)[..n];
      }
      TallOrdered(nodes, c[..n], i);
      TallIn(nodes, c[..n], i);
      forall j | 0 <= j < |t|
        ensures t[j] != c[n] && Less(nodes[t[j]].key, nodes[c[n]].key)
      {
        BelowLast(nodes, c, t[j]);
      }
      AppendOrdered(nodes, t, c[n]);
    }
  }

  lemma BelowLast(nodes: seq<Node>, c: seq<nat>, x: nat)
    requires InArena(nodes, c) && Distinct(c) && Sorted(KeysOf(nodes, c)) && |c| > 0 && x in c[..|c| - 1]
    ensures x < |nodes| && x != c[|c| - 1] && Less(nodes[x].key, nodes[c[|c| - 1]].key)
  {
    var ks := KeysOf(nodes, c);
    var m :| 0 <= m < |c| - 1 && c[m] == x;
    assert Less(ks[m], ks[|c| - 1]);
  }

  lemma AppendOrdered(nodes: seq<Node>, t: seq<nat>, x: nat)
    requires InArena(nodes, t) && 0 < x < |nodes| && Distinct(t) && Sorted(KeysOf(nodes, t))
    requires forall j :: 0 <= j < |t| ==> t[j] != x && Less(nodes[t[j]].key, nodes[x].key)
    ensures Distinct(t + [x]) && Sorted(KeysOf(nodes, t + [x]))
  {
    hide Less;
    var ks := KeysOf(nodes, t + [x]);
    forall i, j | 0 <= i < j < |ks|
      ensures Less(ks[i], ks[j])
    {
      if j < |t| {
        assert Less(KeysOf(nodes, t)[i], KeysOf(nodes, t)[j]);
      }
    }
  }

  /** Everything is at least one level tall. */
  lemma {:induction false} TallBottom(nodes: seq<Node>, c: seq<nat>)
    requires InArena(nodes, c) && forall x :: x in c ==> Height(nodes, x) >= 1
    ensures Tall(nodes, c, 0) == c
    decreases |c|
  {
    if c != [] {
      TallBottom(nodes, c[..|c| - 1]);
    }
  }

  // ---- where a key belongs ----

  /** `k` splits `c` into the keys below `key` and the keys not below it. */
  predicate IsCut(nodes: seq<Node>, c: seq<nat>, key: Key, k: nat)
    requires InArena(nodes, c)
  {
    && k <= |c|
    && (forall j :: 0 <= j < k ==> Less(nodes[c[j]].key, key))
    && (forall j :: k <= j < |c| ==> !Less(nodes[c[j]].key, key))
  }

  /** Stopping at the first key that is not below gives the cut of a sorted list. */
  lemma CutHere(nodes: seq<Node>, c: seq<nat>, key: Key, k: nat)
    requires InArena(nodes, c) && Sorted(KeysOf(nodes, c)) && k <= |c|
    requires k == 0 || Less(nodes[c[k - 1]].key, key)
    requires k == |c| || !Less(nodes[c[k]].key, key)
    ensures IsCut(nodes, c, key, k)
  {
    var ks := KeysOf(nodes, c);
    forall j | 0 <= j < k
      ensures Less(nodes[c[j]].key, key)
    {
      if j < k - 1 {
        assert Less(ks[j], ks[k - 1]);
        LessTrans(ks[j], ks[k - 1], key);
      }
    }
    forall j | k <= j < |c|
      ensures !Less(nodes[c[j]].key, key)
    {
      if k < j && Less(nodes[c[j]].key, key) {
        assert Less(ks[k], ks[j]);
        LessTrans(ks[k], ks[j], key);
      }
    }
  }

  /** The cut of a level is the part of the cut of the whole list that reaches it. */
  lemma CutTall(nodes: seq<Node>, c: seq<nat>, key: Key, k: nat, i: nat)
    requires InArena(nodes, c) && IsCut(nodes, c, key, k)
    ensures InArena(nodes, c[..k]) && InArena(nodes, c[k..])
    ensures Tall(nodes, c, i) == Tall(nodes, c[..k], i) + Tall(nodes, c[k..], i)
    ensures IsCut(nodes, Tall(nodes, c, i), key, |Tall(nodes, c[..k], i)|)
  {
    hide Less;
    assert c[..k] + c[k..] == c;
    TallConcat(nodes, c[..k], c[k..], i);
    TallIn(nodes, c[..k], i);
    TallIn(nodes, c[k..], i);
    hide Tall;
    var a, b := Tall(nodes, c[..k], i), Tall(nodes, c[k..], i);
    forall j | 0 <= j < |a|
      ensures Less(nodes[a[j]].key, key)
    {
      assert a[j] in c[..k];
    }
    forall j | 0 <= j < |b|
      ensures !Less(nodes[b[j]].key, key)
    {
      assert b[j] in c[k..];
    }
  }

  // ---- relinking one level ----

  /** Level `i` links of `nodes'` agree with those of `nodes` except at the nodes of `ex`. */
  predicate SameLevel(nodes: seq<Node>, nodes': seq<Node>, i: nat, ex: set<nat>) {
    forall x :: 0 <= x < |nodes| && x < |nodes'| && x !in ex && i < Height(nodes, x) ==>
      i < Height(nodes', x) && nodes'[x].next[i] == nodes[x].next[i]
  }

  lemma LinkedSame(nodes: seq<Node>, nodes': seq<Node>, c: seq<nat>, i: nat)
    requires 0 < |nodes| <= |nodes'| && InArena(nodes, c) && Linked(nodes, c, i) && SameLevel(nodes, nodes', i, {})
    ensures InArena(nodes', c) && Linked(nodes', c, i)
  {
    forall j | 0 <= j <= |c|
      ensures LinkAt(nodes', c, i, j)
    {
      assert LinkAt(nodes, c, i, j);
    }
  }

  /** Node `n` linked in between `a` and `b`. */
  lemma LinkIn(nodes: seq<Node>, nodes': seq<Node>, a: seq<nat>, b: seq<nat>, n: nat, i: nat)
    requires 0 < |nodes| <= |nodes'| && InArena(nodes, a + b) && Distinct(a + b) && Linked(nodes, a + b, i)
    requires 0 < n < |nodes'| && n !in a + b
    requires SameLevel(nodes, nodes', i, {At(a, |a|), n})
    requires i < Height(nodes', n) && nodes'[n].next[i] == Head(b)
    requires var p := At(a, |a|); p < |nodes'| && i < Height(nodes', p) && nodes'[p].next[i] == Some(n)
    ensures InArena(nodes', a + [n] + b) && Linked(nodes', a + [n] + b, i)
  {
    var c, d := a + b, a + [n] + b;
    assert InArena(nodes', d) by {
      forall j | 0 <= j < |d|
        ensures 0 < d[j] < |nodes'|
      {
        assert j < |a| ==> d[j] == c[j];
        assert j > |a| ==> d[j] == c[j - 1];
      }
    }
    forall j | 0 <= j <= |d|
      ensures LinkAt(nodes', d, i, j)
    {
      if j < |a| {
        LinkInBefore(nodes, nodes', a, b, n, i, j);
      } else if j == |a| {
        assert At(d, j) == At(a, |a|) && d[j..] == [n] + b;
      } else if j == |a| + 1 {
        assert At(d, j) == n && d[j..] == b;
      } else {
        LinkInAfter(nodes, nodes', a, b, n, i, j);
      }
    }
  }

  lemma LinkInBefore(nodes: seq<Node>, nodes': seq<Node>, a: seq<nat>, b: seq<nat>, n: nat, i: nat, j: nat)
    requires 0 < |nodes| <= |nodes'| && InArena(nodes, a + b) && Distinct(a + b) && Linked(nodes, a + b, i)
    requires 0 < n < |nodes'| && n !in a + b && SameLevel(nodes, nodes', i, {At(a, |a|), n})
    requires j < |a| && InArena(nodes', a + [n] + b)
    ensures LinkAt(nodes', a + [n] + b, i, j)
  {
    var c, d := a + b, a + [n] + b;
    assert LinkAt(nodes, c, i, j);
    assert At(c, j) == At(d, j) && c[j] == d[j] && At(c, |a|) == At(a, |a|);
    assert Head(c[j..]) == Head(d[j..]);
    AtDistinct(c, j, |a|);
    assert At(c, j) != n by {
      assert j > 0 ==> c[j - 1] in c;
    }
  }

  lemma LinkInAfter(nodes: seq<Node>, nodes': seq<Node>, a: seq<nat>, b: seq<nat>, n: nat, i: nat, j: nat)
    requires 0 < |nodes| <= |nodes'| && InArena(nodes, a + b) && Distinct(a + b) && Linked(nodes, a + b, i)
    requires 0 < n < |nodes'| && n !in a + b && SameLevel(nodes, nodes', i, {At(a, |a|), n})
    requires |a| + 1 < j <= |a| + 1 + |b| && InArena(nodes', a + [n] + b)
    ensures LinkAt(nodes', a + [n] + b, i, j)
  {
    var c, d := a + b, a + [n] + b;
    assert LinkAt(nodes, c, i, j - 1);
    assert At(d, j) == At(c, j - 1) && d[j..] == c[j - 1..] && At(c, |a|) == At(a, |a|);
    AtDistinct(c, |a|, j - 1);
    assert At(c, j - 1) != n by {
      assert c[j - 2] in c;
    }
  }

  lemma AtDistinct(c: seq<nat>, j: nat, k: nat)
    requires Distinct(c) && j < k <= |c| && forall x :: x in c ==> x > 0
    ensures At(c, j) != At(c, k)
  {
    assert c[k - 1] in c;
  }

  /** Node `n` between `a` and `b` taken out. */
  lemma LinkOut(nodes: seq<Node>, nodes': seq<Node>, a: seq<nat>, b: seq<nat>, n: nat, i: nat)
    requires 0 < |nodes| == |nodes'| && InArena(nodes, a + [n] + b) && Distinct(a + [n] + b) && Linked(nodes, a + [n] + b, i)
    requires SameLevel(nodes, nodes', i, {At(a, |a|)})
    requires 0 < n < |nodes| && i < Height(nodes, n)
    requires var p := At(a, |a|); p < |nodes'| && i < Height(nodes', p) && nodes'[p].next[i] == nodes[n].next[i]
    ensures InArena(nodes', a + b) && Linked(nodes', a + b, i)
  {
    var c, d := a + b, a + [n] + b;
    assert InArena(nodes', c) by {
      forall j | 0 <= j < |c|
        ensures 0 < c[j] < |nodes'|
      {
        assert c[j] == d[if j < |a| then j else j + 1];
      }
    }
    forall j | 0 <= j <= |c|
      ensures LinkAt(nodes', c, i, j)
    {
      if j < |a| {
        assert LinkAt(nodes, d, i, j);
        assert At(c, j) == At(d, j) && Head(c[j..]) == Head(d[j..]);
        assert At(d, j) != At(a, |a|) by { AtDistinct(d, j, |a|); assert At(d, |a|) == At(a, |a|); }
      } else if j == |a| {
        assert LinkAt(nodes, d, i, |a| + 1);
        assert At(d, |a| + 1) == n && d[|a| + 1..] == b && c[j..] == b;
        assert At(c, j) == At(a, |a|);
      } else {
        assert LinkAt(nodes, d, i, j + 1);
        assert At(c, j) == At(d, j + 1) && d[j + 1..] == c[j..];
        assert At(d, j + 1) != At(a, |a|) by { AtDistinct(d, |a|, j + 1); assert At(d, |a|) == At(a, |a|); }
      }
    }
  }

  // ---- the link of each level that an insertion or deletion of `key` goes through ----

  /** How many nodes of `c` come before `key`. */
  ghost function Cut(nodes: seq<Node>, c: seq<nat>, key: Key): (k: nat)
    requires InArena(nodes, c) && Sorted(KeysOf(nodes, c))
    ensures IsCut(nodes, c, key, k)
  {
    CutExists(nodes, c, key);
    var k: nat :| IsCut(nodes, c, key, k);
    k
  }

  lemma CutExists(nodes: seq<Node>, c: seq<nat>, key: Key)
    requires InArena(nodes, c) && Sorted(KeysOf(nodes, c))
    ensures exists k: nat :: IsCut(nodes, c, key, k)
  {
    var k := 0;
    while k < |c| && Less(nodes[c[k]].key, key)
      invariant k <= |c| && (k == 0 || Less(nodes[c[k - 1]].key, key))
    {
      k := k + 1;
    }
    CutHere(nodes, c, key, k);
  }

  /** The last node of level `i` among the first `k` of the chain, or the header. */
  ghost function Pred(nodes: seq<Node>, c: seq<nat>, k: nat, i: nat): (p: nat)
    requires InArena(nodes, c) && k <= |c|
    ensures p == 0 || (p in c[..k] && p < |nodes| && Height(nodes, p) > i)
  {
    assert InArena(nodes, c[..k]);
    TallIn(nodes, c[..k], i);
    var t := Tall(nodes, c[..k], i);
    assert t != [] ==> t[|t| - 1] in t;
    At(t, |t|)
  }

  /** A node of level `i` before the cut has a position on the level below, before that level's cut. */
  lemma Descend(nodes: seq<Node>, c: seq<nat>, k: nat, i: nat, x: nat) returns (j: nat)
    requires InArena(nodes, c) && k <= |c|
    requires x == 0 || (x in c[..k] && x < |nodes| && Height(nodes, x) > i)
    ensures InArena(nodes, c[..k]) && j <= |Tall(nodes, c[..k], i)| <= |Tall(nodes, c, i)|
    ensures x == At(Tall(nodes, c, i), j)
  {
    hide Tall;
    assert InArena(nodes, c[..k]) && InArena(nodes, c[k..]);
    var t, u := Tall(nodes, c[..k], i), Tall(nodes, c[k..], i);
    assert c[..k] + c[k..] == c;
    TallConcat(nodes, c[..k], c[k..], i);
    if x == 0 {
      j := 0;
    } else {
      TallHas(nodes, c[..k], i, x);
      var m :| 0 <= m < |t| && t[m] == x;
      j := m + 1;
      assert (t + u)[m] == t[m];
    }
  }

  lemma TallHas(nodes: seq<Node>, c: seq<nat>, i: nat, x: nat)
    requires InArena(nodes, c) && x in c && x < |nodes| && Height(nodes, x) > i
    ensures x in Tall(nodes, c, i)
  {
    TallIn(nodes, c, i);
  }

  /** Where the walk along level `i` stops. */
  lemma WalkStep(nodes: seq<Node>, c: seq<nat>, level: nat, key: Key, k: nat, i: nat, j: nat)
    requires Chained(nodes, c, level) && IsCut(nodes, c, key, k) && i < level && InArena(nodes, c[..k])
    requires j <= |Tall(nodes, c[..k], i)| <= |Tall(nodes, c, i)|
    ensures var t := Tall(nodes, c, i);
            && At(t, j) < |nodes| && i < Height(nodes, At(t, j))
            && nodes[At(t, j)].next[i] == Head(t[j..])
            && (j < |t| ==> (Less(nodes[t[j]].key, key) <==> j < |Tall(nodes, c[..k], i)|))
            && (j == |Tall(nodes, c[..k], i)| ==> At(t, j) == Pred(nodes, c, k, i))
  {
    hide Less;
    CutTall(nodes, c, key, k, i);
    assert LinkAt(nodes, Tall(nodes, c, i), i, j);
  }

  // ---- inserting ----

  /** `nodes'` is `nodes` with node `n` spliced behind `update[i]` on the levels below `h`. */
  predicate SplicedAt(nodes: seq<Node>, nodes': seq<Node>, p: nat, n: nat, i: nat)
    requires n < |nodes'|
  {
    && p < |nodes| && p < |nodes'| && i < Height(nodes, p) && i < Height(nodes', p) && i < Height(nodes', n)
    && nodes'[p].next[i] == Some(n)
    && nodes'[n].next[i] == nodes[p].next[i]
    && SameLevel(nodes, nodes', i, {p, n})
  }

  predicate SameShape(nodes: seq<Node>, nodes': seq<Node>) {
    && 0 < |nodes| <= |nodes'|
    && forall x :: 0 <= x < |nodes| ==> nodes'[x].key == nodes[x].key && Height(nodes', x) == Height(nodes, x)
  }

  /** The chain with node `n` put in at `k`. */
  function Put(c: seq<nat>, k: nat, n: nat): seq<nat>
    requires k <= |c|
  {
    c[..k] + [n] + c[k..]
  }

  lemma PutTall(nodes: seq<Node>, nodes': seq<Node>, c: seq<nat>, k: nat, n: nat, i: nat)
    requires InArena(nodes, c) && SameShape(nodes, nodes') && k <= |c| && n == |nodes| < |nodes'|
    ensures InArena(nodes', Put(c, k, n)) && InArena(nodes, c[..k]) && InArena(nodes, c[k..])
    ensures Tall(nodes, c, i) == Tall(nodes, c[..k], i) + Tall(nodes, c[k..], i)
    ensures Tall(nodes', Put(c, k, n), i) ==
            if Height(nodes', n) > i then Tall(nodes, c[..k], i) + [n] + Tall(nodes, c[k..], i) else Tall(nodes, c, i)
  {
    var a, b := c[..k], c[k..];
    assert a + b == c;
    TallConcat(nodes, a, b, i);
    TallSame(nodes, nodes', a, i);
    TallSame(nodes, nodes', b, i);
    TallConcat(nodes', a, [n], i);
    TallConcat(nodes', a + [n], b, i);
    assert [n][..0] == [];
    assert Tall(nodes', [n], i) == if Height(nodes', n) > i then [n] else [];
  }

  lemma PutLinked(nodes: seq<Node>, nodes': seq<Node>, c: seq<nat>, level: nat, k: nat, n: nat, i: nat)
    requires Chained(nodes, c, level) && SameShape(nodes, nodes') && k <= |c| && n == |nodes| < |nodes'|
    requires i < level
    requires if i < Height(nodes', n) then SplicedAt(nodes, nodes', Pred(nodes, c, k, i), n, i) else SameLevel(nodes, nodes', i, {})
    ensures InArena(nodes', Put(c, k, n)) && Linked(nodes', Tall(nodes', Put(c, k, n), i), i)
  {
    hide Less;
    PutTall(nodes, nodes', c, k, n, i);
    if i < Height(nodes', n) {
      var a, b := Tall(nodes, c[..k], i), Tall(nodes, c[k..], i);
      TallOrdered(nodes, c, i);
      assert LinkAt(nodes, a + b, i, |a|);
      assert (a + b)[|a|..] == b && At(a + b, |a|) == At(a, |a|);
      assert n !in a + b;
      LinkIn(nodes, nodes', a, b, n, i);
    } else {
      LinkedSame(nodes, nodes', Tall(nodes, c, i), i);
    }
  }

  lemma PutSorted(nodes: seq<Node>, nodes': seq<Node>, c: seq<nat>, k: nat, n: nat)
    requires InArena(nodes, c) && Sorted(KeysOf(nodes, c)) && SameShape(nodes, nodes') && n == |nodes| < |nodes'|
    requires IsCut(nodes, c, nodes'[n].key, k) && nodes'[n].key !in KeysOf(nodes, c)
    ensures InArena(nodes', Put(c, k, n)) && Sorted(KeysOf(nodes', Put(c, k, n)))
    ensures KeysOf(nodes', Put(c, k, n)) == KeysOf(nodes, c)[..k] + [nodes'[n].key] + KeysOf(nodes, c)[k..]
  {
    var ks, key := KeysOf(nodes, c), nodes'[n].key;
    var d := Put(c, k, n);
    assert InArena(nodes', d);
    var ls := ks[..k] + [key] + ks[k..];
    assert KeysOf(nodes', d) == ls by {
      assert forall j :: 0 <= j < |d| ==> KeysOf(nodes', d)[j] == ls[j];
    }
    forall j | k <= j < |c|
      ensures Less(key, ks[j])
    {
      LessTotal(key, ks[j]);
      assert ks[j] in ks && !Less(nodes[c[j]].key, key);
    }
    hide Less;
    forall i, j | 0 <= i < j < |ls|
      ensures Less(ls[i], ls[j])
    {
      assert i < k ==> ls[i] == ks[i] && Less(nodes[c[i]].key, key);
      assert j > k ==> ls[j] == ks[j - 1];
      if i < k < j {
        assert Less(ks[i], ks[j - 1]);
      }
    }
  }

  /** Splicing a new node in behind each level's predecessor keeps the skip list well formed. */
  lemma PutChained(nodes: seq<Node>, nodes': seq<Node>, c: seq<nat>, level: nat, k: nat, n: nat)
    requires Chained(nodes, c, level) && SameShape(nodes, nodes') && n == |nodes| && |nodes'| == n + 1
    requires k <= |c| && IsCut(nodes, c, nodes'[n].key, k) && nodes'[n].key !in KeysOf(nodes, c)
    requires 1 <= Height(nodes', n) <= level
    requires forall i :: 0 <= i < Height(nodes', n) ==> SplicedAt(nodes, nodes', Pred(nodes, c, k, i), n, i)
    requires forall i :: i >= Height(nodes', n) ==> SameLevel(nodes, nodes', i, {})
    ensures Chained(nodes', Put(c, k, n), level)
  {
    hide Less, Linked, Tall, IsCut, Pred;
    PutSorted(nodes, nodes', c, k, n);
    var d := Put(c, k, n);
    forall i | 0 <= i < level
      ensures Linked(nodes', Tall(nodes', d, i), i)
    {
      PutLinked(nodes, nodes', c, level, k, n, i);
    }
    assert forall j :: 0 <= j < |d| ==> d[j] == n || d[j] in c;
    assert Distinct(d);
    forall i | level <= i < |nodes'[0].next|
      ensures nodes'[0].next[i].None?
    {
      assert SameLevel(nodes, nodes', i, {});
    }
  }

  // ---- deleting ----

  function Cutout(c: seq<nat>, k: nat): seq<nat>
    requires k < |c|
  {
    c[..k] + c[k + 1..]
  }

  lemma CutoutTall(nodes: seq<Node>, nodes': seq<Node>, c: seq<nat>, k: nat, i: nat)
    requires InArena(nodes, c) && SameShape(nodes, nodes') && k < |c|
    ensures InArena(nodes', Cutout(c, k)) && InArena(nodes, c[..k]) && InArena(nodes, c[k + 1..])
    ensures Tall(nodes', Cutout(c, k), i) == Tall(nodes, c[..k], i) + Tall(nodes, c[k + 1..], i)
    ensures Tall(nodes, c, i) ==
            if Height(nodes, c[k]) > i then Tall(nodes, c[..k], i) + [c[k]] + Tall(nodes, c[k + 1..], i)
            else Tall(nodes', Cutout(c, k), i)
  {
    var a, b := c[..k], c[k + 1..];
    assert a + [c[k]] + b == c;
    TallSame(nodes, nodes', a, i);
    TallSame(nodes, nodes', b, i);
    TallConcat(nodes', a, b, i);
    TallConcat(nodes, a, [c[k]], i);
    TallConcat(nodes, a + [c[k]], b, i);
    assert [c[k]][..0] == [];
    assert Tall(nodes, [c[k]], i) == if Height(nodes, c[k]) > i then [c[k]] else [];
  }

  /** Level `i` goes around node `n` where it went through it, and is untouched elsewhere. */
  predicate BypassedAt(nodes: seq<Node>, nodes': seq<Node>, p: nat, n: nat, i: nat)
    requires n < |nodes|
  {
    && p < |nodes| && p < |nodes'| && i < Height(nodes, p) && i < Height(nodes', p)
    && (if nodes[p].next[i] == Some(n)
        then i < Height(nodes, n) && nodes'[p].next[i] == nodes[n].next[i] && SameLevel(nodes, nodes', i, {p})
        else SameLevel(nodes, nodes', i, {}))
  }

  /** The predecessor's link on level `i` is the target exactly when the target reaches that level. */
  lemma PredLink(nodes: seq<Node>, c: seq<nat>, level: nat, k: nat, i: nat)
    requires Chained(nodes, c, level) && k < |c| && i < level
    ensures var p := Pred(nodes, c, k, i);
            && p < |nodes| && i < Height(nodes, p)
            && (nodes[p].next[i] == Some(c[k]) <==> i < Height(nodes, c[k]))
  {
    hide Less, Sorted, Tall;
    assert c[k] !in c[k + 1..];
    CutoutTall(nodes, nodes, c, k, i);
    TallIn(nodes, c[k + 1..], i);
    var t := Tall(nodes, c, i);
    var a, b := Tall(nodes, c[..k], i), Tall(nodes, c[k + 1..], i);
    assert LinkAt(nodes, t, i, |a|) by {
      assert Linked(nodes, t, i) && |a| <= |t|;
    }
    assert At(t, |a|) == At(a, |a|);
    assert t[|a|..] == if Height(nodes, c[k]) > i then [c[k]] + b else b;
    assert b != [] ==> b[0] in b;
  }

  lemma CutoutLinked(nodes: seq<Node>, nodes': seq<Node>, c: seq<nat>, level: nat, k: nat, i: nat)
    requires Chained(nodes, c, level) && SameShape(nodes, nodes') && |nodes| == |nodes'| && k < |c| && i < level
    requires BypassedAt(nodes, nodes', Pred(nodes, c, k, i), c[k], i)
    ensures InArena(nodes', Cutout(c, k)) && Linked(nodes', Tall(nodes', Cutout(c, k), i), i)
  {
    PredLink(nodes, c, level, k, i);
    hide Less;
    CutoutTall(nodes, nodes', c, k, i);
    if Height(nodes, c[k]) > i {
      TallOrdered(nodes, c, i);
      LinkOut(nodes, nodes', Tall(nodes, c[..k], i), Tall(nodes, c[k + 1..], i), c[k], i);
    } else {
      LinkedSame(nodes, nodes', Tall(nodes, c, i), i);
    }
  }

  lemma CutoutSorted(nodes: seq<Node>, nodes': seq<Node>, c: seq<nat>, k: nat)
    requires InArena(nodes, c) && Sorted(KeysOf(nodes, c)) && SameShape(nodes, nodes') && k < |c|
    ensures InArena(nodes', Cutout(c, k)) && Sorted(KeysOf(nodes', Cutout(c, k)))
    ensures KeysOf(nodes', Cutout(c, k)) == KeysOf(nodes, c)[..k] + KeysOf(nodes, c)[k + 1..]
  {
    hide Less;
    var ks, d := KeysOf(nodes, c), Cutout(c, k);
    assert InArena(nodes', d);
    var ls := ks[..k] + ks[k + 1..];
    assert KeysOf(nodes', d) == ls by {
      assert forall j :: 0 <= j < |d| ==> KeysOf(nodes', d)[j] == ls[j];
    }
    forall i, j | 0 <= i < j < |ls|
      ensures Less(ls[i], ls[j])
    {
      assert Less(ks[if i < k then i else i + 1], ks[if j < k then j else j + 1]);
    }
  }

  /** Bypassing a node on every level it reaches keeps the skip list well formed. */
  lemma CutoutChained(nodes: seq<Node>, nodes': seq<Node>, c: seq<nat>, level: nat, k: nat)
    requires Chained(nodes, c, level) && SameShape(nodes, nodes') && |nodes| == |nodes'| && k < |c|
    requires forall i :: 0 <= i < level ==> BypassedAt(nodes, nodes', Pred(nodes, c, k, i), c[k], i)
    requires forall i :: i >= level ==> SameLevel(nodes, nodes', i, {})
    ensures Chained(nodes', Cutout(c, k), level)
  {
    hide Less, Linked, Tall, Pred;
    CutoutSorted(nodes, nodes', c, k);
    var d := Cutout(c, k);
    forall i | 0 <= i < level
      ensures Linked(nodes', Tall(nodes', d, i), i)
    {
      CutoutLinked(nodes, nodes', c, level, k, i);
    }
    forall j | 0 <= j < |d|
      ensures 1 <= Height(nodes', d[j]) <= level
    {
      assert d[j] == c[if j < k then j else j + 1];
    }
    forall i, j | 0 <= i < j < |d|
      ensures d[i] != d[j]
    {
      assert d[i] == c[if i < k then i else i + 1] && d[j] == c[if j < k then j else j + 1];
    }
    forall i | level <= i < |nodes'[0].next|
      ensures nodes'[0].next[i].None?
    {
      assert SameLevel(nodes, nodes', i, {});
    }
  }

  // ---- the number of levels ----

  lemma {:induction false} TallEmpty(nodes: seq<Node>, c: seq<nat>, i: nat)
    requires InArena(nodes, c) && forall x :: x in c ==> Height(nodes, x) <= i
    ensures Tall(nodes, c, i) == []
    decreases |c|
  {
    if c != [] {
      TallEmpty(nodes, c[..|c| - 1], i);
    }
  }

  /** Levels above the tallest node hold nothing, so the header may be taken to more levels. */
  lemma RaiseChained(nodes: seq<Node>, c: seq<nat>, level: nat, nodes': seq<Node>, level': nat)
    requires Chained(nodes, c, level) && level <= level' <= MAX_LEVEL
    requires |nodes'| == |nodes| && nodes'[1..] == nodes[1..] && nodes'[0].key == nodes[0].key
    requires |nodes'[0].next| == |nodes[0].next| + level' - level
    requires forall i :: 0 <= i < |nodes'[0].next| ==>
               nodes'[0].next[i] == if i < |nodes[0].next| then nodes[0].next[i] else None
    ensures Chained(nodes', c, level') && KeysOf(nodes', c) == KeysOf(nodes, c)
    ensures BackLinked(nodes, c) ==> BackLinked(nodes', c)
  {
    hide Less, Linked, Tall;
    assert forall x :: 0 < x < |nodes| ==> nodes'[x] == nodes[x] by {
      assert forall x :: 0 < x < |nodes| ==> nodes'[x] == nodes'[1..][x - 1] && nodes[x] == nodes[1..][x - 1];
    }
    forall i | 0 <= i < level'
      ensures Linked(nodes', Tall(nodes', c, i), i)
    {
      RaiseLinked(nodes, c, level, nodes', i);
    }
    assert KeysOf(nodes', c) == KeysOf(nodes, c) by {
      assert forall j :: 0 <= j < |c| ==> nodes'[c[j]] == nodes[c[j]];
    }
    if BackLinked(nodes, c) {
      assert forall j :: 0 <= j < |c| ==> BackAt(nodes, c, j) && BackAt(nodes', c, j);
    }
  }

  lemma RaiseLinked(nodes: seq<Node>, c: seq<nat>, level: nat, nodes': seq<Node>, i: nat)
    requires Chained(nodes, c, level) && i < MAX_LEVEL
    requires |nodes'| == |nodes| && forall x :: 0 < x < |nodes| ==> nodes'[x] == nodes[x]
    requires |nodes'[0].next| >= |nodes[0].next|
    requires forall i :: 0 <= i < |nodes[0].next| ==> nodes'[0].next[i] == nodes[0].next[i]
    ensures Linked(nodes', Tall(nodes', c, i), i)
  {
    hide Less;
    TallSame(nodes, nodes', c, i);
    if i < level {
      LinkedSame(nodes, nodes', Tall(nodes, c, i), i);
    } else {
      TallEmpty(nodes, c, i);
      assert i < |nodes[0].next| && nodes[0].next[i].None?;
    }
  }

  /** An empty top level may be dropped. */
  lemma LowerChained(nodes: seq<Node>, c: seq<nat>, level: nat, nodes': seq<Node>)
    requires Chained(nodes, c, level) && level > 1 && nodes[0].next[level - 1].None?
    requires |nodes'| == |nodes| && nodes'[1..] == nodes[1..]
    requires nodes'[0].next == nodes[0].next[..|nodes[0].next| - 1]
    ensures Chained(nodes', c, level - 1) && KeysOf(nodes', c) == KeysOf(nodes, c)
    ensures BackLinked(nodes, c) ==> BackLinked(nodes', c)
  {
    hide Less, Linked, Tall;
    assert forall x :: 0 < x < |nodes| ==> nodes'[x] == nodes[x] by {
      assert forall x :: 0 < x < |nodes| ==> nodes'[x] == nodes'[1..][x - 1] && nodes[x] == nodes[1..][x - 1];
    }
    forall i | 0 <= i < level - 1
      ensures Linked(nodes', Tall(nodes', c, i), i)
    {
      LowerLinked(nodes, c, level, nodes', i);
    }
    TopEmpty(nodes, c, level);
    assert KeysOf(nodes', c) == KeysOf(nodes, c) by {
      assert forall j :: 0 <= j < |c| ==> nodes'[c[j]] == nodes[c[j]];
    }
    if BackLinked(nodes, c) {
      assert forall j :: 0 <= j < |c| ==> BackAt(nodes, c, j) && BackAt(nodes', c, j);
    }
  }

  lemma LowerLinked(nodes: seq<Node>, c: seq<nat>, level: nat, nodes': seq<Node>, i: nat)
    requires Chained(nodes, c, level) && i < level - 1
    requires |nodes'| == |nodes| && forall x :: 0 < x < |nodes| ==> nodes'[x] == nodes[x]
    requires nodes'[0].next == nodes[0].next[..|nodes[0].next| - 1]
    ensures Linked(nodes', Tall(nodes', c, i), i)
  {
    hide Less;
    TallSame(nodes, nodes', c, i);
    var t := Tall(nodes, c, i);
    forall j | 0 <= j <= |t|
      ensures LinkAt(nodes', t, i, j)
    {
      assert LinkAt(nodes, t, i, j);
    }
  }

  lemma TopEmpty(nodes: seq<Node>, c: seq<nat>, level: nat)
    requires Chained(nodes, c, level) && nodes[0].next[level - 1].None?
    ensures forall j :: 0 <= j < |c| ==> Height(nodes, c[j]) <= level - 1
  {
    hide Less;
    TallIn(nodes, c, level - 1);
    var t := Tall(nodes, c, level - 1);
    assert LinkAt(nodes, t, level - 1, 0);
    assert t[0..] == t;
    forall j | 0 <= j < |c|
      ensures Height(nodes, c[j]) <= level - 1
    {
      assert c[j] !in t;
    }
  }
}
