/**
 The order of a sorted set and the shape of its skip list (src/core/zset.rs): entries ordered by
 score and then member, held in an arena of nodes linked by index, one list per level.
 */
module ZSetSpec {
  import opened Bits

  const MAX_LEVEL: nat := 32

  type Member = seq<byte>

  /** A double as its rank in the total order: `f64::total_cmp` compares these integers. */
  type Score = int

  const INFINITY_RANK: int := 0x7FF0_0000_0000_0000

  predicate IsNan(s: Score) { s > INFINITY_RANK || s < -INFINITY_RANK - 1 }

  /** `==` on doubles: the two zeros (ranks 0 and -1) are equal, a NaN equals nothing. */
  predicate ScoreEq(a: Score, b: Score) {
    !IsNan(a) && !IsNan(b) && (a == b || (-1 <= a <= 0 && -1 <= b <= 0))
  }

  predicate LexLess(a: Member, b: Member) {
    if b == [] then false
    else if a == [] then true
    else a[0] < b[0] || (a[0] == b[0] && LexLess(a[1..], b[1..]))
  }

  datatype Key = Key(score: Score, member: Member)

  predicate Less(a: Key, b: Key) {
    a.score < b.score || (a.score == b.score && LexLess(a.member, b.member))
  }

  lemma {:induction false} LexIrreflexive(a: Member)
    ensures !LexLess(a, a)
  {
    if a != [] { LexIrreflexive(a[1..]); }
  }

  lemma {:induction false} LexTotal(a: Member, b: Member)
    ensures LexLess(a, b) || LexLess(b, a) || a == b
    ensures !(LexLess(a, b) && LexLess(b, a)) && !LexLess(a, a)
    decreases |a|
  {
    LexIrreflexive(a);
    if a != [] && b != [] && a[0] == b[0] {
      LexTotal(a[1..], b[1..]);
      assert a == [a[0]] + a[1..] && b == [b[0]] + b[1..];
    }
  }

  lemma {:induction false} LexTrans(a: Member, b: Member, c: Member)
    requires LexLess(a, b) && LexLess(b, c)
    ensures LexLess(a, c)
    decreases |a|
  {
    if a != [] && a[0] == b[0] == c[0] {
      LexTrans(a[1..], b[1..], c[1..]);
    }
  }

  lemma LessTrans(a: Key, b: Key, c: Key)
    requires Less(a, b) && Less(b, c)
    ensures Less(a, c)
  {
    if a.score == b.score == c.score {
      LexTrans(a.member, b.member, c.member);
    }
  }

  lemma LessTotal(a: Key, b: Key)
    ensures Less(a, b) || Less(b, a) || a == b
    ensures !(Less(a, b) && Less(b, a)) && !Less(a, a)
  {
    LexTotal(a.member, b.member);
  }

  predicate Sorted(s: seq<Key>) {
    forall i, j :: 0 <= i < j < |s| ==> Less(s[i], s[j])
  }

  /** A strictly sorted sequence is determined by its elements: the set has one iteration order. */
  lemma {:induction false} SortedUnique(a: seq<Key>, b: seq<Key>)
    requires Sorted(a) && Sorted(b) && forall k :: k in a <==> k in b
    ensures a == b
    decreases |a|
  {
    hide Less;
    assert b != [] ==> b[0] in b;
    if a != [] {
      assert a[0] in b;
      SameFirst(a, b);
      SortedDistinct(a);
      SortedDistinct(b);
      forall k
        ensures k in a[1..] <==> k in b[1..]
      {
        assert k in a <==> k == a[0] || k in a[1..];
        assert k in b <==> k == b[0] || k in b[1..];
      }
      SortedUnique(a[1..], b[1..]);
      assert a == [a[0]] + a[1..] && b == [b[0]] + b[1..];
    }
  }

  lemma SameFirst(a: seq<Key>, b: seq<Key>)
    requires Sorted(a) && Sorted(b) && a != [] && b != [] && a[0] in b && b[0] in a
    ensures a[0] == b[0]
  {
    LessTotal(a[0], b[0]);
    hide Less;
    assert forall t :: 0 < t < |a| ==> Less(a[0], a[t]);
    assert forall t :: 0 < t < |b| ==> Less(b[0], b[t]);
    var i :| 0 <= i < |a| && a[i] == b[0];
    var j :| 0 <= j < |b| && b[j] == a[0];
  }

  lemma SortedDistinct(s: seq<Key>)
    requires Sorted(s)
    ensures forall i, j :: 0 <= i < j < |s| ==> s[i] != s[j]
  {
    forall i, j | 0 <= i < j < |s|
      ensures s[i] != s[j]
    {
      LessTotal(s[i], s[j]);
    }
  }

  // ---- the arena ----

  datatype Node = Node(key: Key, next: seq<Option<nat>>, backward: Option<nat>)

  function Height(nodes: seq<Node>, x: nat): nat
    requires x < |nodes|
  {
    |nodes[x].next|
  }

  predicate InArena(nodes: seq<Node>, c: seq<nat>) {
    forall j :: 0 <= j < |c| ==> 0 < c[j] < |nodes|
  }

  /** The nodes of `c` that reach above level `i`. */
  function Tall(nodes: seq<Node>, c: seq<nat>, i: nat): (t: seq<nat>)
    requires InArena(nodes, c)
    ensures InArena(nodes, t)
  {
    if c == [] then []
    else
      var t := Tall(nodes, c[..|c| - 1], i);
      var x := c[|c| - 1];
      if Height(nodes, x) > i then t + [x] else t
  }

  lemma {:induction false} TallIn(nodes: seq<Node>, c: seq<nat>, i: nat)
    requires InArena(nodes, c)
    ensures forall x :: x in Tall(nodes, c, i) <==> x in c && Height(nodes, x) > i
    decreases |c|
  {
    if c != [] {
      var n := |c| - 1;
      TallIn(nodes, c[..n], i);
      assert forall x :: x in c <==> x == c[n] || x in c[..n];
    }
  }

  /** Position `j` of a list that starts at the header: 0 is the header itself. */
  function At(c: seq<nat>, j: nat): nat
    requires j <= |c|
  {
    if j == 0 then 0 else c[j - 1]
  }

  function Head(c: seq<nat>): Option<nat> { if c == [] then None else Some(c[0]) }

  /** The links of level `i` run through exactly the nodes of `c`, from the header to None. */
  predicate Linked(nodes: seq<Node>, c: seq<nat>, i: nat)
    requires |nodes| > 0 && InArena(nodes, c)
  {
    forall j :: 0 <= j <= |c| ==> LinkAt(nodes, c, i, j)
  }

  predicate LinkAt(nodes: seq<Node>, c: seq<nat>, i: nat, j: nat)
    requires |nodes| > 0 && InArena(nodes, c) && j <= |c|
  {
    i < Height(nodes, At(c, j)) && nodes[At(c, j)].next[i] == Head(c[j..])
  }

  function KeysOf(nodes: seq<Node>, c: seq<nat>): (k: seq<Key>)
    requires InArena(nodes, c)
    ensures |k| == |c|
  {
    seq(|c|, j requires 0 <= j < |c| => nodes[c[j]].key)
  }

  predicate Distinct(c: seq<nat>) {
    forall i, j :: 0 <= i < j < |c| ==> c[i] != c[j]
  }

  /** The arena holds the chain `c` with `level` linked levels. */
  predicate Chained(nodes: seq<Node>, c: seq<nat>, level: nat) {
    && |nodes| > 0 && InArena(nodes, c) && Distinct(c)
    && 1 <= level <= MAX_LEVEL
    && |nodes[0].next| == MAX_LEVEL - 1 + level
    && (forall i :: level <= i < |nodes[0].next| ==> nodes[0].next[i].None?)
    && (forall j :: 0 <= j < |c| ==> 1 <= Height(nodes, c[j]) <= level)
    && (forall i :: 0 <= i < level ==> Linked(nodes, Tall(nodes, c, i), i))
    && Sorted(KeysOf(nodes, c))
  }

  /** Backward links run the level-0 list in reverse; the header never appears. */
  predicate BackLinked(nodes: seq<Node>, c: seq<nat>)
    requires InArena(nodes, c)
  {
    forall j :: 0 <= j < |c| ==> BackAt(nodes, c, j)
  }

  predicate BackAt(nodes: seq<Node>, c: seq<nat>, j: nat)
    requires InArena(nodes, c) && j < |c|
  {
    nodes[c[j]].backward == if j == 0 then None else Some(c[j - 1])
  }

  // ---- the member index ----

  predicate Indexed(keys: seq<Key>, index: map<Member, Score>) {
    && |index| == |keys|
    && (forall k :: k in keys ==> k.member in index && index[k.member] == k.score)
    && (forall m :: m in index ==> Key(index[m], m) in keys)
  }

  /** Two sorted sets with the same index iterate alike. */
  lemma IndexDetermines(a: seq<Key>, b: seq<Key>, index: map<Member, Score>)
    requires Sorted(a) && Sorted(b) && Indexed(a, index) && Indexed(b, index)
    ensures a == b
  {
    hide Less;
    forall k
      ensures k in a <==> k in b
    {
      assert k == Key(k.score, k.member);
    }
    SortedUnique(a, b);
  }
}
