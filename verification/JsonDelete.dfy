/**
 What deletion along a path guarantees (src/core/jsonpath.rs): every node is either kept or gone
 with a counted value, and a path that ends in a name matches nothing afterwards.
 */
module JsonDelete {
  import opened Bits
  import opened JsonPathSpec

  // ---- the children after a deletion below ----

  function After(p: Path, c: Json): Json
    requires p != []
  {
    if Container(c) then Deletion(p, c).doc else c
  }

  /** Same kind, same number of children under the same names. */
  predicate SameFrame(w: Json, v: Json) {
    && w.Array? == v.Array? && w.Object? == v.Object? && Size(w) == Size(v)
    && forall i :: 0 <= i < Size(v) ==> Name(w, i) == Name(v, i)
  }

  /** Deletion below touches exactly the children in its range, each on its own. */
  lemma {:induction false} DeleteBelowAt(p: Path, v: Json, a: nat, b: nat)
    requires p != [] && a <= b <= Size(v)
    ensures var w := DeleteBelow(p, v, a, b).doc;
            && SameFrame(w, v) && (Size(v) == 0 ==> w == v)
            && forall i :: 0 <= i < Size(v) ==> Child(w, i) == if a <= i < b then After(p, Child(v, i)) else Child(v, i)
    decreases b - a
  {
    hide Deletion;
    if a < b {
      var v' := SetChild(v, a, After(p, Child(v, a)));
      DeleteBelowAt(p, v', a + 1, b);
      assert SameFrame(v', v);
    }
  }

  lemma {:induction false} RangeSame(seg: Segment, w: Json, v: Json)
    requires SameFrame(w, v)
    ensures Range(seg, w) == Range(seg, v)
  {
    if seg.Identifier? && v.Object? {
      forall i | 0 <= i < |v.members|
        ensures w.members[i].0 == v.members[i].0
      {
        assert Name(w, i) == Name(v, i);
      }
      FindSame(w.members, v.members, seg.key);
    }
  }

  lemma {:induction false} FindSame(ws: seq<(Key, Json)>, vs: seq<(Key, Json)>, key: Key)
    requires |ws| == |vs| && forall i :: 0 <= i < |vs| ==> ws[i].0 == vs[i].0
    ensures Find(ws, key) == Find(vs, key)
  {
    if vs != [] { FindSame(ws[..|ws| - 1], vs[..|vs| - 1], key); }
  }

  // ---- conservation ----

  /** Number of nodes of a document. */
  function Weight(v: Json): nat
    decreases v, 1, 0
  {
    1 + Weights(v, 0, Size(v))
  }

  function Weights(v: Json, a: nat, b: nat): nat
    requires a <= b <= Size(v)
    decreases v, 0, b - a
  {
    if a == b then 0 else Weight(Child(v, a)) + Weights(v, a + 1, b)
  }

  function Total(gone: seq<Json>): nat { if gone == [] then 0 else Weight(gone[0]) + Total(gone[1..]) }

  lemma {:induction false} TotalConcat(a: seq<Json>, b: seq<Json>)
    ensures Total(a + b) == Total(a) + Total(b)
    decreases |a|
  {
    if a == [] {
      assert a + b == b;
    } else {
      assert (a + b)[1..] == a[1..] + b;
      TotalConcat(a[1..], b);
    }
  }

  lemma {:induction false} WeightsSplit(v: Json, a: nat, m: nat, b: nat)
    requires a <= m <= b <= Size(v)
    ensures Weights(v, a, b) == Weights(v, a, m) + Weights(v, m, b)
    decreases m - a
  {
    if a < m { WeightsSplit(v, a + 1, m, b); }
  }

  /** Child `j` of `v` is child `j + d` of `w`. */
  predicate SameChild(v: Json, w: Json, j: nat, d: int) {
    j < Size(v) && 0 <= j + d < Size(w) && Child(v, j) == Child(w, j + d)
  }

  lemma {:induction false} WeightsSame(v: Json, w: Json, a: nat, b: nat, d: int)
    requires a <= b <= Size(v) && 0 <= a + d && b + d <= Size(w)
    requires forall j :: a <= j < b ==> SameChild(v, w, j, d)
    ensures Weights(v, a, b) == Weights(w, a + d, b + d)
    decreases b - a
  {
    if a < b {
      assert SameChild(v, w, a, d);
      WeightsSame(v, w, a + 1, b, d);
    }
  }

  lemma {:induction false} ValuesTotal(v: Json, a: nat, b: nat)
    requires a <= b <= Size(v)
    ensures Total(Values(v, a, b)) == Weights(v, a, b)
    decreases b - a
  {
    if a < b {
      ValuesTotal(v, a + 1, b);
      assert Values(v, a, b)[1..] == Values(v, a + 1, b);
    }
  }

  lemma CutWeight(v: Json, a: nat, b: nat)
    requires a <= b <= Size(v)
    ensures Weight(v) == Weight(Cut(v, a, b)) + Weights(v, a, b)
  {
    hide Weights;
    var w := Cut(v, a, b);
    if Container(v) {
      WeightsSplit(v, 0, a, Size(v));
      WeightsSplit(v, a, b, Size(v));
      WeightsSplit(w, 0, a, Size(w));
      assert forall j :: 0 <= j < a ==> SameChild(v, w, j, 0);
      WeightsSame(v, w, 0, a, 0);
      var d := a - b;
      assert forall j :: b <= j < Size(v) ==> SameChild(v, w, j, d);
      WeightsSame(v, w, b, Size(v), d);
    } else {
      NoWeights(v);
    }
  }

  lemma NoWeights(v: Json)
    requires Size(v) == 0
    ensures Weights(v, 0, 0) == 0
  {
  }

  lemma SetWeight(v: Json, a: nat, c: Json)
    requires a < Size(v)
    ensures Weight(SetChild(v, a, c)) + Weight(Child(v, a)) == Weight(v) + Weight(c)
  {
    var w, n := SetChild(v, a, c), Size(v);
    WeightsSplit(v, 0, a, n);
    WeightsSplit(w, 0, a, n);
    assert forall j :: 0 <= j < a ==> SameChild(v, w, j, 0);
    WeightsSame(v, w, 0, a, 0);
    assert forall j :: a < j < n ==> SameChild(v, w, j, 0);
    WeightsSame(v, w, a + 1, n, 0);
    assert Child(w, a) == c;
  }

  /** Deletion loses nothing but the values it counts: node counts add up. */
  lemma {:induction false} DeletionConserves(p: Path, v: Json)
    requires p != []
    ensures var d := Deletion(p, v); Weight(v) == Weight(d.doc) + Total(d.gone)
    decreases |p|, Depth(v), 1, 0
  {
    hide Weight, Total, Range;
    if |p| == 1 {
      var (a, b) := Range(p[0], v);
      CutWeight(v, a, b);
      ValuesTotal(v, a, b);
    } else if p[0].Descent? {
      var first := if Container(v) then Deletion(p[1..], v) else Deleted(v, []);
      if Container(v) {
        DeletionConserves(p[1..], v);
      } else {
        NothingTotal();
      }
      DeleteBelowConserves(p, first.doc, 0, Size(first.doc));
      TotalConcat(first.gone, DeleteBelow(p, first.doc, 0, Size(first.doc)).gone);
    } else {
      DeleteBelowConserves(p[1..], v, Range(p[0], v).0, Range(p[0], v).1);
    }
  }

  lemma NothingTotal()
    ensures Total([]) == 0
  {
  }

  lemma {:induction false} DeleteBelowConserves(p: Path, v: Json, a: nat, b: nat)
    requires p != [] && a <= b <= Size(v)
    ensures var d := DeleteBelow(p, v, a, b); Weight(v) == Weight(d.doc) + Total(d.gone)
    decreases |p|, Depth(v), 0, b - a
  {
    hide Weight, Total;
    NothingTotal();
    if a < b {
      var c := Child(v, a);
      ChildDepth(v, a);
      var d := if Container(c) then Deletion(p, c) else Deleted(c, []);
      if Container(c) {
        DeletionConserves(p, c);
      }
      SetChildDepth(v, a, d.doc);
      var v' := SetChild(v, a, d.doc);
      SetWeight(v, a, d.doc);
      DeleteBelowConserves(p, v', a + 1, b);
      TotalConcat(d.gone, DeleteBelow(p, v', a + 1, b).gone);
    }
  }

  // ---- without `..`, what goes is what matched ----

  predicate Plain(p: Path) { forall i :: 0 <= i < |p| ==> !p[i].Descent? }

  function MatchValues(ms: seq<Match>): seq<Json> { if ms == [] then [] else [ms[0].1] + MatchValues(ms[1..]) }

  lemma {:induction false} MatchValuesConcat(a: seq<Match>, b: seq<Match>)
    ensures MatchValues(a + b) == MatchValues(a) + MatchValues(b)
    decreases |a|
  {
    if a == [] {
      assert a + b == b;
    } else {
      assert (a + b)[1..] == a[1..] + b;
      MatchValuesConcat(a[1..], b);
    }
  }

  lemma {:induction false} ListedValues(v: Json, a: nat, b: nat)
    requires a <= b <= Size(v)
    ensures MatchValues(Listed(v, a, b)) == Values(v, a, b)
    decreases b - a
  {
    if a < b {
      ListedValues(v, a + 1, b);
      var m, rest := (Name(v, a), Child(v, a)), Listed(v, a + 1, b);
      assert Listed(v, a, b) == [m] + rest && ([m] + rest)[1..] == rest;
    }
  }

  /** On a path without `..`, deletion removes exactly the values that traversal reports, in that order. */
  lemma {:induction false} PlainDeletion(p: Path, v: Json)
    requires p != [] && Plain(p)
    ensures Deletion(p, v).gone == MatchValues(Meaning(p, v))
    decreases |p|, Depth(v), 1, 0
  {
    hide Range;
    var (a, b) := Range(p[0], v);
    if |p| == 1 {
      ListedValues(v, a, b);
    } else {
      PlainBelow(p[1..], v, v, a, b);
    }
  }

  lemma {:induction false} PlainBelow(p: Path, w: Json, v: Json, a: nat, b: nat)
    requires p != [] && Plain(p) && a <= b <= Size(v) && Size(w) == Size(v) && Depth(w) <= Depth(v)
    requires forall i :: a <= i < b ==> Child(w, i) == Child(v, i)
    ensures DeleteBelow(p, w, a, b).gone == MatchValues(Below(p, v, a, b))
    decreases |p|, Depth(v), 0, b - a
  {
    if a < b {
      var c := Child(v, a);
      ChildDepth(v, a);
      if Container(c) {
        PlainDeletion(p, c);
      }
      var d := if Container(c) then Deletion(p, c) else Deleted(c, []);
      var w' := SetChild(w, a, d.doc);
      SetChildDepth(w, a, d.doc);
      forall i | a + 1 <= i < b
        ensures Child(w', i) == Child(v, i)
      {
        assert Child(w, i) == Child(v, i);
      }
      PlainBelow(p, w', v, a + 1, b);
      MatchValuesConcat(if Container(c) then Meaning(p, c) else [], Below(p, v, a + 1, b));
    }
  }

  // ---- a path that ends in a name matches nothing afterwards ----

  predicate DistinctKeys(ms: seq<(Key, Json)>) { forall i, j :: 0 <= i < j < |ms| ==> ms[i].0 != ms[j].0 }

  /** Every object of the document has distinct keys. */
  predicate WellFormed(v: Json)
    decreases v
  {
    (v.Object? ==> DistinctKeys(v.members)) && forall i :: 0 <= i < Size(v) ==> WellFormed(Child(v, i))
  }

  /** `w` is `v` with some object members taken out, at any depth. */
  predicate Pruned(w: Json, v: Json)
    decreases w, 0
  {
    match w
    case Leaf(_) => w == v
    case Array(items) => v.Array? && |items| == |v.items| && forall i :: 0 <= i < |items| ==> Pruned(items[i], v.items[i])
    case Object(members) =>
      v.Object? && DistinctKeys(members) && forall i :: 0 <= i < |members| ==> HasPruned(members[i].0, members[i].1, v.members)
  }

  predicate HasPruned(key: Key, c: Json, vs: seq<(Key, Json)>)
    decreases c, 1
  {
    exists j :: 0 <= j < |vs| && vs[j].0 == key && Pruned(c, vs[j].1)
  }

  predicate EndsInName(p: Path) { p != [] && p[|p| - 1].Identifier? }

  lemma {:induction false} PrunedWellFormed(w: Json, v: Json)
    requires Pruned(w, v)
    ensures WellFormed(w)
    decreases w
  {
    forall i | 0 <= i < Size(w)
      ensures WellFormed(Child(w, i))
    {
      var c := PrunedAny(w, v, i);
      PrunedWellFormed(Child(w, i), c);
    }
  }

  /** Every child of a pruned document is a pruned child of the original. */
  lemma PrunedAny(w: Json, v: Json, i: nat) returns (c: Json)
    requires Pruned(w, v) && i < Size(w)
    ensures exists j :: 0 <= j < Size(v) && c == Child(v, j) && Name(w, i) == Name(v, j) && Pruned(Child(w, i), c)
    ensures Pruned(Child(w, i), c)
  {
    if w.Array? {
      c := v.items[i];
      assert c == Child(v, i);
    } else {
      assert HasPruned(w.members[i].0, w.members[i].1, v.members);
      var j :| 0 <= j < |v.members| && v.members[j].0 == w.members[i].0 && Pruned(w.members[i].1, v.members[j].1);
      c := v.members[j].1;
      assert c == Child(v, j);
    }
  }

  lemma {:induction false} PrunedRefl(v: Json)
    requires WellFormed(v)
    ensures Pruned(v, v)
    decreases v
  {
    forall i | 0 <= i < Size(v)
      ensures Pruned(Child(v, i), Child(v, i))
    {
      PrunedRefl(Child(v, i));
    }
    if v.Object? {
      forall i | 0 <= i < |v.members|
        ensures HasPruned(v.members[i].0, v.members[i].1, v.members)
      {
        assert v.members[i].1 == Child(v, i);
      }
    } else if v.Array? {
      forall i | 0 <= i < |v.items|
        ensures Pruned(v.items[i], v.items[i])
      {
        assert v.items[i] == Child(v, i);
      }
    }
  }

  lemma {:induction false} PrunedTrans(u: Json, w: Json, v: Json)
    requires Pruned(u, w) && Pruned(w, v)
    ensures Pruned(u, v)
    decreases u
  {
    if u.Array? {
      forall i | 0 <= i < |u.items|
        ensures Pruned(u.items[i], v.items[i])
      {
        PrunedTrans(u.items[i], w.items[i], v.items[i]);
      }
    } else if u.Object? {
      forall i | 0 <= i < |u.members|
        ensures HasPruned(u.members[i].0, u.members[i].1, v.members)
      {
        var key, c := u.members[i].0, u.members[i].1;
        assert HasPruned(key, c, w.members);
        var j :| 0 <= j < |w.members| && w.members[j].0 == key && Pruned(c, w.members[j].1);
        assert HasPruned(w.members[j].0, w.members[j].1, v.members);
        var k :| 0 <= k < |v.members| && v.members[k].0 == key && Pruned(w.members[j].1, v.members[k].1);
        PrunedTrans(c, w.members[j].1, v.members[k].1);
      }
    }
  }

  lemma PrunedSet(v: Json, a: nat, c: Json)
    requires WellFormed(v) && a < Size(v) && Pruned(c, Child(v, a))
    ensures Pruned(SetChild(v, a, c), v)
  {
    var w := SetChild(v, a, c);
    forall i | 0 <= i < Size(v)
      ensures Pruned(Child(w, i), Child(v, i)) && Name(w, i) == Name(v, i)
    {
      assert WellFormed(Child(v, i));
      PrunedRefl(Child(v, i));
    }
    if v.Object? {
      forall i | 0 <= i < |w.members|
        ensures HasPruned(w.members[i].0, w.members[i].1, v.members)
      {
        assert w.members[i].1 == Child(w, i) && Some(w.members[i].0) == Name(w, i);
        assert v.members[i].1 == Child(v, i) && Some(v.members[i].0) == Name(v, i);
      }
    } else {
      forall i | 0 <= i < |w.items|
        ensures Pruned(w.items[i], v.items[i])
      {
        assert w.items[i] == Child(w, i) && v.items[i] == Child(v, i);
      }
    }
  }

  lemma PrunedCut(v: Json, a: nat, b: nat)
    requires WellFormed(v) && v.Object? && a <= b <= Size(v)
    ensures Pruned(Cut(v, a, b), v)
  {
    var w := Cut(v, a, b);
    forall i | 0 <= i < |w.members|
      ensures HasPruned(w.members[i].0, w.members[i].1, v.members)
    {
      var j := if i < a then i else i + b - a;
      assert w.members[i] == v.members[j];
      assert WellFormed(Child(v, j));
      PrunedRefl(v.members[j].1);
    }
    forall i, j | 0 <= i < j < |w.members|
      ensures w.members[i].0 != w.members[j].0
    {
      assert w.members[i] == v.members[if i < a then i else i + b - a];
      assert w.members[j] == v.members[if j < a then j else j + b - a];
    }
  }

  lemma {:induction false} DeletionPruned(p: Path, v: Json)
    requires EndsInName(p) && WellFormed(v)
    ensures Pruned(Deletion(p, v).doc, v)
    decreases |p|, Depth(v), 1, 0
  {
    hide WellFormed, Pruned;
    if |p| == 1 {
      var (a, b) := Range(p[0], v);
      if v.Object? {
        PrunedCut(v, a, b);
      } else {
        PrunedRefl(v);
        assert Cut(v, 0, 0) == v;
      }
    } else if p[0].Descent? {
      var w := v;
      if Container(v) {
        DeletionPruned(p[1..], v);
        w := Deletion(p[1..], v).doc;
        PrunedWellFormed(w, v);
      } else {
        PrunedRefl(v);
      }
      DeleteBelowPruned(p, w, 0, Size(w));
      PrunedTrans(DeleteBelow(p, w, 0, Size(w)).doc, w, v);
    } else {
      DeleteBelowPruned(p[1..], v, Range(p[0], v).0, Range(p[0], v).1);
    }
  }

  lemma {:induction false} DeleteBelowPruned(p: Path, v: Json, a: nat, b: nat)
    requires EndsInName(p) && WellFormed(v) && a <= b <= Size(v)
    ensures Pruned(DeleteBelow(p, v, a, b).doc, v)
    decreases |p|, Depth(v), 0, b - a
  {
    hide Pruned, Depth;
    if a == b {
      PrunedRefl(v);
    } else {
      var c := Child(v, a);
      assert WellFormed(c);
      ChildDepth(v, a);
      var c' := After(p, c);
      if Container(c) {
        DeletionPruned(p, c);
      } else {
        PrunedRefl(c);
      }
      PrunedSet(v, a, c');
      SetChildDepth(v, a, c');
      var v' := SetChild(v, a, c');
      PrunedWellFormed(v', v);
      DeleteBelowPruned(p, v', a + 1, b);
      PrunedTrans(DeleteBelow(p, v', a + 1, b).doc, v', v);
    }
  }

  // ---- emptiness ----

  predicate Silent(p: Path, c: Json)
    requires p != []
  {
    Container(c) ==> Meaning(p, c) == []
  }

  lemma {:induction false} BelowSilent(p: Path, v: Json, a: nat, b: nat)
    requires p != [] && a <= b <= Size(v)
    ensures Below(p, v, a, b) == [] <==> forall i :: a <= i < b ==> Silent(p, Child(v, i))
    decreases b - a
  {
    hide Meaning;
    if a < b {
      BelowSilent(p, v, a + 1, b);
    }
  }

  /** A child that a segment selects in a pruned document is a pruned child that it selects in the original. */
  lemma PrunedSelected(seg: Segment, w: Json, v: Json, i: nat) returns (j: nat)
    requires Pruned(w, v) && WellFormed(v) && Range(seg, w).0 <= i < Range(seg, w).1
    ensures Range(seg, v).0 <= j < Range(seg, v).1 && Pruned(Child(w, i), Child(v, j))
  {
    var c := PrunedAny(w, v, i);
    j :| 0 <= j < Size(v) && c == Child(v, j) && Name(w, i) == Name(v, j) && Pruned(Child(w, i), c);
    if w.Array? {
      j := i;
      assert Pruned(w.items[i], v.items[i]);
    } else if seg.Identifier? {
      var k := Find(v.members, seg.key);
      assert v.members[j].0 == seg.key;
      assert k.Some? && v.members[k.value].0 == seg.key;
    }
  }

  lemma PrunedKind(w: Json, v: Json)
    requires Pruned(w, v)
    ensures Container(w) == Container(v)
  {
  }

  /** Taking members out never makes a path ending in a name match where it did not. */
  lemma {:induction false} PrunedEmpty(p: Path, w: Json, v: Json)
    requires EndsInName(p) && Pruned(w, v) && WellFormed(v) && Meaning(p, v) == []
    ensures Meaning(p, w) == []
    decreases |p|, w
  {
    var seg := p[0];
    if |p| == 1 {
      if Range(seg, w).0 < Range(seg, w).1 {
        var j := PrunedSelected(seg, w, v, Range(seg, w).0);
      }
    } else if seg.Descent? {
      PrunedKind(w, v);
      if Container(v) {
        PrunedEmpty(p[1..], w, v);
      }
      PrunedBelowEmpty(p, seg, w, v);
    } else {
      PrunedBelowEmpty(p[1..], seg, w, v);
    }
  }

  lemma {:induction false} PrunedBelowEmpty(p: Path, seg: Segment, w: Json, v: Json)
    requires EndsInName(p) && Pruned(w, v) && WellFormed(v) && Below(p, v, Range(seg, v).0, Range(seg, v).1) == []
    ensures Below(p, w, Range(seg, w).0, Range(seg, w).1) == []
    decreases |p|, w, 0
  {
    hide Range;
    BelowSilent(p, v, Range(seg, v).0, Range(seg, v).1);
    forall i | Range(seg, w).0 <= i < Range(seg, w).1
      ensures Silent(p, Child(w, i))
    {
      var j := PrunedSelected(seg, w, v, i);
      assert Silent(p, Child(v, j)) && WellFormed(Child(v, j));
      PrunedKind(Child(w, i), Child(v, j));
      if Container(Child(w, i)) {
        PrunedEmpty(p, Child(w, i), Child(v, j));
      }
    }
    BelowSilent(p, w, Range(seg, w).0, Range(seg, w).1);
  }

  /** After deleting along a path that ends in a name, nothing matches the path any more. */
  lemma {:induction false} NothingLeft(p: Path, v: Json)
    requires EndsInName(p) && WellFormed(v)
    ensures Meaning(p, Deletion(p, v).doc) == []
    decreases |p|, Depth(v)
  {
    if |p| == 1 {
      NameGone(p[0].key, v);
    } else if p[0].Descent? {
      DescentGone(p, v);
    } else {
      PlainGone(p, v);
    }
  }

  lemma NameGone(key: Key, v: Json)
    requires WellFormed(v)
    ensures Last(Identifier(key), DeleteLast(Identifier(key), v).doc) == []
  {
    if v.Object? && Find(v.members, key).Some? {
      var i := Find(v.members, key).value;
      var w := Cut(v, i, i + 1);
      forall j | 0 <= j < |w.members|
        ensures w.members[j].0 != key
      {
        assert w.members[j] == v.members[if j < i then j else j + 1];
      }
    }
  }

  lemma {:induction false} PlainGone(p: Path, v: Json)
    requires EndsInName(p) && |p| > 1 && !p[0].Descent? && WellFormed(v)
    ensures Meaning(p, Deletion(p, v).doc) == []
    decreases |p|, Depth(v), 0
  {
    hide Range, Depth;
    var (a, b) := Range(p[0], v);
    var q := p[1..];
    var w := DeleteBelow(q, v, a, b).doc;
    DeleteBelowAt(q, v, a, b);
    RangeSame(p[0], w, v);
    forall i | a <= i < b
      ensures Silent(q, Child(w, i))
    {
      ChildGone(q, v, w, i, a, b);
    }
    BelowSilent(q, w, a, b);
  }

  lemma {:induction false} ChildGone(q: Path, v: Json, w: Json, i: nat, a: nat, b: nat)
    requires EndsInName(q) && WellFormed(v) && a <= i < b <= Size(v) && Size(w) == Size(v)
    requires Child(w, i) == After(q, Child(v, i))
    ensures Silent(q, Child(w, i))
    decreases |q|, Depth(v), 1
  {
    var c := Child(v, i);
    assert WellFormed(c);
    ChildDepth(v, i);
    if Container(c) {
      NothingLeft(q, c);
    }
  }

  lemma {:induction false} DescentGone(p: Path, v: Json)
    requires EndsInName(p) && |p| > 1 && p[0].Descent? && WellFormed(v)
    ensures Meaning(p, Deletion(p, v).doc) == []
    decreases |p|, Depth(v), 2
  {
    hide Pruned, Depth;
    var q := p[1..];
    var u := v;
    if Container(v) {
      NothingLeft(q, v);
      DeletionPruned(q, v);
      u := Deletion(q, v).doc;
      PrunedWellFormed(u, v);
    }
    var n := Size(u);
    var w := DeleteBelow(p, u, 0, n).doc;
    DeleteBelowAt(p, u, 0, n);
    if Container(v) {
      DeleteBelowPruned(p, u, 0, n);
      PrunedEmpty(q, w, u);
    }
    forall i | 0 <= i < n
      ensures Silent(p, Child(w, i))
    {
      ChildGone(p, u, w, i, 0, n);
    }
    BelowSilent(p, w, 0, n);
  }
}
