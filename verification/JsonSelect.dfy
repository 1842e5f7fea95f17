/**
 Which children a path segment selects, one position at a time (src/core/jsonpath.rs): names, single
 indexes counted from either end, slices with clamped bounds, and wildcards.
 */
module JsonSelect {
  import opened Bits
  import opened JsonPathSpec

  /** Position `j` of `len` is at or after `first`, which counts from the end when it is negative. */
  predicate AtOrAfter(j: int, first: int, len: int) { if first >= 0 then j >= first else j - len >= first }

  /** Position `j` of `len` is at or before `second`; a bound before the start means the start. */
  predicate AtOrBefore(j: int, second: int, len: int) { if second >= 0 then j <= second else j == 0 || j - len <= second }

  /** Whether a segment selects child `j`: written on positions and names alone. */
  predicate Selects(seg: Segment, v: Json, j: nat)
    requires j < Size(v)
  {
    match seg
    case Identifier(key) => v.Object? && v.members[j].0 == key && forall i :: j < i < |v.members| ==> v.members[i].0 != key
    case Index(e) => v.Array? && AtOrAfter(j, e.first, |v.items|) && AtOrBefore(j, e.second, |v.items|)
    case Wildcard => true
    case Descent => true
    case Function => false
  }

  lemma {:induction false} FindsLast(ms: seq<(Key, Json)>, key: Key)
    ensures Find(ms, key).Some? ==> forall i :: Find(ms, key).value < i < |ms| ==> ms[i].0 != key
    decreases |ms|
  {
    if ms != [] && ms[|ms| - 1].0 != key {
      FindsLast(ms[..|ms| - 1], key);
    }
  }

  lemma NormalizeSelects(e: IndexExpr, len: nat, j: nat)
    requires j < len
    ensures var r := Normalize(e, len);
            (r.Some? && r.value.0 <= j <= r.value.1) <==> AtOrAfter(j, e.first, len) && AtOrBefore(j, e.second, len)
  {
  }

  /** The range of a segment holds exactly the children it selects. */
  lemma RangeSelects(seg: Segment, v: Json, j: nat)
    requires j < Size(v)
    ensures Range(seg, v).0 <= j < Range(seg, v).1 <==> Selects(seg, v, j)
  {
    hide Normalize, AtOrAfter, AtOrBefore;
    match seg {
      case Identifier(key) =>
        if v.Object? {
          FindsLast(v.members, key);
        }
      case Index(e) =>
        if v.Array? {
          NormalizeSelects(e, |v.items|, j);
        }
      case Wildcard =>
      case Descent =>
      case Function =>
    }
  }

  /** The selected children from `j` on, in order, each with its name. */
  function Chosen(seg: Segment, v: Json, j: nat): seq<Match>
    requires j <= Size(v)
    decreases Size(v) - j
  {
    if j == Size(v) then [] else
    (if Selects(seg, v, j) then
       [if v.Array? then (None, v.items[j]) else (Some(v.members[j].0), v.members[j].1)]
     else []) + Chosen(seg, v, j + 1)
  }

  lemma {:induction false} ListedChosen(seg: Segment, v: Json, j: nat)
    requires j <= Size(v)
    ensures var (a, b) := Range(seg, v);
            Chosen(seg, v, j) == if j <= a then Listed(v, a, b) else if j <= b then Listed(v, j, b) else []
    decreases Size(v) - j
  {
    hide Range, Selects, Listed, Chosen, Name, Child, Size;
    var (a, b) := Range(seg, v);
    ListedEnds(v, a, b);
    ChosenStep(seg, v, j);
    if j < Size(v) {
      ListedChosen(seg, v, j + 1);
      RangeSelects(seg, v, j);
      if a <= j < b {
        ListedStep(v, j, b);
      }
    }
  }

  lemma ChosenStep(seg: Segment, v: Json, j: nat)
    requires j <= Size(v)
    ensures j == Size(v) ==> Chosen(seg, v, j) == []
    ensures j < Size(v) && Selects(seg, v, j) ==> Chosen(seg, v, j) == [(Name(v, j), Child(v, j))] + Chosen(seg, v, j + 1)
    ensures j < Size(v) && !Selects(seg, v, j) ==> Chosen(seg, v, j) == Chosen(seg, v, j + 1)
  {
    hide Selects;
    if j < Size(v) {
      assert [] + Chosen(seg, v, j + 1) == Chosen(seg, v, j + 1);
    }
  }

  lemma ListedStep(v: Json, a: nat, b: nat)
    requires a < b <= Size(v)
    ensures Listed(v, a, b) == [(Name(v, a), Child(v, a))] + Listed(v, a + 1, b)
  {
  }

  lemma ListedEnds(v: Json, a: nat, b: nat)
    requires a <= b <= Size(v)
    ensures Listed(v, a, a) == [] && Listed(v, b, b) == []
  {
  }

  /** The last segment of a path reports exactly the children it selects. */
  lemma StepReports(seg: Segment, v: Json)
    ensures Last(seg, v) == Chosen(seg, v, 0)
  {
    ListedChosen(seg, v, 0);
  }

  // ---- earlier segments ----

  /** The matches of `p` on the selected children of `v` from `j` on that can be entered. */
  function Through(seg: Segment, p: Path, v: Json, j: nat): seq<Match>
    requires p != [] && j <= Size(v)
    decreases Size(v) - j
  {
    if j == Size(v) then [] else
    (if Selects(seg, v, j) && !Child(v, j).Leaf? then Meaning(p, Child(v, j)) else []) + Through(seg, p, v, j + 1)
  }

  lemma {:induction false} BelowThrough(seg: Segment, p: Path, v: Json, j: nat)
    requires p != [] && j <= Size(v)
    ensures var (a, b) := Range(seg, v);
            Through(seg, p, v, j) == if j <= a then Below(p, v, a, b) else if j <= b then Below(p, v, j, b) else []
    decreases Size(v) - j
  {
    hide Range, Selects, Meaning, Below, Through, Child, Size;
    var (a, b) := Range(seg, v);
    BelowEnds(p, v, a, b);
    ThroughStep(seg, p, v, j);
    if j < Size(v) {
      BelowThrough(seg, p, v, j + 1);
      RangeSelects(seg, v, j);
      if a <= j < b {
        BelowFirst(p, v, j, b);
      }
    }
  }

  lemma ThroughStep(seg: Segment, p: Path, v: Json, j: nat)
    requires p != [] && j <= Size(v)
    ensures j == Size(v) ==> Through(seg, p, v, j) == []
    ensures j < Size(v) && Selects(seg, v, j) ==>
              Through(seg, p, v, j) == (if Child(v, j).Leaf? then [] else Meaning(p, Child(v, j))) + Through(seg, p, v, j + 1)
    ensures j < Size(v) && !Selects(seg, v, j) ==> Through(seg, p, v, j) == Through(seg, p, v, j + 1)
  {
    hide Selects, Meaning;
    if j < Size(v) {
      assert [] + Through(seg, p, v, j + 1) == Through(seg, p, v, j + 1);
    }
  }

  lemma BelowFirst(p: Path, v: Json, a: nat, b: nat)
    requires p != [] && a < b <= Size(v)
    ensures Below(p, v, a, b) == (if Child(v, a).Leaf? then [] else Meaning(p, Child(v, a))) + Below(p, v, a + 1, b)
  {
    hide Meaning;
  }

  lemma BelowEnds(p: Path, v: Json, a: nat, b: nat)
    requires p != [] && a <= b <= Size(v)
    ensures Below(p, v, a, a) == [] && Below(p, v, b, b) == []
  {
    hide Meaning;
  }

  /**
   A segment before the last passes the rest of the path on to exactly the children it selects; `..`
   applies the rest at an array or object itself and passes the whole path on to every child.
   */
  lemma StepPasses(p: Path, v: Json)
    requires |p| > 1
    ensures !p[0].Descent? ==> Meaning(p, v) == Through(p[0], p[1..], v, 0)
    ensures p[0].Descent? ==> Meaning(p, v) == (if v.Leaf? then [] else Meaning(p[1..], v)) + Through(Wildcard, p, v, 0)
  {
    if p[0].Descent? {
      BelowThrough(Wildcard, p, v, 0);
    } else {
      BelowThrough(p[0], p[1..], v, 0);
    }
  }

  // ---- single indexes ----

  /** Index `k` reports the item at `k`, index `-k` the one `k` before the end, and an index past the end nothing. */
  lemma SingleIndex(items: seq<Json>, k: int)
    requires k >= 0
    ensures k < |items| ==> Matches([Index(IndexExpr(k, k))], Array(items)) == [(None, items[k])]
    ensures k >= |items| ==> Matches([Index(IndexExpr(k, k))], Array(items)) == []
    ensures 1 <= k <= |items| ==> Matches([Index(IndexExpr(-k, -k))], Array(items)) == [(None, items[|items| - k])]
    ensures k > |items| > 0 ==> Matches([Index(IndexExpr(-k, -k))], Array(items)) == [(None, items[0])]
    ensures items == [] ==> Matches([Index(IndexExpr(-k, -k))], Array(items)) == []
  {
    hide Listed;
    var v := Array(items);
    if k < |items| {
      ListedOne(v, k);
    }
    if 1 <= k <= |items| {
      ListedOne(v, |items| - k);
    }
    if k > |items| > 0 {
      ListedOne(v, 0);
    }
    ListedNone(v);
  }

  lemma ListedOne(v: Json, a: nat)
    requires v.Array? && a < |v.items|
    ensures Listed(v, a, a + 1) == [(None, v.items[a])]
  {
  }

  lemma ListedNone(v: Json)
    ensures Listed(v, 0, 0) == []
  {
  }

  /** A slice reports the items from its lower to its upper bound, both included and clamped into the array. */
  lemma SliceReports(items: seq<Json>, first: int, second: int)
    ensures var out := Matches([Index(IndexExpr(first, second))], Array(items));
            && |out| <= |items|
            && (forall j :: 0 <= j < |items| && AtOrAfter(j, first, |items|) && AtOrBefore(j, second, |items|) ==> (None, items[j]) in out)
            && (forall m :: m in out ==>
                  exists j :: 0 <= j < |items| && AtOrAfter(j, first, |items|) && AtOrBefore(j, second, |items|) && m == (None, items[j]))
  {
    var seg, v := Index(IndexExpr(first, second)), Array(items);
    var (a, b) := Range(seg, v);
    hide Range, Normalize, AtOrAfter, AtOrBefore;
    ListedAt(v, a, b);
    forall j | 0 <= j < |items|
      ensures a <= j < b <==> AtOrAfter(j, first, |items|) && AtOrBefore(j, second, |items|)
    {
      RangeSelects(seg, v, j);
    }
    var out := Listed(v, a, b);
    forall j | a <= j < b
      ensures (None, items[j]) in out
    {
      assert out[j - a] == (None, items[j]);
    }
  }

  lemma {:induction false} ListedAt(v: Json, a: nat, b: nat)
    requires v.Array? && a <= b <= |v.items|
    ensures forall i :: 0 <= i < b - a ==> Listed(v, a, b)[i] == (None, v.items[a + i])
    decreases b - a
  {
    if a < b {
      ListedAt(v, a + 1, b);
      forall i | 0 < i < b - a
        ensures Listed(v, a, b)[i] == (None, v.items[a + i])
      {
        assert Listed(v, a, b)[i] == Listed(v, a + 1, b)[i - 1];
      }
    }
  }

  // ---- deleting ----

  /** The children from `j` on that the segment does not select, in order, each with its name. */
  function Kept(seg: Segment, v: Json, j: nat): seq<Match>
    requires j <= Size(v)
    decreases Size(v) - j
  {
    if j == Size(v) then [] else
    (if Selects(seg, v, j) then [] else
       [if v.Array? then (None, v.items[j]) else (Some(v.members[j].0), v.members[j].1)]) + Kept(seg, v, j + 1)
  }

  lemma KeptStep(seg: Segment, v: Json, j: nat)
    requires j <= Size(v)
    ensures j == Size(v) ==> Kept(seg, v, j) == []
    ensures j < Size(v) && !Selects(seg, v, j) ==> Kept(seg, v, j) == [(Name(v, j), Child(v, j))] + Kept(seg, v, j + 1)
    ensures j < Size(v) && Selects(seg, v, j) ==> Kept(seg, v, j) == Kept(seg, v, j + 1)
  {
    hide Selects;
    if j < Size(v) {
      assert [] + Kept(seg, v, j + 1) == Kept(seg, v, j + 1);
    }
  }

  lemma {:induction false} ListedKept(seg: Segment, v: Json, j: nat)
    requires j <= Size(v)
    ensures var (a, b) := Range(seg, v);
            Kept(seg, v, j) ==
            if j <= a then Listed(v, j, a) + Listed(v, b, Size(v)) else if j <= b then Listed(v, b, Size(v)) else Listed(v, j, Size(v))
    decreases Size(v) - j
  {
    hide Range, Selects, Listed, Kept, Name, Child, Size;
    var n := Size(v);
    var (a, b) := Range(seg, v);
    ListedEnds(v, a, n);
    KeptStep(seg, v, j);
    assert [] + Listed(v, b, n) == Listed(v, b, n);
    if j < n {
      ListedKept(seg, v, j + 1);
      RangeSelects(seg, v, j);
      if j < a {
        ListedStep(v, j, a);
        var head := [(Name(v, j), Child(v, j))];
        assert head + Listed(v, j + 1, a) + Listed(v, b, n) == head + (Listed(v, j + 1, a) + Listed(v, b, n));
      } else if b <= j {
        ListedStep(v, j, n);
      }
    }
  }

  ghost predicate SameChild(w: Json, v: Json, i: nat, d: nat) {
    i < Size(w) && i + d < Size(v) && Name(w, i) == Name(v, i + d) && Child(w, i) == Child(v, i + d)
  }

  /** The children of `w` from `i` up to `n` are those of `v`, `d` positions later. */
  lemma {:induction false} ListedSame(w: Json, i: nat, n: nat, v: Json, d: nat)
    requires i <= n <= Size(w) && n + d <= Size(v) && forall k :: i <= k < n ==> SameChild(w, v, k, d)
    ensures Listed(w, i, n) == Listed(v, i + d, n + d)
    decreases n - i
  {
    if i < n {
      assert SameChild(w, v, i, d);
      ListedSame(w, i + 1, n, v, d);
    }
  }

  lemma {:induction false} ListedSplit(v: Json, a: nat, m: nat, b: nat)
    requires a <= m <= b <= Size(v)
    ensures Listed(v, a, b) == Listed(v, a, m) + Listed(v, m, b)
    decreases m - a
  {
    if a < m {
      ListedSplit(v, a + 1, m, b);
      var head := [(Name(v, a), Child(v, a))];
      assert head + (Listed(v, a + 1, m) + Listed(v, m, b)) == head + Listed(v, a + 1, m) + Listed(v, m, b);
    }
  }

  lemma ListedCut(v: Json, a: nat, b: nat)
    requires a <= b <= Size(v)
    ensures var w := Cut(v, a, b); Listed(w, 0, Size(w)) == Listed(v, 0, a) + Listed(v, b, Size(v))
  {
    hide Listed;
    var w := Cut(v, a, b);
    ListedSplit(w, 0, a, Size(w));
    ListedSame(w, 0, a, v, 0);
    ListedSame(w, a, Size(w), v, b - a);
  }

  /** Deleting by the last segment keeps exactly the children it does not select, and takes out those it does. */
  lemma DeleteKeeps(seg: Segment, v: Json)
    ensures var d := DeleteLast(seg, v);
            && d.doc.Array? == v.Array? && d.doc.Object? == v.Object?
            && Listed(d.doc, 0, Size(d.doc)) == Kept(seg, v, 0)
            && |d.gone| == |Chosen(seg, v, 0)| && forall i :: 0 <= i < |d.gone| ==> d.gone[i] == Chosen(seg, v, 0)[i].1
  {
    hide Range, Kept, Chosen;
    var (a, b) := Range(seg, v);
    ListedKept(seg, v, 0);
    ListedCut(v, a, b);
    ListedChosen(seg, v, 0);
    ValuesListed(v, a, b);
  }

  lemma {:induction false} ValuesListed(v: Json, a: nat, b: nat)
    requires a <= b <= Size(v)
    ensures forall i :: 0 <= i < b - a ==> Values(v, a, b)[i] == Listed(v, a, b)[i].1
    decreases b - a
  {
    if a < b {
      ValuesListed(v, a + 1, b);
      forall i | 0 < i < b - a
        ensures Values(v, a, b)[i] == Listed(v, a, b)[i].1
      {
        assert Values(v, a + 1, b)[i - 1] == Listed(v, a + 1, b)[i - 1].1;
      }
    }
  }
}
