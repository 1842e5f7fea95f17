/**
 JSONPath evaluation (src/core/jsonpath.rs): what a path means on a document, as a recursion over
 path and document, and what deleting along a path does.
 */
module JsonPathSpec {
  import opened Bits

  type Key = string

  /** A document; `Leaf` stands for every scalar. Object members have distinct keys. */
  datatype Json = Leaf(value: int) | Array(items: seq<Json>) | Object(members: seq<(Key, Json)>)

  datatype IndexExpr = IndexExpr(first: int, second: int)

  datatype Segment = Identifier(key: Key) | Index(expr: IndexExpr) | Wildcard | Descent | Function

  type Path = seq<Segment>

  /** A reported match: the member name, if it was reached by a wildcard or a name, and the value. */
  type Match = (Option<Key>, Json)

  predicate Container(v: Json) { !v.Leaf? }

  function Size(v: Json): nat {
    match v
    case Leaf(_) => 0
    case Array(items) => |items|
    case Object(members) => |members|
  }

  function Child(v: Json, i: nat): (c: Json)
    requires i < Size(v)
    ensures c < v
  {
    if v.Array? then v.items[i] else v.members[i].1
  }

  function Name(v: Json, i: nat): Option<Key>
    requires i < Size(v)
  {
    if v.Array? then None else Some(v.members[i].0)
  }

  function Find(ms: seq<(Key, Json)>, key: Key): (r: Option<nat>)
    ensures r.Some? ==> r.value < |ms| && ms[r.value].0 == key
    ensures r.None? ==> forall i :: 0 <= i < |ms| ==> ms[i].0 != key
  {
    if ms == [] then None
    else if ms[|ms| - 1].0 == key then Some(|ms| - 1)
    else Find(ms[..|ms| - 1], key)
  }

  // ---- index ranges ----

  function FromEnd(negative: int, len: nat): (i: nat)
    requires negative < 0 < len
    ensures i < len
  {
    if -negative > len then 0 else len + negative
  }

  /** The closed range of positions an index expression selects in an array of length `len`. */
  function Normalize(e: IndexExpr, len: nat): (r: Option<(nat, nat)>)
    ensures r.Some? ==> r.value.0 <= r.value.1 < len
  {
    if len == 0 then None
    else
      var second := if e.second >= len then len - 1 else if e.second < 0 then FromEnd(e.second, len) else e.second;
      var first := if e.first < 0 then FromEnd(e.first, len) else e.first;
      if first > second then None else Some((first, second))
  }

  /** The half-open range of children of `v` that a segment selects. */
  function Range(seg: Segment, v: Json): (r: (nat, nat))
    ensures r.0 <= r.1 <= Size(v)
  {
    match seg
    case Identifier(key) =>
      if !v.Object? then (0, 0) else
      var i := Find(v.members, key);
      if i.None? then (0, 0) else (i.value, i.value + 1)
    case Index(e) =>
      if !v.Array? then (0, 0) else
      var r := Normalize(e, |v.items|);
      if r.None? then (0, 0) else (r.value.0, r.value.1 + 1)
    case Wildcard => (0, Size(v))
    case Descent => (0, Size(v))
    case Function => (0, 0)
  }

  // ---- the meaning of a path ----

  /** The children of `v` from `a` up to `b`, as matches. */
  function Listed(v: Json, a: nat, b: nat): (s: seq<Match>)
    requires a <= b <= Size(v)
    ensures |s| == b - a
    decreases b - a
  {
    if a == b then [] else [(Name(v, a), Child(v, a))] + Listed(v, a + 1, b)
  }

  /** What the last segment of a path reports on a node it is applied to. */
  function Last(seg: Segment, v: Json): seq<Match> { Listed(v, Range(seg, v).0, Range(seg, v).1) }

  /**
   The matches of `p` on `v` in order. `..` matches at the node itself before its descendants; only
   arrays and objects are descended into.
   */
  function Meaning(p: Path, v: Json): seq<Match>
    requires p != []
    decreases |p|, v, 1, 0
  {
    if |p| == 1 then Last(p[0], v)
    else if p[0].Descent? then
      (if Container(v) then Meaning(p[1..], v) else []) + Below(p, v, 0, Size(v))
    else
      Below(p[1..], v, Range(p[0], v).0, Range(p[0], v).1)
  }

  /** The matches of `p` on the children of `v` from `a` up to `b`. */
  function Below(p: Path, v: Json, a: nat, b: nat): seq<Match>
    requires p != [] && a <= b <= Size(v)
    decreases |p|, v, 0, b - a
  {
    if a == b then []
    else (if Container(Child(v, a)) then Meaning(p, Child(v, a)) else []) + Below(p, v, a + 1, b)
  }

  /** An empty path matches the document itself. */
  function Matches(p: Path, v: Json): seq<Match> { if p == [] then [(None, v)] else Meaning(p, v) }

  // ---- deleting ----

  function SetChild(v: Json, i: nat, c: Json): (r: Json)
    requires i < Size(v)
    ensures Size(r) == Size(v) && Container(r)
  {
    if v.Array? then Array(v.items[i := c]) else Object(v.members[i := (v.members[i].0, c)])
  }

  /** `v` without its children from `a` up to `b`. */
  function Cut(v: Json, a: nat, b: nat): (r: Json)
    requires a <= b <= Size(v)
  {
    match v
    case Leaf(_) => v
    case Array(items) => Array(items[..a] + items[b..])
    case Object(members) => Object(members[..a] + members[b..])
  }

  /** A document after deletions, and the values deleted, in order. */
  datatype Deleted = Deleted(doc: Json, gone: seq<Json>)

  function Values(v: Json, a: nat, b: nat): (s: seq<Json>)
    requires a <= b <= Size(v)
    ensures |s| == b - a
    decreases b - a
  {
    if a == b then [] else [Child(v, a)] + Values(v, a + 1, b)
  }

  function DeleteLast(seg: Segment, v: Json): Deleted {
    var r := Range(seg, v);
    Deleted(Cut(v, r.0, r.1), Values(v, r.0, r.1))
  }

  function And(d: Deleted, gone: seq<Json>): Deleted { Deleted(d.doc, gone + d.gone) }

  /** Deleting along `p`: the children visited later are those the earlier deletions left. */
  function Deletion(p: Path, v: Json): (d: Deleted)
    requires p != []
    ensures d.doc == v || (Container(v) && Container(d.doc) && Depth(d.doc) <= Depth(v))
    decreases |p|, Depth(v), 1, 0
  {
    if |p| == 1 then CutDepth(v, Range(p[0], v).0, Range(p[0], v).1); DeleteLast(p[0], v)
    else if p[0].Descent? then
      var first := if Container(v) then Deletion(p[1..], v) else Deleted(v, []);
      And(DeleteBelow(p, first.doc, 0, Size(first.doc)), first.gone)
    else
      DeleteBelow(p[1..], v, Range(p[0], v).0, Range(p[0], v).1)
  }

  function DeleteBelow(p: Path, v: Json, a: nat, b: nat): (d: Deleted)
    requires p != [] && a <= b <= Size(v)
    ensures d.doc == v || (Container(v) && Container(d.doc) && Depth(d.doc) <= Depth(v))
    ensures Size(d.doc) == Size(v)
    decreases |p|, Depth(v), 0, b - a
  {
    if a == b then Deleted(v, [])
    else
      var c := Child(v, a);
      ChildDepth(v, a);
      var d := if Container(c) then Deletion(p, c) else Deleted(c, []);
      SetChildDepth(v, a, d.doc);
      var v' := SetChild(v, a, d.doc);
      var rest := DeleteBelow(p, v', a + 1, b);
      And(rest, d.gone)
  }

  // ---- nesting depth, the measure that deletion does not increase ----

  function Depth(v: Json): nat
    decreases v, 1, 0
  {
    if v.Leaf? then 0 else 1 + MaxDepth(v, Size(v))
  }

  function MaxDepth(v: Json, n: nat): nat
    requires n <= Size(v)
    decreases v, 0, n
  {
    if n == 0 then 0 else
    var d, m := Depth(Child(v, n - 1)), MaxDepth(v, n - 1);
    if d > m then d else m
  }

  lemma {:induction false} MaxDepthAt(v: Json, n: nat, i: nat)
    requires i < n <= Size(v)
    ensures Depth(Child(v, i)) <= MaxDepth(v, n)
    decreases n
  {
    if i < n - 1 { MaxDepthAt(v, n - 1, i); }
  }

  lemma ChildDepth(v: Json, i: nat)
    requires i < Size(v)
    ensures Depth(Child(v, i)) < Depth(v)
  {
    MaxDepthAt(v, Size(v), i);
  }

  lemma {:induction false} MaxDepthBound(v: Json, n: nat, m: nat)
    requires n <= Size(v) && forall i :: 0 <= i < n ==> Depth(Child(v, i)) <= m
    ensures MaxDepth(v, n) <= m
    decreases n
  {
    if n > 0 { MaxDepthBound(v, n - 1, m); }
  }

  lemma SetChildDepth(v: Json, a: nat, c: Json)
    requires a < Size(v) && Depth(c) <= Depth(Child(v, a))
    ensures Depth(SetChild(v, a, c)) <= Depth(v)
  {
    var r := SetChild(v, a, c);
    forall i | 0 <= i < Size(r)
      ensures Depth(Child(r, i)) <= Depth(v) - 1
    {
      ChildDepth(v, i);
      assert Child(r, i) == if i == a then c else Child(v, i);
    }
    MaxDepthBound(r, Size(r), Depth(v) - 1);
  }

  lemma CutDepth(v: Json, a: nat, b: nat)
    requires a <= b <= Size(v)
    ensures Depth(Cut(v, a, b)) <= Depth(v)
  {
    var r := Cut(v, a, b);
    if Container(v) {
      forall i | 0 <= i < Size(r)
        ensures Depth(Child(r, i)) <= Depth(v) - 1
      {
        ChildDepth(v, if i < a then i else i + b - a);
        assert Child(r, i) == Child(v, if i < a then i else i + b - a);
      }
      MaxDepthBound(r, Size(r), Depth(v) - 1);
    }
  }
}
