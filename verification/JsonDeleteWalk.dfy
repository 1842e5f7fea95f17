/**
 The deleting walk of src/core/jsonpath.rs: frames hold locations into a document that changes under
 them. No location ever goes stale, and the walk computes the recursive deletion.
 */
module JsonDeleteWalk {
  import opened Bits
  import opened JsonPathSpec
  import opened JsonWalk
  import opened JsonDelete

  // ---- locations ----

  datatype Step = Member(key: Key) | Element(index: nat)

  type Location = seq<Step>

  function Resolve(v: Json, s: Step): (r: Option<nat>)
    ensures r.Some? ==> r.value < Size(v)
  {
    match s
    case Member(key) => if v.Object? then Find(v.members, key) else None
    case Element(i) => if v.Array? && i < |v.items| then Some(i) else None
  }

  function StepTo(v: Json, i: nat): Step
    requires i < Size(v)
  {
    if v.Array? then Element(i) else Member(v.members[i].0)
  }

  /** The node at a location; None when the location is stale. */
  function NodeAt(root: Json, loc: Location): Option<Json>
    decreases |loc|
  {
    if loc == [] then Some(root) else
    var i := Resolve(root, loc[0]);
    if i.None? then None else NodeAt(Child(root, i.value), loc[1..])
  }

  /** The document with the node at a location replaced. */
  function PutAt(root: Json, loc: Location, x: Json): Json
    requires NodeAt(root, loc).Some?
    decreases |loc|
  {
    if loc == [] then x else
    var i := Resolve(root, loc[0]).value;
    SetChild(root, i, PutAt(Child(root, i), loc[1..], x))
  }

  lemma SetChildResolves(v: Json, i: nat, c: Json, s: Step)
    requires i < Size(v)
    ensures Resolve(SetChild(v, i, c), s) == Resolve(v, s)
    ensures Child(SetChild(v, i, c), i) == c
  {
    if v.Object? && s.Member? {
      FindSame(SetChild(v, i, c).members, v.members, s.key);
    }
  }

  lemma {:induction false} PutAtReads(root: Json, loc: Location, x: Json)
    requires NodeAt(root, loc).Some?
    ensures NodeAt(PutAt(root, loc, x), loc) == Some(x)
    decreases |loc|
  {
    if loc != [] {
      var i := Resolve(root, loc[0]).value;
      PutAtReads(Child(root, i), loc[1..], x);
      SetChildResolves(root, i, PutAt(Child(root, i), loc[1..], x), loc[0]);
    }
  }

  lemma {:induction false} PutAtTwice(root: Json, loc: Location, x: Json, y: Json)
    requires NodeAt(root, loc).Some?
    ensures NodeAt(PutAt(root, loc, x), loc).Some? && PutAt(PutAt(root, loc, x), loc, y) == PutAt(root, loc, y)
    decreases |loc|
  {
    PutAtReads(root, loc, x);
    if loc != [] {
      var i := Resolve(root, loc[0]).value;
      var c := PutAt(Child(root, i), loc[1..], x);
      PutAtTwice(Child(root, i), loc[1..], x, y);
      SetChildResolves(root, i, c, loc[0]);
      SetTwice(root, i, c, PutAt(Child(root, i), loc[1..], y));
    }
  }

  lemma SetTwice(v: Json, i: nat, c: Json, d: Json)
    requires i < Size(v)
    ensures SetChild(SetChild(v, i, c), i, d) == SetChild(v, i, d)
  {
    if v.Array? {
      assert v.items[i := c][i := d] == v.items[i := d];
    } else {
      assert v.members[i := (v.members[i].0, c)][i := (v.members[i].0, d)] == v.members[i := (v.members[i].0, d)];
    }
  }

  lemma {:induction false} NodeBelow(root: Json, loc: Location, s: Step, c: Json)
    requires NodeAt(root, loc).Some? && Resolve(NodeAt(root, loc).value, s).Some?
    ensures var node := NodeAt(root, loc).value;
            var i := Resolve(node, s).value;
            && NodeAt(root, loc + [s]) == Some(Child(node, i))
            && PutAt(root, loc + [s], c) == PutAt(root, loc, SetChild(node, i, c))
    decreases |loc|
  {
    if loc != [] {
      assert (loc + [s])[1..] == loc[1..] + [s];
      NodeBelow(Child(root, Resolve(root, loc[0]).value), loc[1..], s, c);
    } else {
      assert ([] + [s])[1..] == [];
      var i := Resolve(root, s).value;
      assert NodeAt(Child(root, i), []) == Some(Child(root, i));
    }
  }

  lemma StepResolves(v: Json, i: nat)
    requires i < Size(v) && WellFormed(v)
    ensures Resolve(v, StepTo(v, i)) == Some(i)
  {
  }

  lemma {:induction false} NodeWellFormed(root: Json, loc: Location)
    requires WellFormed(root) && NodeAt(root, loc).Some?
    ensures WellFormed(NodeAt(root, loc).value)
    decreases |loc|
  {
    if loc != [] { NodeWellFormed(Child(root, Resolve(root, loc[0]).value), loc[1..]); }
  }

  lemma SetWellFormed(v: Json, i: nat, c: Json)
    requires i < Size(v) && WellFormed(v) && WellFormed(c)
    ensures WellFormed(SetChild(v, i, c))
  {
    var w := SetChild(v, i, c);
    forall j | 0 <= j < Size(w)
      ensures WellFormed(Child(w, j))
    {
      assert Child(w, j) == if j == i then c else Child(v, j);
    }
  }

  lemma {:induction false} PutWellFormed(root: Json, loc: Location, x: Json)
    requires WellFormed(root) && NodeAt(root, loc).Some? && WellFormed(x)
    ensures WellFormed(PutAt(root, loc, x))
    decreases |loc|
  {
    if loc != [] {
      var i := Resolve(root, loc[0]).value;
      PutWellFormed(Child(root, i), loc[1..], x);
      SetWellFormed(root, i, PutAt(Child(root, i), loc[1..], x));
    }
  }

  lemma CutWellFormed(v: Json, a: nat, b: nat)
    requires WellFormed(v) && a <= b <= Size(v)
    ensures WellFormed(Cut(v, a, b))
  {
    var w := Cut(v, a, b);
    forall j | 0 <= j < Size(w)
      ensures WellFormed(Child(w, j))
    {
      assert Child(w, j) == Child(v, if j < a then j else j + b - a);
    }
    if v.Object? {
      forall i, j | 0 <= i < j < |w.members|
        ensures w.members[i].0 != w.members[j].0
      {
        assert w.members[i] == v.members[if i < a then i else i + b - a];
        assert w.members[j] == v.members[if j < a then j else j + b - a];
      }
    }
  }

  // ---- what a frame still deletes ----

  function DeleteOn(p: Path, v: Json): Deleted
    requires p != []
  {
    if Container(v) then Deletion(p, v) else Deleted(v, [])
  }

  function DeleteRest(path: Path, node: Json, pos: Position): (d: Deleted)
    requires PositionOk(path, node, pos)
  {
    if SelfAhead(path, pos) then
      var first := DeleteOn(path[pos.seg + 1..], node);
      And(DeleteBelow(path[pos.seg..], first.doc, 0, Size(first.doc)), first.gone)
    else
      var r := Ahead(path, node, pos);
      DeleteBelow(Onward(path, pos), node, r.0, r.1)
  }

  /** Rounds of the loop a deletion takes. */
  function DeleteRounds(p: Path, v: Json): nat
    decreases |p|, Depth(v), 1, 0
  {
    if |p| <= 1 || !Container(v) then 0
    else if p[0].Descent? then
      var w := Deletion(p[1..], v).doc;
      2 + DeleteRounds(p[1..], v) + DeleteRoundsBelow(p, w, 0, Size(w))
    else 1 + DeleteRoundsBelow(p[1..], v, Range(p[0], v).0, Range(p[0], v).1)
  }

  function DeleteRoundsBelow(p: Path, v: Json, a: nat, b: nat): nat
    requires p != [] && a <= b <= Size(v)
    decreases |p|, Depth(v), 0, b - a
  {
    if a == b then 0 else
    var c := Child(v, a);
    ChildDepth(v, a);
    SetChildDepth(v, a, DeleteOn(p, c).doc);
    1 + DeleteRounds(p, c) + DeleteRoundsBelow(p, SetChild(v, a, DeleteOn(p, c).doc), a + 1, b)
  }

  function DeleteRoundsLeft(path: Path, node: Json, pos: Position): (n: nat)
    requires PositionOk(path, node, pos)
    ensures n >= 1
  {
    1 + if SelfAhead(path, pos) then
      var w := DeleteOn(path[pos.seg + 1..], node).doc;
      1 + DeleteRounds(path[pos.seg + 1..], node) + DeleteRoundsBelow(path[pos.seg..], w, 0, Size(w))
    else
      var r := Ahead(path, node, pos);
      DeleteRoundsBelow(Onward(path, pos), node, r.0, r.1)
  }

  /** Visiting `c`, a part of `node`, and then going on from `pos'` in the changed node, is what was left at `pos`. */
  predicate DeleteSplits(path: Path, node: Json, pos: Position, node': Json, pos': Position, c: Json, j: nat)
    requires PositionOk(path, node, pos) && j < |path|
  {
    && PositionOk(path, node', pos')
    && DeleteRest(path, node, pos) == And(DeleteRest(path, node', pos'), DeleteOn(path[j..], c).gone)
    && DeleteRoundsLeft(path, node, pos) == 1 + DeleteRounds(path[j..], c) + DeleteRoundsLeft(path, node', pos')
  }

  lemma DeleteSelfSplits(path: Path, node: Json, pos: Position)
    requires PositionOk(path, node, pos) && SelfAhead(path, pos)
    ensures DeleteSplits(path, node, pos, DeleteOn(path[pos.seg + 1..], node).doc, pos.(step := 0), node, pos.seg + 1)
  {
    hide Deletion, DeleteRounds, DeleteBelow, DeleteRoundsBelow;
  }

  lemma DeleteAtSplits(path: Path, node: Json, pos: Position, pos': Position, i: nat, j: nat)
    requires PositionOk(path, node, pos) && PositionOk(path, node, pos') && pos'.seg == pos.seg && pos.seg + 1 < |path|
    requires !SelfAhead(path, pos) && !SelfAhead(path, pos') && j < |path| && Onward(path, pos) == path[j..]
    requires var r, r' := Ahead(path, node, pos), Ahead(path, node, pos');
             i == r.0 < r.1 && (r' == (i + 1, r.1) || (r.1 == i + 1 && r'.0 == r'.1))
    ensures var c := Child(node, i);
            DeleteSplits(path, node, pos, SetChild(node, i, DeleteOn(path[j..], c).doc), pos', c, j)
  {
    hide Deletion, DeleteRounds, DeleteBelow, DeleteRoundsBelow;
    var c, p := Child(node, i), Onward(path, pos);
    var node' := SetChild(node, i, DeleteOn(p, c).doc);
    var r, r' := Ahead(path, node, pos), Ahead(path, node, pos');
    SameOnward(path, pos, pos');
    SamePlace(path, node, node', pos');
    hide PositionOk, Ahead, Onward, SelfAhead;
    DeleteBelowStep(p, node, r.0, r.1, r'.0, r'.1);
  }

  /** Where a frame stands depends only on the kind of its node, its size and, before it starts, its keys. */
  lemma SamePlace(path: Path, node: Json, node': Json, pos: Position)
    requires PositionOk(path, node, pos) && SameFrame(node', node)
    ensures PositionOk(path, node', pos) && Ahead(path, node', pos) == Ahead(path, node, pos)
  {
    RangeSame(path[pos.seg], node', node);
  }

  lemma DeleteBelowStep(p: Path, v: Json, a: nat, b: nat, a': nat, b': nat)
    requires p != [] && a < b <= Size(v) && a' <= b' <= Size(v)
    requires (a' == a + 1 && b' == b) || (b == a + 1 && a' == b')
    ensures var c := Child(v, a);
            var v' := SetChild(v, a, DeleteOn(p, c).doc);
            && DeleteBelow(p, v, a, b) == And(DeleteBelow(p, v', a', b'), DeleteOn(p, c).gone)
            && DeleteRoundsBelow(p, v, a, b) == 1 + DeleteRounds(p, c) + DeleteRoundsBelow(p, v', a', b')
  {
    hide Deletion, DeleteRounds, Depth;
  }

  lemma AdvanceDeletes(path: Path, node: Json, pos: Position)
    requires PositionOk(path, node, pos)
    ensures var (pos', visit) := Advance(node, pos, path[pos.seg]);
            match visit
            case Self(j) => j < |path| && DeleteSplits(path, node, pos, DeleteOn(path[j..], node).doc, pos', node, j)
            case At(i, j) =>
              && i < Size(node) && j < |path|
              && var c := Child(node, i); DeleteSplits(path, node, pos, SetChild(node, i, DeleteOn(path[j..], c).doc), pos', c, j)
            case Stop => DeleteRest(path, node, pos) == Deleted(node, [])
  {
    AdvanceMoves(path, node, pos);
    hide *;
    var (pos', visit) := Advance(node, pos, path[pos.seg]);
    match visit {
      case Self(j) => DeleteSelfSplits(path, node, pos);
      case At(i, j) => DeleteAtSplits(path, node, pos, pos', i, j);
      case Stop => NothingDeleted(path, node, pos);
    }
  }

  lemma NothingDeleted(path: Path, node: Json, pos: Position)
    requires PositionOk(path, node, pos) && !SelfAhead(path, pos)
    requires Ahead(path, node, pos).0 == Ahead(path, node, pos).1
    ensures DeleteRest(path, node, pos) == Deleted(node, [])
  {
  }

  lemma FreshDeletes(path: Path, node: Json, seg: nat)
    requires seg + 1 < |path|
    ensures var pos := Position(Mono, 1, seg);
            && PositionOk(path, node, pos)
            && DeleteRest(path, node, pos) == Deletion(path[seg..], node)
            && (Container(node) ==> DeleteRoundsLeft(path, node, pos) == DeleteRounds(path[seg..], node))
  {
    var p := path[seg..];
    assert p[0] == path[seg] && p[1..] == path[seg + 1..];
  }

  // ---- how a run ends ----

  datatype DeleteFrame = DeleteFrame(loc: Location, pos: Position)

  datatype Ended = Ended(doc: Json, gone: seq<Json>, rounds: nat)

  /** Where the run ends from here, or None when some frame's location would be stale when its turn comes. */
  function Ending(path: Path, root: Json, stack: seq<DeleteFrame>): Option<Ended>
    decreases |stack|
  {
    if stack == [] then Some(Ended(root, [], 0)) else
    var f := stack[|stack| - 1];
    var node := NodeAt(root, f.loc);
    if node.None? || !PositionOk(path, node.value, f.pos) then None else
    var d := DeleteRest(path, node.value, f.pos);
    var e := Ending(path, PutAt(root, f.loc, d.doc), stack[..|stack| - 1]);
    if e.None? then None
    else Some(Ended(e.value.doc, d.gone + e.value.gone, DeleteRoundsLeft(path, node.value, f.pos) + e.value.rounds))
  }

  lemma EndingTop(path: Path, root: Json, below: seq<DeleteFrame>, f: DeleteFrame)
    ensures var node := NodeAt(root, f.loc);
            Ending(path, root, below + [f]) ==
            if node.None? || !PositionOk(path, node.value, f.pos) then None else
            var d := DeleteRest(path, node.value, f.pos);
            var e := Ending(path, PutAt(root, f.loc, d.doc), below);
            if e.None? then None
            else Some(Ended(e.value.doc, d.gone + e.value.gone, DeleteRoundsLeft(path, node.value, f.pos) + e.value.rounds))
  {
    hide DeleteRest, DeleteRoundsLeft, PositionOk, NodeAt, PutAt;
    assert (below + [f])[..|below|] == below;
  }

  /** From a position onward: the visited part is done with, the frame goes on in the changed document. */
  lemma Resume(path: Path, root: Json, below: seq<DeleteFrame>, loc: Location, node: Json, pos: Position, node': Json,
               pos': Position, c: Json, j: nat)
    requires NodeAt(root, loc) == Some(node) && j < |path|
    requires PositionOk(path, node, pos) && DeleteSplits(path, node, pos, node', pos', c, j)
    requires Ending(path, root, below + [DeleteFrame(loc, pos)]).Some?
    ensures var e := Ending(path, root, below + [DeleteFrame(loc, pos)]).value;
            var e' := Ending(path, PutAt(root, loc, node'), below + [DeleteFrame(loc, pos')]);
            && e'.Some? && e.doc == e'.value.doc
            && e.gone == DeleteOn(path[j..], c).gone + e'.value.gone
            && e.rounds == 1 + DeleteRounds(path[j..], c) + e'.value.rounds
  {
    hide DeleteRest, DeleteRoundsLeft, PositionOk, NodeAt, PutAt, Ending, DeleteOn, DeleteRounds;
    EndingTop(path, root, below, DeleteFrame(loc, pos));
    PutAtReads(root, loc, node');
    EndingTop(path, PutAt(root, loc, node'), below, DeleteFrame(loc, pos'));
    var d' := DeleteRest(path, node', pos');
    PutAtTwice(root, loc, node', d'.doc);
    var rest := Ending(path, PutAt(root, loc, d'.doc), below).value.gone;
    assert DeleteOn(path[j..], c).gone + d'.gone + rest == DeleteOn(path[j..], c).gone + (d'.gone + rest);
  }

  /** A fresh frame on a container deletes along the rest of the path there, then the others go on. */
  lemma Descended(path: Path, root: Json, stack: seq<DeleteFrame>, loc: Location, c: Json, j: nat)
    requires NodeAt(root, loc) == Some(c) && Container(c) && j + 1 < |path|
    requires Ending(path, PutAt(root, loc, Deletion(path[j..], c).doc), stack).Some?
    ensures var e := Ending(path, PutAt(root, loc, Deletion(path[j..], c).doc), stack).value;
            Ending(path, root, stack + [DeleteFrame(loc, Position(Mono, 1, j))]) ==
            Some(Ended(e.doc, Deletion(path[j..], c).gone + e.gone, DeleteRounds(path[j..], c) + e.rounds))
  {
    hide DeleteRest, DeleteRoundsLeft, PositionOk, NodeAt, PutAt, Ending, DeleteRounds, Deletion;
    FreshDeletes(path, c, j);
    EndingTop(path, root, stack, DeleteFrame(loc, Position(Mono, 1, j)));
  }

  lemma {:induction false} PutSame(root: Json, loc: Location)
    requires NodeAt(root, loc).Some?
    ensures PutAt(root, loc, NodeAt(root, loc).value) == root
    decreases |loc|
  {
    if loc != [] {
      var i := Resolve(root, loc[0]).value;
      PutSame(Child(root, i), loc[1..]);
      SetSame(root, i);
    }
  }

  lemma SetSame(v: Json, i: nat)
    requires i < Size(v)
    ensures SetChild(v, i, Child(v, i)) == v
  {
    if v.Array? {
      assert v.items[i := v.items[i]] == v.items;
    } else {
      assert v.members[i := (v.members[i].0, v.members[i].1)] == v.members;
    }
  }

  // ---- the loop ----

  /** The run from here ends as it should. */
  predicate OnTrack(path: Path, root: Json, stack: seq<DeleteFrame>, deleted: nat, goal: Deleted) {
    && WellFormed(root)
    && var e := Ending(path, root, stack);
       e.Some? && e.value.doc == goal.doc && deleted + |e.value.gone| == |goal.gone|
  }

  function RoundsToGo(path: Path, root: Json, stack: seq<DeleteFrame>): nat {
    var e := Ending(path, root, stack);
    if e.None? then 0 else e.value.rounds
  }

  /** `delete_step`: removes the selected children of a node and counts them. */
  method DeleteStep(segment: Segment, node: Json) returns (w: Json, n: nat)
    ensures w == DeleteLast(segment, node).doc && n == |DeleteLast(segment, node).gone|
  {
    var (a, b) := Range(segment, node);
    if segment.Index? {
      // elements are removed one by one, the last one first
      w, n := node, 0;
      CutNothing(node, b);
      for i := b downto a
        invariant w == Cut(node, i, b) && n == b - i
      {
        CutMore(node, i, b);
        w := Cut(w, i, i + 1);
        n := n + 1;
      }
    } else {
      w, n := Cut(node, a, b), b - a;
    }
  }

  lemma CutNothing(v: Json, b: nat)
    requires b <= Size(v)
    ensures Cut(v, b, b) == v
  {
    if v.Array? {
      assert v.items[..b] + v.items[b..] == v.items;
    } else if v.Object? {
      assert v.members[..b] + v.members[b..] == v.members;
    }
  }

  lemma CutMore(v: Json, i: nat, b: nat)
    requires i < b <= Size(v)
    ensures Size(Cut(v, i + 1, b)) >= i + 1 && Cut(Cut(v, i + 1, b), i, i + 1) == Cut(v, i, b)
  {
    var w := Cut(v, i + 1, b);
    if v.Array? {
      assert w.items[..i] == v.items[..i] && w.items[i + 1..] == v.items[b..];
    } else if v.Object? {
      assert w.members[..i] == v.members[..i] && w.members[i + 1..] == v.members[b..];
    }
  }

  method DeletePath(path: Path, root: Json) returns (doc: Json, deleted: nat)
    requires WellFormed(root)
    ensures path == [] ==> doc == root && deleted == 0
    ensures path != [] ==> doc == Deletion(path, root).doc && deleted == |Deletion(path, root).gone|
  {
    doc, deleted := root, 0;
    if path == [] {
      return;
    }
    if |path| == 1 {
      doc, deleted := DeleteStep(path[0], root);
      return;
    }
    ghost var goal := Deletion(path, root);
    var stack := [DeleteFrame([], Position(Mono, 1, 0))];
    DeletionStart(path, root);
    hide Ending, NodeAt, PositionOk, Advance, WellFormed, OnTrack, RoundsToGo;
    while |stack| > 0
      invariant OnTrack(path, doc, stack, deleted, goal)
      decreases RoundsToGo(path, doc, stack)
    {
      var frame, below := stack[|stack| - 1], stack[..|stack| - 1];
      assert stack == below + [frame];
      TopFits(path, doc, below, frame, deleted, goal);
      var node := NodeAt(doc, frame.loc).value;
      var (pos, visit) := Advance(node, frame.pos, path[frame.pos.seg]);
      AdvanceDeletes(path, node, frame.pos);
      if visit.Stop? {
        Popped(path, doc, below, frame, deleted, goal);
        stack := below;
      } else {
        stack, doc, deleted := EnterDelete(path, doc, below, frame, node, pos, visit, deleted, goal);
      }
    }
    Finished(path, doc, deleted, goal);
  }

  lemma DeletionStart(path: Path, root: Json)
    requires |path| >= 2 && WellFormed(root)
    ensures OnTrack(path, root, [DeleteFrame([], Position(Mono, 1, 0))], 0, Deletion(path, root))
  {
    var f := DeleteFrame([], Position(Mono, 1, 0));
    FreshDeletes(path, root, 0);
    assert path[0..] == path;
    EndingTop(path, root, [], f);
    assert [] + [f] == [f];
    var d := Deletion(path, root);
    assert d.gone + [] == d.gone;
  }

  lemma TopFits(path: Path, root: Json, below: seq<DeleteFrame>, f: DeleteFrame, deleted: nat, goal: Deleted)
    requires OnTrack(path, root, below + [f], deleted, goal)
    ensures NodeAt(root, f.loc).Some? && PositionOk(path, NodeAt(root, f.loc).value, f.pos) && f.pos.seg + 1 < |path|
    ensures WellFormed(root) && Ending(path, root, below + [f]).Some?
  {
    EndingTop(path, root, below, f);
  }

  lemma Popped(path: Path, root: Json, below: seq<DeleteFrame>, f: DeleteFrame, deleted: nat, goal: Deleted)
    requires OnTrack(path, root, below + [f], deleted, goal) && NodeAt(root, f.loc).Some?
    requires var node := NodeAt(root, f.loc).value;
             PositionOk(path, node, f.pos) && DeleteRest(path, node, f.pos) == Deleted(node, [])
    ensures OnTrack(path, root, below, deleted, goal)
    ensures RoundsToGo(path, root, below) < RoundsToGo(path, root, below + [f])
  {
    hide WellFormed;
    EndingTop(path, root, below, f);
    PutSame(root, f.loc);
  }

  lemma Finished(path: Path, doc: Json, deleted: nat, goal: Deleted)
    requires OnTrack(path, doc, [], deleted, goal)
    ensures doc == goal.doc && deleted == |goal.gone|
  {
  }

  /** One visit: a scalar is passed over, a container becomes a frame or is cut by the last segment. */
  method EnterDelete(path: Path, root: Json, below: seq<DeleteFrame>, frame: DeleteFrame, node: Json, pos: Position,
                     visit: Visit, deleted: nat, ghost goal: Deleted)
    returns (stack: seq<DeleteFrame>, doc: Json, count: nat)
    requires |path| >= 2 && OnTrack(path, root, below + [frame], deleted, goal) && NodeAt(root, frame.loc) == Some(node)
    requires PositionOk(path, node, frame.pos) && Ending(path, root, below + [frame]).Some?
    requires !visit.Stop? && visit.seg < |path| && (visit.At? ==> visit.i < Size(node))
    requires var c := Visited(node, visit);
             DeleteSplits(path, node, frame.pos, Replaced(node, visit, DeleteOn(path[visit.seg..], c).doc), pos, c, visit.seg)
    ensures OnTrack(path, doc, stack, count, goal)
    ensures RoundsToGo(path, doc, stack) < RoundsToGo(path, root, below + [frame])
  {
    hide Ending, NodeAt, PutAt, PositionOk, DeleteSplits, WellFormed, Deletion, DeleteRounds;
    var child := Visited(node, visit);
    var j := visit.seg;
    ghost var p := path[j..];
    var loc := if visit.Self? then frame.loc else frame.loc + [StepTo(node, visit.i)];
    ghost var node' := Replaced(node, visit, DeleteOn(p, child).doc);
    Resume(path, root, below, frame.loc, node, frame.pos, node', pos, child, j);
    assert DeleteFrame(frame.loc, frame.pos) == frame;
    assert WellFormed(root) by { TopFits(path, root, below, frame, deleted, goal); }
    Located(root, frame.loc, node, visit, DeleteOn(p, child).doc);
    stack, doc, count := below + [DeleteFrame(frame.loc, pos)], root, deleted;
    if Container(child) {
      if j + 1 < |path| {
        Descended(path, root, stack, loc, child, j);
        stack := stack + [DeleteFrame(loc, Position(Mono, 1, j))];
      } else {
        LastDeletion(path, child, j);
        var w, n := DeleteStep(path[j], child);
        LastWellFormed(root, loc, child, path[j]);
        doc := PutAt(root, loc, w);
        count := deleted + n;
      }
    } else {
      Located(root, frame.loc, node, visit, child);
      PutSame(root, loc);
    }
  }

  function Visited(node: Json, visit: Visit): Json
    requires visit.At? ==> visit.i < Size(node)
  {
    if visit.At? then Child(node, visit.i) else node
  }

  function Replaced(node: Json, visit: Visit, c: Json): Json
    requires visit.At? ==> visit.i < Size(node)
  {
    if visit.At? then SetChild(node, visit.i, c) else c
  }

  /** The location of a visited part is not stale, and writing there is writing into the frame's node. */
  lemma Located(root: Json, at: Location, node: Json, visit: Visit, c: Json)
    requires WellFormed(root) && NodeAt(root, at) == Some(node) && (visit.At? ==> visit.i < Size(node))
    ensures var loc := if visit.At? then at + [StepTo(node, visit.i)] else at;
            && NodeAt(root, loc) == Some(Visited(node, visit))
            && PutAt(root, loc, c) == PutAt(root, at, Replaced(node, visit, c))
  {
    NodeWellFormed(root, at);
    if visit.At? {
      StepResolves(node, visit.i);
      NodeBelow(root, at, StepTo(node, visit.i), c);
    }
  }

  lemma LastDeletion(path: Path, c: Json, j: nat)
    requires j + 1 == |path|
    ensures Deletion(path[j..], c) == DeleteLast(path[j], c) && DeleteRounds(path[j..], c) == 0
  {
  }

  lemma LastWellFormed(root: Json, loc: Location, c: Json, segment: Segment)
    requires WellFormed(root) && NodeAt(root, loc) == Some(c)
    ensures WellFormed(PutAt(root, loc, DeleteLast(segment, c).doc))
  {
    NodeWellFormed(root, loc);
    CutWellFormed(c, Range(segment, c).0, Range(segment, c).1);
    PutWellFormed(root, loc, DeleteLast(segment, c).doc);
  }
}
