/**
 The explicit-stack walk of src/core/jsonpath.rs, and the proof that it reports exactly the
 matches of the recursive meaning, in order.
 */
module JsonWalk {
  import opened Bits
  import opened JsonPathSpec
  import JsonSelect

  /** Where a frame stands among the children of its node. */
  datatype State = Mono | Obj(idx: nat) | Arr(next: nat, last: nat)

  /** What one advance produces: the node itself or a child, with the segment to apply next; or nothing more. */
  datatype Visit = Self(seg: nat) | At(i: nat, seg: nat) | Stop

  datatype Position = Position(state: State, step: nat, seg: nat)

  // ---- one advance ----

  function InitWildcard(node: Json, pos: Position): (Position, Visit) {
    if Size(node) == 0 then (pos, Stop)
    else if node.Object? then (pos.(state := Obj(0)), At(0, pos.seg + pos.step))
    else (pos.(state := Arr(0, |node.items| - 1)), At(0, pos.seg + pos.step))
  }

  function Init(node: Json, pos: Position, segment: Segment): (Position, Visit) {
    match segment
    case Identifier(key) =>
      var i := if node.Object? then Find(node.members, key) else None;
      if i.None? then (pos, Stop) else (pos.(state := Obj(0)), At(i.value, pos.seg + 1))
    case Index(e) =>
      var r := if node.Array? then Normalize(e, |node.items|) else None;
      if r.None? then (pos, Stop) else (pos.(state := Arr(r.value.0, r.value.1)), At(r.value.0, pos.seg + 1))
    case Wildcard => InitWildcard(node, pos)
    case Descent =>
      if pos.step == 1 then (pos.(step := 0), Self(pos.seg + 1)) else InitWildcard(node, pos)
    case Function => (pos, Stop)
  }

  function Advance(node: Json, pos: Position, segment: Segment): (Position, Visit) {
    match pos.state
    case Mono => Init(node, pos, segment)
    case Obj(idx) =>
      if !segment.Wildcard? && !segment.Descent? then (pos, Stop)
      else if node.Object? && idx + 1 < |node.members|
      then (pos.(state := Obj(idx + 1)), At(idx + 1, pos.seg + pos.step))
      else (pos.(state := Obj(idx + 1)), Stop)
    case Arr(next, last) =>
      if next == last then (pos, Stop)
      else if node.Array? && next + 1 < |node.items|
      then (pos.(state := Arr(next + 1, last)), At(next + 1, pos.seg + pos.step))
      else (pos.(state := Arr(next + 1, last)), Stop)
  }

  // ---- what a frame still has to do ----

  predicate PositionOk(path: Path, node: Json, pos: Position) {
    && pos.seg + 1 < |path|
    && (pos.step == 1 || (pos.step == 0 && path[pos.seg].Descent?))
    && match pos.state
       case Mono => true
       case Obj(idx) => node.Object? && idx < Size(node) && !path[pos.seg].Index? && (path[pos.seg].Descent? ==> pos.step == 0)
       case Arr(next, last) => node.Array? && next <= last < Size(node) && (path[pos.seg].Descent? ==> pos.step == 0)
  }

  /** The children still to visit, as a half-open range. */
  function Ahead(path: Path, node: Json, pos: Position): (r: (nat, nat))
    requires PositionOk(path, node, pos)
    ensures r.0 <= r.1 <= Size(node)
  {
    match pos.state
    case Mono => Range(path[pos.seg], node)
    case Obj(idx) => if path[pos.seg].Wildcard? || path[pos.seg].Descent? then (idx + 1, Size(node)) else (0, 0)
    case Arr(next, last) => (next + 1, last + 1)
  }

  predicate SelfAhead(path: Path, pos: Position)
    requires pos.seg + 1 < |path|
  {
    pos.state.Mono? && pos.step == 1 && path[pos.seg].Descent?
  }

  /** The path applied to the children: `..` applies itself again, every other segment the next one. */
  function Onward(path: Path, pos: Position): (p: Path)
    requires pos.seg + 1 < |path|
    ensures p != []
  {
    if path[pos.seg].Descent? then path[pos.seg..] else path[pos.seg + 1..]
  }

  function On(p: Path, v: Json): seq<Match>
    requires p != []
  {
    if Container(v) then Meaning(p, v) else []
  }

  function Rest(path: Path, node: Json, pos: Position): seq<Match>
    requires PositionOk(path, node, pos)
  {
    var r := Ahead(path, node, pos);
    (if SelfAhead(path, pos) then On(path[pos.seg + 1..], node) else []) + Below(Onward(path, pos), node, r.0, r.1)
  }

  // ---- how many rounds of the loop a frame still takes ----

  function Rounds(p: Path, v: Json): nat
    decreases |p|, v, 1, 0
  {
    if |p| <= 1 || !Container(v) then 0
    else if p[0].Descent? then 2 + Rounds(p[1..], v) + RoundsBelow(p, v, 0, Size(v))
    else 1 + RoundsBelow(p[1..], v, Range(p[0], v).0, Range(p[0], v).1)
  }

  function RoundsBelow(p: Path, v: Json, a: nat, b: nat): nat
    requires a <= b <= Size(v)
    decreases |p|, v, 0, b - a
  {
    if a == b then 0 else 1 + Rounds(p, Child(v, a)) + RoundsBelow(p, v, a + 1, b)
  }

  function RoundsLeft(path: Path, node: Json, pos: Position): (n: nat)
    requires PositionOk(path, node, pos)
    ensures n >= 1
  {
    var r := Ahead(path, node, pos);
    (if SelfAhead(path, pos) then 1 + Rounds(path[pos.seg + 1..], node) else 0) + RoundsBelow(Onward(path, pos), node, r.0, r.1) + 1
  }

  // ---- one advance does the first of what is left ----

  predicate Splits(path: Path, node: Json, pos: Position, pos': Position, c: Json, j: nat)
    requires PositionOk(path, node, pos) && j < |path|
  {
    && PositionOk(path, node, pos') && pos'.seg == pos.seg
    && Rest(path, node, pos) == On(path[j..], c) + Rest(path, node, pos')
    && RoundsLeft(path, node, pos) == 1 + Rounds(path[j..], c) + RoundsLeft(path, node, pos')
  }

  /** Where an advance goes: the first child ahead, and the position after it has the others ahead. */
  lemma AdvanceMoves(path: Path, node: Json, pos: Position)
    requires PositionOk(path, node, pos)
    ensures var (pos', visit) := Advance(node, pos, path[pos.seg]);
            var r := Ahead(path, node, pos);
            match visit
            case Self(j) => j == pos.seg + 1 && SelfAhead(path, pos) && pos' == pos.(step := 0)
            case At(i, j) =>
              && PositionOk(path, node, pos') && pos'.seg == pos.seg && !SelfAhead(path, pos) && !SelfAhead(path, pos')
              && i == r.0 < r.1 && j < |path| && Onward(path, pos) == path[j..]
              && var r' := Ahead(path, node, pos'); r' == (i + 1, r.1) || (r.1 == i + 1 && r'.0 == r'.1)
            case Stop => r.0 == r.1 && !SelfAhead(path, pos)
  {
  }

  lemma AdvanceSplits(path: Path, node: Json, pos: Position)
    requires PositionOk(path, node, pos)
    ensures var (pos', visit) := Advance(node, pos, path[pos.seg]);
            match visit
            case Self(j) => j < |path| && Splits(path, node, pos, pos', node, j)
            case At(i, j) => i < Size(node) && j < |path| && Splits(path, node, pos, pos', Child(node, i), j)
            case Stop => Rest(path, node, pos) == []
  {
    AdvanceMoves(path, node, pos);
    hide *;
    var (pos', visit) := Advance(node, pos, path[pos.seg]);
    match visit {
      case Self(j) => SelfSplits(path, node, pos);
      case At(i, j) => AtSplits(path, node, pos, pos', i, j);
      case Stop => NothingLeft(path, node, pos);
    }
  }

  lemma SelfSplits(path: Path, node: Json, pos: Position)
    requires PositionOk(path, node, pos) && SelfAhead(path, pos)
    ensures Splits(path, node, pos, pos.(step := 0), node, pos.seg + 1)
  {
    hide Meaning, Rounds, Below, RoundsBelow;
    var pos' := pos.(step := 0);
    assert Ahead(path, node, pos') == Ahead(path, node, pos) && Onward(path, pos') == Onward(path, pos);
    var p := path[pos.seg + 1..];
    assert On(p, node) + Below(Onward(path, pos), node, 0, Size(node))
        == On(p, node) + ([] + Below(Onward(path, pos), node, 0, Size(node)));
  }

  lemma AtSplits(path: Path, node: Json, pos: Position, pos': Position, i: nat, j: nat)
    requires PositionOk(path, node, pos) && PositionOk(path, node, pos') && pos'.seg == pos.seg && pos.seg + 1 < |path|
    requires !SelfAhead(path, pos) && !SelfAhead(path, pos') && j < |path| && Onward(path, pos) == path[j..]
    requires var r, r' := Ahead(path, node, pos), Ahead(path, node, pos');
             i == r.0 < r.1 && (r' == (i + 1, r.1) || (r.1 == i + 1 && r'.0 == r'.1))
    ensures Splits(path, node, pos, pos', Child(node, i), j)
  {
    hide Meaning, Rounds, Below, RoundsBelow, On, PositionOk, Ahead, Onward, SelfAhead;
    var r, r', p := Ahead(path, node, pos), Ahead(path, node, pos'), Onward(path, pos);
    SameOnward(path, pos, pos');
    BelowStep(p, node, r.0, r.1, r'.0, r'.1);
    assert [] + Below(p, node, r.0, r.1) == Below(p, node, r.0, r.1);
    assert [] + Below(p, node, r'.0, r'.1) == Below(p, node, r'.0, r'.1);
  }

  lemma NothingLeft(path: Path, node: Json, pos: Position)
    requires PositionOk(path, node, pos) && !SelfAhead(path, pos)
    requires Ahead(path, node, pos).0 == Ahead(path, node, pos).1
    ensures Rest(path, node, pos) == []
  {
  }

  lemma SameOnward(path: Path, pos: Position, pos': Position)
    requires pos.seg == pos'.seg && pos.seg + 1 < |path|
    ensures Onward(path, pos) == Onward(path, pos')
  {
  }

  lemma BelowStep(p: Path, v: Json, a: nat, b: nat, a': nat, b': nat)
    requires p != [] && a < b <= Size(v) && a' <= b' <= Size(v)
    requires (a' == a + 1 && b' == b) || (b == a + 1 && a' == b')
    ensures Below(p, v, a, b) == On(p, Child(v, a)) + Below(p, v, a', b')
    ensures RoundsBelow(p, v, a, b) == 1 + Rounds(p, Child(v, a)) + RoundsBelow(p, v, a', b')
  {
    hide Meaning, Rounds;
  }

  /** A fresh frame has the whole meaning of its path ahead of it. */
  lemma FreshRest(path: Path, node: Json, seg: nat)
    requires seg + 1 < |path|
    ensures var pos := Position(Mono, 1, seg);
            && PositionOk(path, node, pos)
            && Rest(path, node, pos) == Meaning(path[seg..], node)
            && (Container(node) ==> RoundsLeft(path, node, pos) == Rounds(path[seg..], node))
  {
    hide Meaning, Rounds, Below, RoundsBelow, Range;
    var p := path[seg..];
    assert p[0] == path[seg] && p[1..] == path[seg + 1..];
    MeaningStep(p, node);
    if Container(node) {
      RoundsStep(p, node);
    }
  }

  lemma MeaningStep(p: Path, v: Json)
    requires p != []
    ensures |p| == 1 ==> Meaning(p, v) == Last(p[0], v)
    ensures |p| > 1 && p[0].Descent? ==> Meaning(p, v) == On(p[1..], v) + Below(p, v, 0, Size(v))
    ensures |p| > 1 && !p[0].Descent? ==> Meaning(p, v) == [] + Below(p[1..], v, Range(p[0], v).0, Range(p[0], v).1)
    ensures p[0].Descent? ==> Range(p[0], v) == (0, Size(v))
  {
    hide Below;
    if |p| > 1 && !p[0].Descent? {
      var s := Below(p[1..], v, Range(p[0], v).0, Range(p[0], v).1);
      assert [] + s == s;
    }
  }

  lemma RoundsStep(p: Path, v: Json)
    requires |p| > 1 && Container(v)
    ensures p[0].Descent? ==> Rounds(p, v) == 2 + Rounds(p[1..], v) + RoundsBelow(p, v, 0, Size(v))
    ensures !p[0].Descent? ==> Rounds(p, v) == 1 + RoundsBelow(p[1..], v, Range(p[0], v).0, Range(p[0], v).1)
  {
  }

  // ---- the loop ----

  datatype Frame = Frame(node: Json, pos: Position)

  predicate StackOk(path: Path, stack: seq<Frame>) {
    forall i :: 0 <= i < |stack| ==> PositionOk(path, stack[i].node, stack[i].pos)
  }

  /** What the frames still have to report, the top one first. */
  function Owed(path: Path, stack: seq<Frame>): seq<Match>
    requires StackOk(path, stack)
  {
    if stack == [] then [] else
    var f := stack[|stack| - 1];
    Rest(path, f.node, f.pos) + Owed(path, stack[..|stack| - 1])
  }

  function Due(path: Path, stack: seq<Frame>): nat
    requires StackOk(path, stack)
  {
    if stack == [] then 0 else
    var f := stack[|stack| - 1];
    RoundsLeft(path, f.node, f.pos) + Due(path, stack[..|stack| - 1])
  }

  /** Replacing the top frame, and putting one more on it. */
  lemma OwedTop(path: Path, below: seq<Frame>, f: Frame)
    requires StackOk(path, below) && PositionOk(path, f.node, f.pos)
    ensures StackOk(path, below + [f])
    ensures Owed(path, below + [f]) == Rest(path, f.node, f.pos) + Owed(path, below)
    ensures Due(path, below + [f]) == RoundsLeft(path, f.node, f.pos) + Due(path, below)
  {
    assert (below + [f])[..|below|] == below;
  }

  /** Reports the children of `node` that the last segment selects. */
  method PerformStep(segment: Segment, node: Json, out: seq<Match>) returns (r: seq<Match>, n: nat)
    ensures r == out + Last(segment, node) && n == |Last(segment, node)|
    ensures r == out + JsonSelect.Chosen(segment, node, 0)
  {
    hide JsonSelect.Chosen;
    JsonSelect.StepReports(segment, node);
    var (a, b) := Range(segment, node);
    r, n := out, 0;
    for i := a to b
      invariant r + Listed(node, i, b) == out + Listed(node, a, b) && n == i - a
    {
      assert r + ([(Name(node, i), Child(node, i))] + Listed(node, i + 1, b))
          == r + [(Name(node, i), Child(node, i))] + Listed(node, i + 1, b);
      r := r + [(Name(node, i), Child(node, i))];
      n := n + 1;
    }
  }

  /** The stack walk reports the meaning of the path, once each and in order, and counts it. */
  method Traverse(path: Path, root: Json) returns (out: seq<Match>, matches: nat)
    ensures out == Matches(path, root) && matches == |out|
  {
    hide Rest, RoundsLeft, Advance, PositionOk, Meaning, Last, Due, Owed, StackOk, Rounds, On, JsonSelect.Chosen;
    if path == [] {
      return [(None, root)], 1;
    }
    var terminal := path[|path| - 1];
    out, matches := [], 0;
    if |path| == 1 {
      MeaningStep(path, root);
      assert [] + Last(terminal, root) == Last(terminal, root);
      out, matches := PerformStep(terminal, root, []);
      return;
    }
    var stack := [Frame(root, Position(Mono, 1, 0))];
    Start(path, root);
    while |stack| > 0
      invariant StackOk(path, stack) && out + Owed(path, stack) == Meaning(path, root) && matches == |out|
      decreases Due(path, stack)
    {
      var frame, below := stack[|stack| - 1], stack[..|stack| - 1];
      assert stack == below + [frame];
      TopOk(path, below, frame);
      OwedTop(path, below, frame);
      var (pos, visit) := Advance(frame.node, frame.pos, path[frame.pos.seg]);
      AdvanceSplits(path, frame.node, frame.pos);
      if visit.Stop? {
        assert [] + Owed(path, below) == Owed(path, below);
        stack := below;
      } else {
        var child := if visit.Self? then frame.node else Child(frame.node, visit.i);
        OwedTop(path, below, Frame(frame.node, pos));
        Reassociate(On(path[visit.seg..], child), Rest(path, frame.node, pos), Owed(path, below));
        stack, out, matches := Enter(path, child, visit.seg, below + [Frame(frame.node, pos)], out, matches);
      }
    }
    OwedNothing(path);
    assert out + [] == out;
  }

  /** A visited container becomes a frame, or is reported on when only the last segment is left. */
  method Enter(path: Path, child: Json, seg: nat, stack: seq<Frame>, out: seq<Match>, matches: nat)
    returns (stack': seq<Frame>, out': seq<Match>, matches': nat)
    requires |path| >= 2 && seg < |path| && StackOk(path, stack) && matches == |out|
    ensures StackOk(path, stack') && matches' == |out'|
    ensures out' + Owed(path, stack') == out + (On(path[seg..], child) + Owed(path, stack))
    ensures Due(path, stack') <= Rounds(path[seg..], child) + Due(path, stack)
  {
    hide Rest, RoundsLeft, PositionOk, Meaning, Last, Due, Owed, StackOk, Rounds;
    stack', out', matches' := stack, out, matches;
    ghost var owed := Owed(path, stack);
    if Container(child) {
      if seg + 1 < |path| {
        FreshRest(path, child, seg);
        OwedTop(path, stack, Frame(child, Position(Mono, 1, seg)));
        stack' := stack + [Frame(child, Position(Mono, 1, seg))];
      } else {
        LastMeaning(path, child, seg);
        var n;
        out', n := PerformStep(path[|path| - 1], child, out);
        matches' := matches + n;
        assert out + (Last(path[seg], child) + owed) == out' + owed;
      }
    } else {
      assert [] + owed == owed;
    }
  }

  lemma Start(path: Path, root: Json)
    requires |path| >= 2
    ensures var f := Frame(root, Position(Mono, 1, 0));
            StackOk(path, [f]) && [] + Owed(path, [f]) == Meaning(path, root)
  {
    FreshRest(path, root, 0);
    assert path[0..] == path;
    var f := Frame(root, Position(Mono, 1, 0));
    OwedTop(path, [], f);
    assert [] + [f] == [f];
    assert Owed(path, [f]) == Meaning(path, root) + [] == Meaning(path, root);
  }

  lemma OwedNothing(path: Path)
    ensures Owed(path, []) == []
  {
  }

  lemma TopOk(path: Path, below: seq<Frame>, f: Frame)
    requires StackOk(path, below + [f])
    ensures StackOk(path, below) && PositionOk(path, f.node, f.pos) && f.pos.seg + 1 < |path|
  {
    assert (below + [f])[|below|] == f;
    assert forall i :: 0 <= i < |below| ==> below[i] == (below + [f])[i];
  }

  lemma Reassociate(a: seq<Match>, b: seq<Match>, c: seq<Match>)
    ensures a + b + c == a + (b + c)
  {
  }

  lemma LastMeaning(path: Path, node: Json, seg: nat)
    requires seg + 1 == |path|
    ensures Meaning(path[seg..], node) == Last(path[seg], node)
  {
  }
}
