/**
 * Rebuilding the path once the goal is taken from the open list: walk the parent
 * links from the goal node back to the start, collecting cells and step labels,
 * then reverse both lists into start-to-goal order.
 */
module Reconstruction {
  import opened Wrappers
  import opened Grid
  import opened Directions
  import opened Nodes

  /** The cells from the root of the parent tree to node i, in walking order. */
  function Route(nodes: seq<Node>, i: nat): (route: seq<Pos>)
    requires ParentsBefore(nodes) && i < |nodes|
    ensures |route| >= 1 && route[|route| - 1] == nodes[i].pos
  {
    match nodes[i].parent
    case None => [nodes[i].pos]
    case Some(p) => Route(nodes, p) + [nodes[i].pos]
  }

  /** One name per step of `s`, naming the step from s[k] to s[k + 1]. */
  function StepLabels(s: seq<Pos>): seq<string> {
    if |s| < 2 then []
    else seq(|s| - 1, k requires 0 <= k < |s| - 1 => DirectionName(Sub(s[k + 1], s[k])))
  }

  /** The list reversed, as slicing with step -1 does. */
  function Reverse<T>(s: seq<T>): (r: seq<T>)
    ensures |r| == |s|
  {
    seq(|s|, k requires 0 <= k < |s| => s[|s| - 1 - k])
  }

  lemma ReverseSnoc<T>(s: seq<T>, x: T)
    ensures Reverse(s + [x]) == [x] + Reverse(s)
  {
  }

  lemma StepLabelsSnoc(s: seq<Pos>, x: Pos)
    requires |s| >= 1
    ensures StepLabels(s + [x]) == StepLabels(s) + [DirectionName(Sub(x, s[|s| - 1]))]
  {
    var t := s + [x];
    assert StepLabels(t)[..|s| - 1] == StepLabels(s);
  }

  /** The part of the route still to be walked from `current`. */
  function RouteFrom(nodes: seq<Node>, current: Option<nat>): seq<Pos>
    requires ParentsBefore(nodes)
    requires current.Some? ==> current.value < |nodes|
  {
    match current
    case None => []
    case Some(c) => Route(nodes, c)
  }

  /** What the walk has collected so far, reversed, completes what is still to walk. */
  ghost predicate WalkInv(nodes: seq<Node>, i: nat, current: Option<nat>, backPath: seq<Pos>, backDirections: seq<string>)
    requires ParentsBefore(nodes) && i < |nodes|
  {
    && (current.Some? ==> current.value < |nodes|)
    && Route(nodes, i) == RouteFrom(nodes, current) + Reverse(backPath)
    && StepLabels(Route(nodes, i)) == StepLabels(RouteFrom(nodes, current)) + Reverse(backDirections)
  }

  /** Moving the last element of the unwalked part onto the collected list keeps the whole. */
  lemma ShiftLast<T>(whole: seq<T>, rest: seq<T>, back: seq<T>, restBefore: seq<T>, x: T)
    requires whole == rest + Reverse(back)
    requires rest == restBefore + [x]
    ensures whole == restBefore + Reverse(back + [x])
  {
    ReverseSnoc(back, x);
  }

  /** One step of the walk keeps the invariant. */
  lemma WalkStep(nodes: seq<Node>, i: nat, c: nat, backPath: seq<Pos>, backDirections: seq<string>)
    requires ParentsBefore(nodes) && i < |nodes| && c < |nodes|
    requires WalkInv(nodes, i, Some(c), backPath, backDirections)
    ensures nodes[c].parent.None? ==>
              WalkInv(nodes, i, None, backPath + [nodes[c].pos], backDirections)
    ensures nodes[c].parent.Some? ==>
              var p := nodes[c].parent.value;
              WalkInv(nodes, i, Some(p), backPath + [nodes[c].pos],
                      backDirections + [DirectionName(Sub(nodes[c].pos, nodes[p].pos))])
  {
    var x := nodes[c].pos;
    match nodes[c].parent {
      case Some(p) =>
        var name := DirectionName(Sub(x, nodes[p].pos));
        var before := Route(nodes, p);
        assert Route(nodes, c) == before + [x];
        ShiftLast(Route(nodes, i), Route(nodes, c), backPath, before, x);
        StepLabelsSnoc(before, x);
        ShiftLast(StepLabels(Route(nodes, i)), StepLabels(Route(nodes, c)), backDirections,
                  StepLabels(before), name);
        assert RouteFrom(nodes, Some(p)) == before;
      case None =>
        assert Route(nodes, c) == [] + [x];
        ShiftLast(Route(nodes, i), Route(nodes, c), backPath, [], x);
        assert StepLabels(Route(nodes, c)) == [] == StepLabels(RouteFrom(nodes, None));
    }
  }

  /** With nothing left to walk, the collected lists reversed are the route and its labels. */
  lemma WalkDone(nodes: seq<Node>, i: nat, backPath: seq<Pos>, backDirections: seq<string>)
    requires ParentsBefore(nodes) && i < |nodes|
    requires WalkInv(nodes, i, None, backPath, backDirections)
    ensures Reverse(backPath) == Route(nodes, i)
    ensures Reverse(backDirections) == StepLabels(Route(nodes, i))
  {
    assert RouteFrom(nodes, None) == [];
    assert StepLabels([]) == [];
  }

  /**
   * The walk back along parent links: the cells come out as Route(nodes, i) and
   * the labels name each of its steps in order.
   */
  method Reconstruct(nodes: seq<Node>, i: nat) returns (path: seq<Pos>, directions: seq<string>)
    requires ParentsBefore(nodes) && i < |nodes|
    ensures path == Route(nodes, i)
    ensures directions == StepLabels(path)
  {
    var backPath: seq<Pos> := [];
    var backDirections: seq<string> := [];
    var current: Option<nat> := Some(i);
    while current.Some?
      invariant WalkInv(nodes, i, current, backPath, backDirections)
      decreases if current.Some? then current.value + 1 else 0
    {
      var c := current.value;
      WalkStep(nodes, i, c, backPath, backDirections);
      backPath := backPath + [nodes[c].pos];
      if nodes[c].parent.Some? {
        var parent := nodes[nodes[c].parent.value];
        var move := Sub(nodes[c].pos, parent.pos);
        backDirections := backDirections + [DirectionName(move)];
      }
      current := nodes[c].parent;
    }
    WalkDone(nodes, i, backPath, backDirections);
    path := Reverse(backPath);
    directions := Reverse(backDirections);
  }

  /** A route starts at the start cell: only index 0 has no parent. */
  lemma {:induction false} RouteStartsAtStart(maze: Maze, start: Pos, end: Pos, nodes: seq<Node>, i: nat)
    requires ArenaOK(maze, start, end, nodes) && i < |nodes|
    ensures Route(nodes, i)[0] == start
    decreases i
  {
    if i > 0 {
      assert ChildOK(maze, start, end, nodes, i);
      RouteStartsAtStart(maze, start, end, nodes, nodes[i].parent.value);
    }
  }

  /**
   * A route is a unit-step walk, each step after the first follows the turn table,
   * and every cell after the start is inside the maze and walkable.
   */
  lemma {:induction false} RouteIsLegalWalk(maze: Maze, start: Pos, end: Pos, nodes: seq<Node>, i: nat)
    requires ArenaOK(maze, start, end, nodes) && i < |nodes|
    ensures UnitSteps(Route(nodes, i))
    ensures TurnsAllowed(Route(nodes, i))
    ensures forall k :: 1 <= k < |Route(nodes, i)| ==>
              InBounds(maze, Route(nodes, i)[k]) && Walkable(maze, Route(nodes, i)[k])
    decreases i
  {
    if i > 0 {
      assert ChildOK(maze, start, end, nodes, i);
      var p := nodes[i].parent.value;
      RouteIsLegalWalk(maze, start, end, nodes, p);
      var before := Route(nodes, p);
      var route := Route(nodes, i);
      assert route == before + [nodes[i].pos];
      var step := Sub(nodes[i].pos, nodes[p].pos);
      assert step in MovesFor(nodes, p);
      forall k | 0 <= k < |route| - 2
        ensures Sub(route[k + 2], route[k + 1]) in AllowedAfterOr(Sub(route[k + 1], route[k]), AllMoves)
      {
        if k == |route| - 3 {
          var pp := nodes[p].parent.value;
          assert before == Route(nodes, pp) + [nodes[p].pos];
          assert route[k] == nodes[pp].pos;
        } else {
          assert route[k + 2] == before[k + 2];
        }
      }
    }
  }

  /** On a unit-step walk no name is the fallback name. */
  lemma LabelsRecognized(s: seq<Pos>)
    requires UnitSteps(s)
    ensures Unrecognized !in StepLabels(s)
    ensures |StepLabels(s)| == if s == [] then 0 else |s| - 1
  {
    var labels := StepLabels(s);
    if |s| >= 2 {
      forall k | 0 <= k < |labels|
        ensures labels[k] != Unrecognized
      {
        var d := Sub(s[k + 1], s[k]);
        assert IsDirection(d);
        assert labels[k] == DirectionName(d);
      }
    }
  }
}
