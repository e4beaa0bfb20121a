/**
 * The best-first search. The open list holds arena indices; each round takes the
 * first node of least f, removes the first open entry at the same cell, closes the
 * cell, and either rebuilds the path (goal reached) or expands the node through
 * the moves the turn table allows. The closed-set test reads the g of a freshly
 * made node, which is still 0, so it only ever rejects the start cell; any other
 * closed cell can be pushed again, and the search need not terminate. The loop is
 * therefore given a bound on its number of rounds.
 */
module AStarSearch {
  import opened Wrappers
  import opened Grid
  import opened Directions
  import opened Simplifier
  import opened Nodes
  import opened Reconstruction

  /** The state one expansion updates: the node arena, the open list and the best-g map. */
  datatype Frontier = Frontier(nodes: seq<Node>, open: seq<nat>, gCost: map<Pos, int>)

  /** What the search returns: the (path, directions) pair, or the round bound ran out. */
  datatype Outcome = Returned(path: seq<Pos>, directions: seq<string>) | OutOfFuel

  /** The g of a node just constructed, before its costs are assigned. */
  const FreshG: int := 0

  /** Some open node at the same cell has f no greater than n's. */
  predicate Dominated(nodes: seq<Node>, open: seq<nat>, n: Node) {
    exists j :: 0 <= j < |open| && open[j] < |nodes| && SamePosition(n, nodes[open[j]]) && n.f >= nodes[open[j]].f
  }

  /** The closed-set test: the cell is closed and its recorded g is at most the fresh node's g. */
  predicate ClosedRejects(closed: set<Pos>, gCost: map<Pos, int>, p: Pos) {
    p in closed && p in gCost && gCost[p] <= FreshG
  }

  /** The candidate node for the move m out of node cur. */
  function Candidate(end: Pos, nodes: seq<Node>, cur: nat, m: Pos): Node
    requires cur < |nodes|
  {
    var p := Add(nodes[cur].pos, m);
    var g := nodes[cur].g + 1;
    Node(Some(cur), p, g, Heuristic(p, end), g + Heuristic(p, end))
  }

  /** One move of an expansion: the bounds, wall, closed-set and dominance tests, then the push. */
  function TryMove(maze: Maze, end: Pos, closed: set<Pos>, cur: nat, s: Frontier, m: Pos): (t: Frontier)
    requires Rectangular(maze) && cur < |s.nodes|
    ensures s.nodes <= t.nodes
  {
    var n := Candidate(end, s.nodes, cur, m);
    if !InBounds(maze, n.pos) then s
    else if maze[n.pos.r][n.pos.c] != 0 then s
    else if ClosedRejects(closed, s.gCost, n.pos) then s
    else if Dominated(s.nodes, s.open, n) then s
    else Frontier(s.nodes + [n], s.open + [|s.nodes|], s.gCost[n.pos := n.g])
  }

  /** The moves of one expansion applied in order. */
  function Fold(maze: Maze, end: Pos, closed: set<Pos>, cur: nat, s: Frontier, moves: seq<Pos>): (t: Frontier)
    requires Rectangular(maze) && cur < |s.nodes|
    ensures s.nodes <= t.nodes
    decreases |moves|
  {
    if moves == [] then s
    else
      var before := Fold(maze, end, closed, cur, s, moves[..|moves| - 1]);
      TryMove(maze, end, closed, cur, before, moves[|moves| - 1])
  }

  lemma FoldStep(maze: Maze, end: Pos, closed: set<Pos>, cur: nat, s: Frontier, moves: seq<Pos>, i: nat)
    requires Rectangular(maze) && cur < |s.nodes| && i < |moves|
    ensures Fold(maze, end, closed, cur, s, moves[..i + 1])
         == TryMove(maze, end, closed, cur, Fold(maze, end, closed, cur, s, moves[..i]), moves[i])
  {
    assert moves[..i + 1][..i] == moves[..i];
  }

  /** The moves to try from node cur: all four, narrowed by the turn table when cur has a parent. */
  method AllowedMoves(nodes: seq<Node>, cur: nat) returns (moves: seq<Pos>)
    requires ParentsBefore(nodes) && cur < |nodes|
    ensures moves == MovesFor(nodes, cur)
  {
    var current := nodes[cur];
    moves := AllMoves;
    if current.parent.Some? {
      var move := Sub(current.pos, nodes[current.parent.value].pos);
      moves := AllowedAfterOr(move, moves);
      MovesForChild(nodes, cur);
    }
  }

  /** Expanding node cur: try each allowed move in table order. */
  method Expand(maze: Maze, end: Pos, closed: set<Pos>, s: Frontier, cur: nat) returns (t: Frontier)
    requires Rectangular(maze) && ParentsBefore(s.nodes) && cur < |s.nodes|
    ensures t == Fold(maze, end, closed, cur, s, MovesFor(s.nodes, cur))
  {
    var current := s.nodes[cur];
    var allowedMoves := AllowedMoves(s.nodes, cur);
    t := s;
    for i := 0 to |allowedMoves|
      invariant t == Fold(maze, end, closed, cur, s, allowedMoves[..i])
    {
      FoldStep(maze, end, closed, cur, s, allowedMoves, i);
      var move := allowedMoves[i];
      assert t.nodes[cur] == current;
      TryMovePushes(maze, end, closed, cur, t, move);
      var p := Add(current.pos, move);
      if !InBounds(maze, p) || maze[p.r][p.c] != 0 {
        continue;
      }
      if p in closed && p in t.gCost && t.gCost[p] <= FreshG {
        continue;
      }
      var g := current.g + 1;
      var h := Heuristic(p, end);
      var newNode := Node(Some(cur), p, g, h, g + h);
      assert newNode == Candidate(end, t.nodes, cur, move);
      if Dominated(t.nodes, t.open, newNode) {
        continue;
      }
      t := Frontier(t.nodes + [newNode], t.open + [|t.nodes|], t.gCost[p := g]);
    }
    assert allowedMoves[..|allowedMoves|] == allowedMoves;
  }

  /** The index of the first open entry of least f, the entry `min` with a key picks. */
  function FirstMin(nodes: seq<Node>, open: seq<nat>): (k: nat)
    requires open != []
    requires forall j :: 0 <= j < |open| ==> open[j] < |nodes|
    ensures k < |open|
    ensures forall j :: 0 <= j < |open| ==> nodes[open[k]].f <= nodes[open[j]].f
    ensures forall j :: 0 <= j < k ==> nodes[open[j]].f > nodes[open[k]].f
    decreases |open|
  {
    if |open| == 1 then 0
    else
      var k := FirstMin(nodes, open[..|open| - 1]);
      if nodes[open[|open| - 1]].f < nodes[open[k]].f then |open| - 1 else k
  }

  /** Least f, and strictly greater f before it, single out one index. */
  lemma FirstMinUnique(nodes: seq<Node>, open: seq<nat>, k: nat)
    requires open != []
    requires forall j :: 0 <= j < |open| ==> open[j] < |nodes|
    requires k < |open|
    requires forall j :: 0 <= j < |open| ==> nodes[open[k]].f <= nodes[open[j]].f
    requires forall j :: 0 <= j < k ==> nodes[open[j]].f > nodes[open[k]].f
    ensures k == FirstMin(nodes, open)
  {
  }

  /** Selection by a linear scan: the FIRST open entry of least f. */
  method SelectMin(nodes: seq<Node>, open: seq<nat>) returns (k: nat)
    requires open != []
    requires forall j :: 0 <= j < |open| ==> open[j] < |nodes|
    ensures k == FirstMin(nodes, open)
  {
    k := 0;
    for j := 1 to |open|
      invariant k < j
      invariant forall i :: 0 <= i < j ==> nodes[open[k]].f <= nodes[open[i]].f
      invariant forall i :: 0 <= i < k ==> nodes[open[i]].f > nodes[open[k]].f
    {
      if nodes[open[j]].f < nodes[open[k]].f {
        k := j;
      }
    }
    FirstMinUnique(nodes, open, k);
  }

  /** The index of the first open entry at the same cell as node `target`: what `list.remove` deletes. */
  function FirstSame(nodes: seq<Node>, open: seq<nat>, target: nat): (j: nat)
    requires target < |nodes| && target in open
    requires forall i :: 0 <= i < |open| ==> open[i] < |nodes|
    ensures j < |open| && SamePosition(nodes[open[j]], nodes[target])
    ensures forall i :: 0 <= i < j ==> !SamePosition(nodes[open[i]], nodes[target])
    decreases |open|
  {
    if SamePosition(nodes[open[0]], nodes[target]) then 0
    else 1 + FirstSame(nodes, open[1..], target)
  }

  /**
   * Removal by equality: the FIRST open entry at the same cell as node `target`
   * goes, which need not be `target` itself.
   */
  method RemoveFirstSame(nodes: seq<Node>, open: seq<nat>, target: nat) returns (rest: seq<nat>, j: nat)
    requires target < |nodes| && target in open
    requires forall i :: 0 <= i < |open| ==> open[i] < |nodes|
    ensures j == FirstSame(nodes, open, target)
    ensures rest == open[..j] + open[j + 1..]
  {
    ghost var w :| 0 <= w < |open| && open[w] == target;
    j := 0;
    while !SamePosition(nodes[open[j]], nodes[target])
      invariant j <= w
      invariant forall i :: 0 <= i < j ==> !SamePosition(nodes[open[i]], nodes[target])
      decreases w - j
    {
      j := j + 1;
    }
    FirstSameUnique(nodes, open, target, j);
    rest := open[..j] + open[j + 1..];
  }

  /** Being at the cell, with no earlier entry at it, singles out one index. */
  lemma FirstSameUnique(nodes: seq<Node>, open: seq<nat>, target: nat, j: nat)
    requires target < |nodes| && target in open
    requires forall i :: 0 <= i < |open| ==> open[i] < |nodes|
    requires j < |open| && SamePosition(nodes[open[j]], nodes[target])
    requires forall i :: 0 <= i < j ==> !SamePosition(nodes[open[i]], nodes[target])
    ensures j == FirstSame(nodes, open, target)
  {
  }

  /** The search invariant: a well-formed arena, valid open indices, and g 0 recorded only for the start. */
  ghost predicate SearchInv(maze: Maze, start: Pos, end: Pos, s: Frontier) {
    && ArenaOK(maze, start, end, s.nodes)
    && (forall j :: 0 <= j < |s.open| ==> s.open[j] < |s.nodes|)
    && start in s.gCost && s.gCost[start] == 0
    && (forall p :: p in s.gCost && p != start ==> s.gCost[p] >= 1)
  }

  /** Dropping one open entry keeps the search invariant. */
  lemma RemovalKeepsInvariant(maze: Maze, start: Pos, end: Pos, s: Frontier, j: nat)
    requires SearchInv(maze, start, end, s) && j < |s.open|
    ensures SearchInv(maze, start, end, s.(open := s.open[..j] + s.open[j + 1..]))
  {
    var rest := s.open[..j] + s.open[j + 1..];
    forall i | 0 <= i < |rest|
      ensures rest[i] < |s.nodes|
    {
      if i < j {
        assert rest[i] == s.open[i];
      } else {
        assert rest[i] == s.open[i + 1];
      }
    }
  }

  /**
   * Under the search invariant, once the start cell is closed, the closed-set test
   * rejects exactly the start cell: every other cell has a recorded g of at least 1.
   */
  lemma ClosedRejectsOnlyStart(maze: Maze, start: Pos, end: Pos, closed: set<Pos>, s: Frontier, p: Pos)
    requires SearchInv(maze, start, end, s) && start in closed
    ensures ClosedRejects(closed, s.gCost, p) <==> p == start
  {
  }

  /** A move whose candidate has an open rival at its cell with f no greater is not pushed. */
  lemma DominatedNotPushed(maze: Maze, end: Pos, closed: set<Pos>, cur: nat, s: Frontier, m: Pos, j: nat)
    requires Rectangular(maze) && cur < |s.nodes|
    requires j < |s.open| && s.open[j] < |s.nodes|
    requires s.nodes[s.open[j]].pos == Add(s.nodes[cur].pos, m)
    requires s.nodes[s.open[j]].f <= Candidate(end, s.nodes, cur, m).f
    ensures TryMove(maze, end, closed, cur, s, m) == s
  {
  }

  /**
   * A move is pushed exactly when its cell is inside the maze, walkable, not
   * rejected by the closed-set test and not dominated in the open list; the pushed
   * node is a child of cur one step away, and its g is recorded.
   */
  lemma TryMovePushes(maze: Maze, end: Pos, closed: set<Pos>, cur: nat, s: Frontier, m: Pos)
    requires Rectangular(maze) && cur < |s.nodes|
    ensures var n := Candidate(end, s.nodes, cur, m);
            var t := TryMove(maze, end, closed, cur, s, m);
            var pushed := InBounds(maze, n.pos) && Walkable(maze, n.pos)
                          && !ClosedRejects(closed, s.gCost, n.pos) && !Dominated(s.nodes, s.open, n);
            && (pushed ==> t == Frontier(s.nodes + [n], s.open + [|s.nodes|], s.gCost[n.pos := n.g]))
            && (!pushed ==> t == s)
            && n.parent == Some(cur) && Sub(n.pos, s.nodes[cur].pos) == m
  {
  }

  /**
   * Under the search invariant with the start closed, a move either leaves the
   * state unchanged or appends exactly one node and its open entry. The appended
   * node is a child of cur one move away, in bounds, walkable, never the start,
   * one step dearer in g than its parent, with its g recorded, and strictly
   * cheaper in f than every open node at its cell.
   */
  lemma PushedNode(maze: Maze, start: Pos, end: Pos, closed: set<Pos>, cur: nat, s: Frontier, m: Pos)
    requires SearchInv(maze, start, end, s) && start in closed && cur < |s.nodes|
    ensures var t := TryMove(maze, end, closed, cur, s, m);
            && (|t.nodes| == |s.nodes| ==> t == s)
            && (|t.nodes| != |s.nodes| ==>
                  && |t.nodes| == |s.nodes| + 1
                  && t.open == s.open + [|s.nodes|]
                  && var n := t.nodes[|s.nodes|];
                  && n.parent == Some(cur) && Sub(n.pos, s.nodes[cur].pos) == m
                  && InBounds(maze, n.pos) && Walkable(maze, n.pos) && n.pos != start
                  && n.g == s.nodes[cur].g + 1 && n.g >= 1 && n.f >= n.g
                  && t.gCost == s.gCost[n.pos := n.g]
                  && (forall j :: 0 <= j < |s.open| && s.nodes[s.open[j]].pos == n.pos ==>
                        s.nodes[s.open[j]].f > n.f))
  {
    var n := Candidate(end, s.nodes, cur, m);
    TryMovePushes(maze, end, closed, cur, s, m);
    ClosedRejectsOnlyStart(maze, start, end, closed, s, n.pos);
  }

  /**
   * A closed cell other than the start is pushed again whenever it is in bounds,
   * walkable and not dominated: the closed-set test does not protect it.
   */
  lemma ClosedCellReopened(maze: Maze, start: Pos, end: Pos, closed: set<Pos>, cur: nat, s: Frontier, m: Pos)
    requires SearchInv(maze, start, end, s) && start in closed && cur < |s.nodes|
    requires var n := Candidate(end, s.nodes, cur, m);
             n.pos in closed && n.pos != start && InBounds(maze, n.pos) && Walkable(maze, n.pos)
             && !Dominated(s.nodes, s.open, n)
    ensures |TryMove(maze, end, closed, cur, s, m).nodes| == |s.nodes| + 1
  {
    ClosedRejectsOnlyStart(maze, start, end, closed, s, Add(s.nodes[cur].pos, m));
  }

  /** Once the start cell is closed, no move pushes a node at the start cell again. */
  lemma StartNeverRepushed(maze: Maze, start: Pos, end: Pos, closed: set<Pos>, cur: nat, s: Frontier, m: Pos)
    requires SearchInv(maze, start, end, s) && start in closed && cur < |s.nodes|
    ensures forall k :: |s.nodes| <= k < |TryMove(maze, end, closed, cur, s, m).nodes| ==>
              TryMove(maze, end, closed, cur, s, m).nodes[k].pos != start
  {
    var n := Candidate(end, s.nodes, cur, m);
    TryMovePushes(maze, end, closed, cur, s, m);
    ClosedRejectsOnlyStart(maze, start, end, closed, s, n.pos);
  }

  /** One move keeps the search invariant. */
  lemma TryMoveKeepsInvariant(maze: Maze, start: Pos, end: Pos, closed: set<Pos>, cur: nat, s: Frontier, m: Pos)
    requires SearchInv(maze, start, end, s) && start in closed && cur < |s.nodes|
    requires m in MovesFor(s.nodes, cur)
    ensures SearchInv(maze, start, end, TryMove(maze, end, closed, cur, s, m))
  {
    var n := Candidate(end, s.nodes, cur, m);
    var t := TryMove(maze, end, closed, cur, s, m);
    if t != s {
      TryMovePushes(maze, end, closed, cur, s, m);
      ClosedRejectsOnlyStart(maze, start, end, closed, s, n.pos);
      assert n.pos != start;
      ArenaAppend(maze, start, end, s.nodes, n);
    }
  }

  /** A whole expansion keeps the search invariant. */
  lemma {:induction false} FoldKeepsInvariant(maze: Maze, start: Pos, end: Pos, closed: set<Pos>, cur: nat, s: Frontier, moves: seq<Pos>)
    requires SearchInv(maze, start, end, s) && start in closed && cur < |s.nodes|
    requires forall m :: m in moves ==> m in MovesFor(s.nodes, cur)
    ensures SearchInv(maze, start, end, Fold(maze, end, closed, cur, s, moves))
    decreases |moves|
  {
    if moves != [] {
      var prefix := moves[..|moves| - 1];
      FoldKeepsInvariant(maze, start, end, closed, cur, s, prefix);
      var before := Fold(maze, end, closed, cur, s, prefix);
      MovesForPrefix(s.nodes, before.nodes, cur);
      TryMoveKeepsInvariant(maze, start, end, closed, cur, before, moves[|moves| - 1]);
    }
  }

  /**
   * The moves an expansion tries: all four for the start node, and for every
   * other node exactly the turn-table entry of the step that reached it, which is
   * straight on or clockwise and never back.
   */
  lemma ExpansionMoves(maze: Maze, start: Pos, end: Pos, nodes: seq<Node>, i: nat)
    requires ArenaOK(maze, start, end, nodes) && i < |nodes|
    ensures i == 0 ==> MovesFor(nodes, i) == AllMoves
    ensures i > 0 ==>
              && nodes[i].parent.Some?
              && var step := Sub(nodes[i].pos, nodes[nodes[i].parent.value].pos);
              && IsDirection(step)
              && MovesFor(nodes, i) == [step, Clockwise(step)]
              && Opposite(step) !in MovesFor(nodes, i)
  {
    if i > 0 {
      ChildFacts(maze, start, end, nodes, i);
      NonRootMoves(nodes, i);
    } else {
      assert nodes[0].parent.None?;
    }
  }

  /** The moves of a node reached by a unit step: that step and its clockwise turn, never back. */
  lemma NonRootMoves(nodes: seq<Node>, i: nat)
    requires ParentsBefore(nodes) && i < |nodes| && nodes[i].parent.Some?
    requires IsDirection(Sub(nodes[i].pos, nodes[nodes[i].parent.value].pos))
    ensures var step := Sub(nodes[i].pos, nodes[nodes[i].parent.value].pos);
            && MovesFor(nodes, i) == [step, Clockwise(step)]
            && Opposite(step) !in MovesFor(nodes, i)
  {
    var step := Sub(nodes[i].pos, nodes[nodes[i].parent.value].pos);
    assert MovesFor(nodes, i) == [step, Clockwise(step)];
    assert AllowedAfter(step).value == [step, Clockwise(step)];
  }

  /**
   * What a returned non-empty answer satisfies, stated on the raw route `raw` it
   * was built from: the route runs from start to goal in unit steps obeying the
   * turn table over walkable cells, the path is its simplification and the labels
   * name its steps.
   */
  ghost predicate FoundAnswer(maze: Maze, start: Pos, end: Pos, raw: seq<Pos>, path: seq<Pos>, directions: seq<string>)
    requires Rectangular(maze)
  {
    && |raw| >= 1 && raw[0] == start && raw[|raw| - 1] == end
    && UnitSteps(raw) && TurnsAllowed(raw)
    && (forall k :: 1 <= k < |raw| ==> InBounds(maze, raw[k]) && Walkable(maze, raw[k]))
    && path == Simplify(raw)
    && |path| >= 2 && path[0] == start && path[|path| - 1] == end
    && directions == StepLabels(raw)
    && |directions| == |raw| - 1
    && Unrecognized !in directions
  }

  /** At a goal node, its route, that route simplified and its labels form a found answer. */
  lemma GoalAnswer(maze: Maze, start: Pos, end: Pos, nodes: seq<Node>, cur: nat)
    requires ArenaOK(maze, start, end, nodes) && cur < |nodes| && nodes[cur].pos == end
    ensures FoundAnswer(maze, start, end, Route(nodes, cur), Simplify(Route(nodes, cur)), StepLabels(Route(nodes, cur)))
  {
    RouteStartsAtStart(maze, start, end, nodes, cur);
    RouteIsLegalWalk(maze, start, end, nodes, cur);
    LabelsRecognized(Route(nodes, cur));
  }

  /** The goal branch: rebuild the route to node cur, simplify it, and label its steps. */
  method BuildAnswer(maze: Maze, start: Pos, end: Pos, nodes: seq<Node>, cur: nat)
    returns (path: seq<Pos>, directions: seq<string>, raw: seq<Pos>)
    requires ArenaOK(maze, start, end, nodes) && cur < |nodes| && nodes[cur].pos == end
    ensures raw == Route(nodes, cur)
    ensures FoundAnswer(maze, start, end, raw, path, directions)
    ensures cur == 0 ==> raw == [start]
  {
    raw, directions := Reconstruct(nodes, cur);
    RouteStartsAtStart(maze, start, end, nodes, cur);
    RouteIsLegalWalk(maze, start, end, nodes, cur);
    LabelsRecognized(raw);
    path := SimplifyPath(raw);
  }

  /** The start frontier: the start node alone, open, with g 0 recorded for its cell. */
  function InitialFrontier(start: Pos): Frontier {
    Frontier([StartNode(start)], [0], map[start := 0])
  }

  /** The state between rounds: the frontier and the set of closed cells. */
  datatype Search = Search(s: Frontier, closed: set<Pos>)

  /**
   * Where a sequence of rounds ends: the outcome, the number of rounds that
   * expanded a node, the state at exit, and the arena index of the goal node
   * when one was taken from the open list.
   */
  datatype Run = Run(outcome: Outcome, used: nat, last: Search, goal: nat)

  /** The states a search passes through: the invariant holds, and the start is closed after the first round. */
  ghost predicate Reachable(maze: Maze, start: Pos, end: Pos, st: Search) {
    && SearchInv(maze, start, end, st.s)
    && (start in st.closed || st.s == InitialFrontier(start))
  }

  /** The arena index of the node a round takes: the first open entry of least f. */
  function Selected(st: Search): (cur: nat)
    requires st.s.open != [] && forall j :: 0 <= j < |st.s.open| ==> st.s.open[j] < |st.s.nodes|
    ensures cur < |st.s.nodes| && cur in st.s.open
  {
    st.s.open[FirstMin(st.s.nodes, st.s.open)]
  }

  /** The state after a round's removal and closing: the first open entry at the selected cell goes, the cell is closed. */
  function Taken(st: Search): Search
    requires st.s.open != [] && forall j :: 0 <= j < |st.s.open| ==> st.s.open[j] < |st.s.nodes|
  {
    var cur := Selected(st);
    var j := FirstSame(st.s.nodes, st.s.open, cur);
    Search(st.s.(open := st.s.open[..j] + st.s.open[j + 1..]), st.closed + {st.s.nodes[cur].pos})
  }

  /** The state after a round that does not reach the goal: the selected node expanded. */
  function Expanded(maze: Maze, end: Pos, st: Search): Search
    requires Rectangular(maze) && ParentsBefore(st.s.nodes)
    requires st.s.open != [] && forall j :: 0 <= j < |st.s.open| ==> st.s.open[j] < |st.s.nodes|
  {
    var cur := Selected(st);
    var t := Taken(st);
    Search(Fold(maze, end, t.closed, cur, t.s, MovesFor(t.s.nodes, cur)), t.closed)
  }

  /** A round keeps the search in its reachable states, and removal does not touch the arena. */
  lemma RoundKeepsReachable(maze: Maze, start: Pos, end: Pos, st: Search)
    requires Reachable(maze, start, end, st) && st.s.open != []
    ensures Taken(st).s.nodes == st.s.nodes
    ensures Reachable(maze, start, end, Taken(st))
    ensures Reachable(maze, start, end, Expanded(maze, end, st))
  {
    var cur := Selected(st);
    var j := FirstSame(st.s.nodes, st.s.open, cur);
    RemovalKeepsInvariant(maze, start, end, st.s, j);
    var t := Taken(st);
    assert start in t.closed;
    FoldKeepsInvariant(maze, start, end, t.closed, cur, t.s, MovesFor(t.s.nodes, cur));
  }

  /** The outcome with the rounds count raised by n. */
  function Shifted(r: Run, n: nat): (q: Run)
    ensures q.outcome == r.outcome && q.last == r.last && q.goal == r.goal && q.used == r.used + n
  {
    r.(used := r.used + n)
  }

  /**
   * The rounds of the search from state `st`, at most `fuel` of them. A round
   * takes the first open node of least f, removes the first open entry at its
   * cell, and closes the cell; at the goal it answers with the simplified
   * route and its labels, otherwise it expands the node. An empty open list
   * answers two empty lists; a spent bound answers OutOfFuel.
   */
  function Rounds(maze: Maze, start: Pos, end: Pos, st: Search, fuel: nat): (r: Run)
    requires Reachable(maze, start, end, st)
    ensures r.used <= fuel
    ensures r.outcome.OutOfFuel? ==> r.used == fuel && r.last.s.open != []
    ensures r.outcome.Returned? && r.outcome.path == [] ==> r.outcome.directions == [] && r.last.s.open == []
    ensures r.outcome.Returned? && r.outcome.path != [] ==>
              r.used < fuel && r.goal < |r.last.s.nodes| && r.last.s.nodes[r.goal].pos == end
    ensures AnswerOK(maze, start, end, r)
    decreases fuel
  {
    if st.s.open == [] then Run(Returned([], []), 0, st, 0)
    else if fuel == 0 then Run(OutOfFuel, 0, st, 0)
    else
      RoundKeepsReachable(maze, start, end, st);
      var cur := Selected(st);
      if st.s.nodes[cur].pos == end then
        var raw := Route(st.s.nodes, cur);
        GoalAnswer(maze, start, end, st.s.nodes, cur);
        Run(Returned(Simplify(raw), StepLabels(raw)), 0, Taken(st), cur)
      else
        var later := Rounds(maze, start, end, Expanded(maze, end, st), fuel - 1);
        AnswerIgnoresRounds(maze, start, end, later, Shifted(later, 1));
        Shifted(later, 1)
  }

  /**
   * What a run's non-empty answer satisfies: the goal index names a node of the
   * final arena, and that node's route, simplified and labelled, is the answer.
   */
  ghost predicate AnswerOK(maze: Maze, start: Pos, end: Pos, r: Run)
    requires Rectangular(maze)
  {
    r.outcome.Returned? && r.outcome.path != [] ==>
      && ParentsBefore(r.last.s.nodes) && r.goal < |r.last.s.nodes|
      && FoundAnswer(maze, start, end, Route(r.last.s.nodes, r.goal), r.outcome.path, r.outcome.directions)
  }

  /** Whether a run's answer is right does not depend on how many rounds it counts. */
  lemma AnswerIgnoresRounds(maze: Maze, start: Pos, end: Pos, r: Run, q: Run)
    requires Rectangular(maze)
    requires q.outcome == r.outcome && q.last == r.last && q.goal == r.goal
    ensures AnswerOK(maze, start, end, r) ==> AnswerOK(maze, start, end, q)
  {
  }

  /** A round that takes a goal node answers with that node's simplified, labelled route. */
  lemma RoundsAtGoal(maze: Maze, start: Pos, end: Pos, st: Search, fuel: nat)
    requires Reachable(maze, start, end, st) && st.s.open != [] && fuel > 0
    requires st.s.nodes[Selected(st)].pos == end
    ensures var raw := Route(st.s.nodes, Selected(st));
            Rounds(maze, start, end, st, fuel) == Run(Returned(Simplify(raw), StepLabels(raw)), 0, Taken(st), Selected(st))
  {
  }

  /** A round away from the goal leaves a reachable state, and the rounds from here are one more than the rounds from there. */
  lemma RoundsOnward(maze: Maze, start: Pos, end: Pos, st: Search, fuel: nat)
    requires Reachable(maze, start, end, st) && st.s.open != [] && fuel > 0
    requires st.s.nodes[Selected(st)].pos != end
    ensures Reachable(maze, start, end, Expanded(maze, end, st))
    ensures Rounds(maze, start, end, st, fuel) == Shifted(Rounds(maze, start, end, Expanded(maze, end, st), fuel - 1), 1)
  {
    RoundKeepsReachable(maze, start, end, st);
  }

  /** One round from `a`, away from the goal, leads to `b`. */
  ghost predicate Onward(maze: Maze, start: Pos, end: Pos, a: Search, b: Search) {
    && Reachable(maze, start, end, a) && a.s.open != []
    && a.s.nodes[Selected(a)].pos != end
    && b == Expanded(maze, end, a)
  }

  /** Each state of the trace is one round away from the goal after the one before it. */
  ghost predicate Chain(maze: Maze, start: Pos, end: Pos, trace: seq<Search>)
    decreases |trace|
  {
    |trace| <= 1 ||
    (Chain(maze, start, end, trace[..|trace| - 1]) && Onward(maze, start, end, trace[|trace| - 2], trace[|trace| - 1]))
  }

  /** Along a trace of rounds away from the goal, the rounds from its first state are those from its last, shifted by its length. */
  lemma {:induction false} TraceRounds(maze: Maze, start: Pos, end: Pos, trace: seq<Search>, fuel: nat)
    requires |trace| >= 1 && |trace| - 1 <= fuel
    requires Reachable(maze, start, end, trace[|trace| - 1]) && Chain(maze, start, end, trace)
    ensures Reachable(maze, start, end, trace[0])
    ensures Rounds(maze, start, end, trace[0], fuel)
            == Shifted(Rounds(maze, start, end, trace[|trace| - 1], fuel - (|trace| - 1)), |trace| - 1)
    decreases |trace|
  {
    if |trace| > 1 {
      var n := |trace| - 1;
      var prefix := trace[..n];
      assert Onward(maze, start, end, trace[n - 1], trace[n]);
      assert prefix[0] == trace[0] && prefix[n - 1] == trace[n - 1];
      TraceRounds(maze, start, end, prefix, fuel);
      RoundsOnward(maze, start, end, trace[n - 1], fuel - (n - 1));
    }
  }

  /** Rounds from a state with an empty open list, or with no fuel left, stop at once. */
  lemma RoundsHalt(maze: Maze, start: Pos, end: Pos, st: Search, fuel: nat)
    requires Reachable(maze, start, end, st) && (st.s.open == [] || fuel == 0)
    ensures Rounds(maze, start, end, st, fuel)
            == Run(if st.s.open == [] then Returned([], []) else OutOfFuel, 0, st, 0)
  {
  }

  /** Rounds along a trace that ends at a goal node answer with that node's simplified, labelled route. */
  lemma TraceFound(maze: Maze, start: Pos, end: Pos, trace: seq<Search>, fuel: nat)
    requires |trace| >= 1 && |trace| - 1 < fuel && Chain(maze, start, end, trace)
    requires var last := trace[|trace| - 1];
             Reachable(maze, start, end, last) && last.s.open != [] && last.s.nodes[Selected(last)].pos == end
    ensures Reachable(maze, start, end, trace[0])
    ensures var last := trace[|trace| - 1];
            var r := Rounds(maze, start, end, trace[0], fuel);
            var raw := Route(last.s.nodes, Selected(last));
            && r.outcome == Returned(Simplify(raw), StepLabels(raw))
            && r.used == |trace| - 1 && r.last == Taken(last) && r.goal == Selected(last)
  {
    TraceRounds(maze, start, end, trace, fuel);
    RoundsAtGoal(maze, start, end, trace[|trace| - 1], fuel - (|trace| - 1));
  }

  /** Rounds along a trace that ends with an empty open list or with the fuel spent stop there. */
  lemma TraceHalted(maze: Maze, start: Pos, end: Pos, trace: seq<Search>, fuel: nat)
    requires |trace| >= 1 && |trace| - 1 <= fuel && Chain(maze, start, end, trace)
    requires var last := trace[|trace| - 1];
             Reachable(maze, start, end, last) && (last.s.open == [] || |trace| - 1 == fuel)
    ensures Reachable(maze, start, end, trace[0])
    ensures var last := trace[|trace| - 1];
            var r := Rounds(maze, start, end, trace[0], fuel);
            && r.outcome == (if last.s.open == [] then Returned([], []) else OutOfFuel)
            && r.used == |trace| - 1 && r.last == last
  {
    TraceRounds(maze, start, end, trace, fuel);
    RoundsHalt(maze, start, end, trace[|trace| - 1], fuel - (|trace| - 1));
  }

  /**
   * The first half of a round: take the first open node of least f, drop the
   * first open entry at its cell, and close the cell.
   */
  method TakeNext(s: Frontier, closed: set<Pos>) returns (t: Frontier, closedNext: set<Pos>, cur: nat)
    requires s.open != [] && forall j :: 0 <= j < |s.open| ==> s.open[j] < |s.nodes|
    ensures cur == Selected(Search(s, closed))
    ensures Search(t, closedNext) == Taken(Search(s, closed))
  {
    var k := SelectMin(s.nodes, s.open);
    cur := s.open[k];
    var current := s.nodes[cur];
    var rest, j := RemoveFirstSame(s.nodes, s.open, cur);
    t := s.(open := rest);
    closedNext := closed + {current.pos};
  }

  /** A search whose start is its goal answers the doubled start cell and no labels in its first round. */
  lemma RoundsStartIsGoal(maze: Maze, start: Pos, fuel: nat)
    requires Rectangular(maze) && fuel > 0
    ensures Reachable(maze, start, start, Search(InitialFrontier(start), {}))
    ensures var r := Rounds(maze, start, start, Search(InitialFrontier(start), {}), fuel);
            r.outcome == Returned([start, start], []) && r.used == 0 && r.goal == 0
  {
    var nodes := [StartNode(start)];
    assert ArenaOK(maze, start, start, nodes);
    assert Route(nodes, 0) == [start];
    SimplifySingleton(start);
  }

  /**
   * Whatever agrees with the rounds from the start state has the search's
   * promised outcome: an exhausted open list gives two empty lists, a spent
   * bound gives OutOfFuel with entries left, and a non-empty answer is the
   * simplified, labelled route of a goal node.
   */
  lemma RunReported(maze: Maze, start: Pos, end: Pos, fuel: nat,
                    result: Outcome, raw: seq<Pos>, used: nat, final: Frontier, goal: nat)
    requires Rectangular(maze) && Reachable(maze, start, end, Search(InitialFrontier(start), {}))
    requires var r := Rounds(maze, start, end, Search(InitialFrontier(start), {}), fuel);
             && result == r.outcome && used == r.used && final == r.last.s
             && (result.Returned? && result.path != [] ==> goal == r.goal && raw == Route(final.nodes, goal))
    ensures used <= fuel
    ensures result.OutOfFuel? ==> used == fuel && final.open != []
    ensures result.Returned? && result.path == [] ==> result.directions == [] && final.open == []
    ensures result.Returned? && result.path != [] ==>
              && used < fuel
              && goal < |final.nodes| && final.nodes[goal].pos == end
              && FoundAnswer(maze, start, end, raw, result.path, result.directions)
    ensures start == end && fuel > 0 ==> result == Returned([start, start], [])
  {
    if start == end && fuel > 0 {
      RoundsStartIsGoal(maze, start, fuel);
    }
  }

  /**
   * The rounds loop of the search, run until the goal is taken, the open list
   * runs dry or `fuel` rounds have expanded a node. The ghost `trace` records
   * the state before each round: it starts at the start state and each state
   * is one round away from the goal after the one before. The ghost results
   * expose the raw route, the rounds that expanded a node, the state at exit
   * and the goal node's index.
   */
  method RunRounds(maze: Maze, start: Pos, end: Pos, fuel: nat)
    returns (result: Outcome, ghost raw: seq<Pos>, ghost used: nat, ghost final: Frontier, ghost goal: nat,
             ghost trace: seq<Search>)
    requires Rectangular(maze)
    ensures |trace| == used + 1 && used <= fuel
    ensures trace[0] == Search(InitialFrontier(start), {}) && Chain(maze, start, end, trace)
    ensures Reachable(maze, start, end, trace[used]) && SearchInv(maze, start, end, final)
    ensures result.Returned? && result.path != [] ==>
              && used < fuel && trace[used].s.open != []
              && goal == Selected(trace[used]) && trace[used].s.nodes[goal].pos == end
              && final == Taken(trace[used]).s && raw == Route(final.nodes, goal)
              && result == Returned(Simplify(raw), StepLabels(raw))
    ensures !(result.Returned? && result.path != []) ==>
              && final == trace[used].s && (final.open == [] || used == fuel)
              && result == (if final.open == [] then Returned([], []) else OutOfFuel)
  {
    var endNode := Node(None, end, 0, 0, 0);
    var s := InitialFrontier(start);
    var closed: set<Pos> := {};
    assert ArenaOK(maze, start, end, s.nodes);
    trace := [Search(s, closed)];
    var rounds := 0;
    while s.open != [] && rounds < fuel
      invariant rounds <= fuel
      invariant Reachable(maze, start, end, Search(s, closed))
      invariant |trace| == rounds + 1 && trace[0] == Search(InitialFrontier(start), {}) && trace[rounds] == Search(s, closed)
      invariant Chain(maze, start, end, trace)
      decreases fuel - rounds
    {
      ghost var before := Search(s, closed);
      var cur;
      s, closed, cur := TakeNext(s, closed);
      RoundKeepsReachable(maze, start, end, before);
      var current := s.nodes[cur];
      if SamePosition(current, endNode) {
        var path, directions, route := BuildAnswer(maze, start, end, s.nodes, cur);
        return Returned(path, directions), route, rounds, s, cur, trace;
      }
      s := Expand(maze, end, closed, s, cur);
      assert Search(s, closed) == Expanded(maze, end, before);
      assert Onward(maze, start, end, before, Search(s, closed));
      assert (trace + [Search(s, closed)])[..rounds + 1] == trace;
      trace := trace + [Search(s, closed)];
      rounds := rounds + 1;
    }
    if s.open == [] {
      return Returned([], []), [], rounds, s, 0, trace;
    }
    return OutOfFuel, [], rounds, s, 0, trace;
  }

  /**
   * The search. On reaching the goal it returns the simplified route and the
   * labels of the raw route's steps; when the open list runs dry, two empty lists;
   * when the round bound is spent first, OutOfFuel. Its answer is that of
   * `Rounds` from the start state, which `RunRounds` computes.
   */
  method AStar(maze: Maze, start: Pos, end: Pos, fuel: nat)
    returns (result: Outcome, ghost raw: seq<Pos>, ghost used: nat, ghost final: Frontier, ghost goal: nat)
    requires Rectangular(maze)
    ensures Reachable(maze, start, end, Search(InitialFrontier(start), {}))
    ensures var r := Rounds(maze, start, end, Search(InitialFrontier(start), {}), fuel);
            && result == r.outcome && used == r.used && final == r.last.s
            && (result.Returned? && result.path != [] ==> goal == r.goal)
    ensures used <= fuel && SearchInv(maze, start, end, final)
    ensures result.OutOfFuel? ==> used == fuel && final.open != []
    ensures result.Returned? && result.path == [] ==> result.directions == [] && final.open == []
    ensures result.Returned? && result.path != [] ==>
              && used < fuel
              && goal < |final.nodes| && final.nodes[goal].pos == end
              && raw == Route(final.nodes, goal)
              && FoundAnswer(maze, start, end, raw, result.path, result.directions)
    ensures start == end && fuel > 0 ==> result == Returned([start, start], [])
  {
    ghost var trace;
    result, raw, used, final, goal, trace := RunRounds(maze, start, end, fuel);
    if result.Returned? && result.path != [] {
      TraceFound(maze, start, end, trace, fuel);
    } else {
      TraceHalted(maze, start, end, trace, fuel);
    }
    RunReported(maze, start, end, fuel, result, raw, used, final, goal);
  }
}
