/**
 * Search nodes and the arena that holds them. Each node records the index of the
 * node that generated it; that index is always smaller than its own, so the parent
 * links form a tree rooted at index 0, the start node.
 */
module Nodes {
  import opened Wrappers
  import opened Grid
  import opened Directions

  /** A search node: generating node (by arena index), cell, and costs g, h, f. */
  datatype Node = Node(parent: Option<nat>, pos: Pos, g: int, h: int, f: int)

  /** Node equality as the search uses it: by cell only, ignoring parent and costs. */
  predicate SamePosition(a: Node, b: Node) {
    a.pos == b.pos
  }

  /** Position equality is an equivalence that cannot see costs or parents. */
  lemma SamePositionIgnoresCosts(a: Node, b: Node, parent: Option<nat>, g: int, h: int, f: int)
    ensures SamePosition(a, a.(parent := parent, g := g, h := h, f := f))
    ensures SamePosition(a, b) <==> SamePosition(b, a)
    ensures SamePosition(a, b) ==> SamePosition(a.(parent := parent, g := g, h := h, f := f), b)
  {
  }

  /** The start node as the search creates it: no parent and every cost 0. */
  function StartNode(start: Pos): Node {
    Node(None, start, 0, 0, 0)
  }

  /** Every parent link points to an earlier node of the arena. */
  predicate ParentsBefore(nodes: seq<Node>) {
    forall k :: 0 <= k < |nodes| && nodes[k].parent.Some? ==> nodes[k].parent.value < k
  }

  /**
   * The moves an expansion of node i tries: all four for a node without parent,
   * otherwise the turn-table entry for the step that reached it (all four if that
   * step has no entry).
   */
  function MovesFor(nodes: seq<Node>, i: nat): (moves: seq<Pos>)
    requires ParentsBefore(nodes) && i < |nodes|
    ensures nodes[i].parent.None? ==> moves == AllMoves
    ensures nodes[i].parent.Some? ==>
              var step := Sub(nodes[i].pos, nodes[nodes[i].parent.value].pos);
              IsDirection(step) ==> moves == [step, Clockwise(step)]
    ensures forall m :: m in moves ==> IsDirection(m)
  {
    match nodes[i].parent
    case None => AllMoves
    case Some(p) =>
      AllowedAreDirections(Sub(nodes[i].pos, nodes[p].pos));
      AllowedAfterOr(Sub(nodes[i].pos, nodes[p].pos), AllMoves)
  }

  /** The moves of a node with a parent: the table entry for its incoming step, or all four. */
  lemma MovesForChild(nodes: seq<Node>, i: nat)
    requires ParentsBefore(nodes) && i < |nodes| && nodes[i].parent.Some?
    ensures MovesFor(nodes, i) == AllowedAfterOr(Sub(nodes[i].pos, nodes[nodes[i].parent.value].pos), AllMoves)
  {
  }

  /** What the search guarantees of every node it pushes after the start node. */
  ghost predicate ChildOK(maze: Maze, start: Pos, end: Pos, nodes: seq<Node>, k: nat)
    requires Rectangular(maze) && ParentsBefore(nodes) && 0 < k < |nodes|
  {
    && nodes[k].parent.Some?
    && var p := nodes[k].parent.value;
    && Sub(nodes[k].pos, nodes[p].pos) in MovesFor(nodes, p)
    && InBounds(maze, nodes[k].pos)
    && Walkable(maze, nodes[k].pos)
    && nodes[k].pos != start
    && nodes[k].g == nodes[p].g + 1
    && nodes[k].h == Heuristic(nodes[k].pos, end)
    && nodes[k].f == nodes[k].g + nodes[k].h
  }

  /** The arena invariant: the start node at index 0 and well-formed children after it. */
  ghost predicate ArenaOK(maze: Maze, start: Pos, end: Pos, nodes: seq<Node>) {
    && Rectangular(maze)
    && ParentsBefore(nodes)
    && |nodes| >= 1
    && nodes[0] == StartNode(start)
    && (forall k :: 0 <= k < |nodes| ==> nodes[k].g >= 0)
    && (forall k :: 0 < k < |nodes| ==> ChildOK(maze, start, end, nodes, k))
  }

  /** Growing the arena does not change what earlier nodes' expansions try. */
  lemma MovesForPrefix(nodes: seq<Node>, longer: seq<Node>, i: nat)
    requires ParentsBefore(nodes) && ParentsBefore(longer) && nodes <= longer && i < |nodes|
    ensures MovesFor(longer, i) == MovesFor(nodes, i)
  {
    assert longer[i] == nodes[i];
  }

  /** Appending a well-formed child of an existing node keeps the arena invariant. */
  lemma ArenaAppend(maze: Maze, start: Pos, end: Pos, nodes: seq<Node>, n: Node)
    requires ArenaOK(maze, start, end, nodes)
    requires n.parent.Some? && n.parent.value < |nodes|
    requires Sub(n.pos, nodes[n.parent.value].pos) in MovesFor(nodes, n.parent.value)
    requires InBounds(maze, n.pos) && Walkable(maze, n.pos) && n.pos != start
    requires n.g == nodes[n.parent.value].g + 1
    requires n.h == Heuristic(n.pos, end) && n.f == n.g + n.h
    ensures ArenaOK(maze, start, end, nodes + [n])
  {
    var s := nodes + [n];
    assert ParentsBefore(s);
    forall k | 0 < k < |s|
      ensures ChildOK(maze, start, end, s, k)
    {
      if k < |nodes| {
        assert ChildOK(maze, start, end, nodes, k);
        MovesForPrefix(nodes, s, nodes[k].parent.value);
      } else {
        MovesForPrefix(nodes, s, n.parent.value);
      }
    }
  }

  /** What the arena invariant says of one node after the start node. */
  lemma ChildFacts(maze: Maze, start: Pos, end: Pos, nodes: seq<Node>, k: nat)
    requires ArenaOK(maze, start, end, nodes) && 0 < k < |nodes|
    ensures nodes[k].parent.Some? && nodes[k].parent.value < k
    ensures IsDirection(Sub(nodes[k].pos, nodes[nodes[k].parent.value].pos))
    ensures Sub(nodes[k].pos, nodes[nodes[k].parent.value].pos) in MovesFor(nodes, nodes[k].parent.value)
  {
    assert ChildOK(maze, start, end, nodes, k);
  }
}
