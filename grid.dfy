/**
 * Cells of the occupancy grid, coordinate arithmetic and the search heuristic.
 * A cell is a (row, column) pair; a maze is a list of rows of integers where
 * 0 marks a walkable cell and anything else a wall.
 */
module Grid {

  datatype Pos = Pos(r: int, c: int)

  type Maze = seq<seq<int>>

  /** Component-wise sum: the cell reached from `a` by the step `d`. */
  function Add(a: Pos, d: Pos): Pos {
    Pos(a.r + d.r, a.c + d.c)
  }

  /** Component-wise difference: the step that leads from `b` to `a`. */
  function Sub(a: Pos, b: Pos): Pos {
    Pos(a.r - b.r, a.c - b.c)
  }

  /** Every row is as long as the first one. */
  predicate Rectangular(maze: Maze) {
    forall i :: 0 <= i < |maze| ==> |maze[i]| == |maze[0]|
  }

  /** The bounds test of the expansion step; the width is the length of row 0. */
  predicate InBounds(maze: Maze, p: Pos) {
    0 <= p.r < |maze| && 0 <= p.c < |maze[0]|
  }

  predicate Walkable(maze: Maze, p: Pos)
    requires Rectangular(maze) && InBounds(maze, p)
  {
    maze[p.r][p.c] == 0
  }

  /** x * x is never negative and vanishes only at 0. */
  lemma SquareFacts(x: int)
    ensures x * x >= 0
    ensures x * x == 0 <==> x == 0
  {
    if x > 0 {
      assert x * x >= x;
    } else if x < 0 {
      assert x * x == (-x) * (-x);
      assert (-x) * (-x) >= -x;
    }
  }

  /**
   * Squared Euclidean distance between two cells, in integers.
   * Never negative and zero exactly on equal cells.
   */
  function Heuristic(a: Pos, b: Pos): (h: int)
    ensures h >= 0
    ensures h == 0 <==> a == b
  {
    SquareFacts(a.r - b.r);
    SquareFacts(a.c - b.c);
    (a.r - b.r) * (a.r - b.r) + (a.c - b.c) * (a.c - b.c)
  }

  /** The heuristic does not depend on the order of its arguments. */
  lemma HeuristicSymmetric(a: Pos, b: Pos)
    ensures Heuristic(a, b) == Heuristic(b, a)
  {
    assert (a.r - b.r) * (a.r - b.r) == (b.r - a.r) * (b.r - a.r);
    assert (a.c - b.c) * (a.c - b.c) == (b.c - a.c) * (b.c - a.c);
  }
}
