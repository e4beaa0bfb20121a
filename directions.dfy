/**
 * The four unit steps of the grid, their Finnish labels and the turn table that
 * restricts which step may follow which: straight on, or a clockwise turn.
 */
module Directions {
  import opened Grid
  import opened Wrappers

  const Up := Pos(-1, 0)
  const Right := Pos(0, 1)
  const Down := Pos(1, 0)
  const Left := Pos(0, -1)

  /** The moves tried when nothing restricts the expansion, in the order they are tried. */
  const AllMoves: seq<Pos> := [Up, Right, Down, Left]

  predicate IsDirection(d: Pos) {
    d == Up || d == Right || d == Down || d == Left
  }

  /** Reference definitions of the turn geometry, independent of the tables below. */
  function Clockwise(d: Pos): Pos {
    Pos(d.c, -d.r)
  }

  function Opposite(d: Pos): Pos {
    Pos(-d.r, -d.c)
  }

  /** The label for a step that is none of the four directions. */
  const Unrecognized := "TUNNISTAMATON"

  /** Label of a step; an unknown step gets the fallback label. */
  function DirectionName(d: Pos): (name: string)
    ensures name == Unrecognized <==> !IsDirection(d)
  {
    if d == Up then "YLÖS"
    else if d == Right then "OIKEA"
    else if d == Down then "ALAS"
    else if d == Left then "VASEN"
    else Unrecognized
  }

  /** Different directions get different labels. */
  lemma NamesDistinct(d: Pos, e: Pos)
    requires IsDirection(d) && IsDirection(e) && d != e
    ensures DirectionName(d) != DirectionName(e)
  {
  }

  /**
   * The turn table: the steps allowed right after a step `d`.
   * Only the four directions have an entry; each entry is "straight on, then
   * clockwise", and never the reverse of `d`.
   */
  function AllowedAfter(d: Pos): (moves: Option<seq<Pos>>)
    ensures moves.Some? <==> IsDirection(d)
    ensures moves.Some? ==> moves.value == [d, Clockwise(d)]
    ensures moves.Some? ==> Opposite(d) !in moves.value
  {
    if d == Up then Some([Up, Right])
    else if d == Right then Some([Right, Down])
    else if d == Down then Some([Down, Left])
    else if d == Left then Some([Left, Up])
    else None
  }

  /** Table lookup with a default, as a dictionary `get` with a fallback. */
  function AllowedAfterOr(d: Pos, fallback: seq<Pos>): seq<Pos> {
    match AllowedAfter(d)
    case Some(moves) => moves
    case None => fallback
  }

  /**
   * The permission graph is a four-cycle: turning clockwise keeps a direction a
   * direction, never yields the same or the opposite direction, and four turns
   * come back to the start.
   */
  lemma ClockwiseCycle(d: Pos)
    requires IsDirection(d)
    ensures IsDirection(Clockwise(d))
    ensures Clockwise(d) != d && Clockwise(d) != Opposite(d)
    ensures Clockwise(Clockwise(d)) == Opposite(d)
    ensures Clockwise(Clockwise(Clockwise(Clockwise(d)))) == d
  {
    if d == Up {
    } else if d == Right {
    } else if d == Down {
    } else {
      assert d == Left;
    }
  }

  /** Whatever the expansion may try, with or without a table hit, is a unit step. */
  lemma AllowedAreDirections(d: Pos)
    ensures forall m :: m in AllowedAfterOr(d, AllMoves) ==> IsDirection(m)
    ensures |AllowedAfterOr(d, AllMoves)| == if IsDirection(d) then 2 else 4
  {
    if IsDirection(d) {
      ClockwiseCycle(d);
    }
  }

  /** Consecutive cells of `s` are one unit step apart. */
  predicate UnitSteps(s: seq<Pos>) {
    forall k :: 0 <= k < |s| - 1 ==> IsDirection(Sub(s[k + 1], s[k]))
  }

  /** Every step after the first follows the turn table applied to the step before it. */
  predicate TurnsAllowed(s: seq<Pos>) {
    forall k :: 0 <= k < |s| - 2 ==> Sub(s[k + 2], s[k + 1]) in AllowedAfterOr(Sub(s[k + 1], s[k]), AllMoves)
  }
}
