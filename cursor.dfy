/** Cursor movement (`moveCursor`): directions, the candidate position a move
    computes, and the bounds a position must lie in to be committed. */
module Cursor {
  import opened GoInt

  /** Go's `Direction int`, numbered from 1 (`iota + 1`). */
  type Direction = int

  const Up: Direction := 1
  const Down: Direction := 2
  const Left: Direction := 3
  const Right: Direction := 4

  /** The values `moveCursor` accepts; any other one makes it panic. */
  predicate IsDirection(d: Direction)
  {
    Up <= d <= Right
  }

  function Opposite(d: Direction): (o: Direction)
    requires IsDirection(d)
    ensures IsDirection(o) && o != d
  {
    if d == Up then Down
    else if d == Down then Up
    else if d == Left then Right
    else Left
  }

  /** `cursorPos`: (column, row), with the origin at the top left. */
  type Position = (Int, Int)

  /** The buffer `moveCursor` fills in: Up and Down move along the row axis,
      Left and Right along the column axis, by `dist` in Go's wrapping `int`
      arithmetic. */
  function Candidate(pos: Position, dir: Direction, dist: Int): (c: Position)
    requires IsDirection(dir)
    ensures dir == Up || dir == Down ==> c.0 == pos.0
    ensures dir == Left || dir == Right ==> c.1 == pos.1
    ensures dir == Up && INT_MIN <= pos.1 - dist <= INT_MAX ==> c.1 == pos.1 - dist
    ensures dir == Down && INT_MIN <= pos.1 + dist <= INT_MAX ==> c.1 == pos.1 + dist
    ensures dir == Left && INT_MIN <= pos.0 - dist <= INT_MAX ==> c.0 == pos.0 - dist
    ensures dir == Right && INT_MIN <= pos.0 + dist <= INT_MAX ==> c.0 == pos.0 + dist
  {
    if dir == Up then (pos.0, Wrap(pos.1 - dist))
    else if dir == Down then (pos.0, Wrap(pos.1 + dist))
    else if dir == Left then (Wrap(pos.0 - dist), pos.1)
    else (Wrap(pos.0 + dist), pos.1)
  }

  /** Inside `[0, width - 1] x [0, height - 1]`, the check `moveCursor` makes
      against `cursorMax`. */
  predicate InBounds(pos: Position, width: int, height: int)
  {
    0 <= pos.0 <= width - 1 && 0 <= pos.1 <= height - 1
  }

  /** A move followed by the opposite move of the same distance comes back to
      the starting position, overflow or not. */
  lemma OppositeUndoes(pos: Position, dir: Direction, dist: Int)
    requires IsDirection(dir)
    ensures Candidate(Candidate(pos, dir, dist), Opposite(dir), dist) == pos
  {
    WrapCancels(pos.0, dist);
    WrapCancels(pos.1, dist);
  }

  /** At the edge a unit step outwards is blocked: the candidate is outside
      the bounds. */
  lemma EdgeBlocksUnitStep(pos: Position, dir: Direction, width: int, height: int)
    requires IsDirection(dir) && InBounds(pos, width, height)
    requires dir == Up ==> pos.1 == 0
    requires dir == Down ==> pos.1 == height - 1
    requires dir == Left ==> pos.0 == 0
    requires dir == Right ==> pos.0 == width - 1
    ensures !InBounds(Candidate(pos, dir, 1), width, height)
  {
  }
}
