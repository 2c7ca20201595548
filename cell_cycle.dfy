/** A board cell and its toggle (`NonogramCellState.Cycle`). A cell is a raw
    Go `int`: the board starts at 0, `Cycle` swaps 0 and 1, and the validator
    counts exactly the cells equal to 1 as shaded. The named constants start
    at 1 (`iota + 1`), so the one called `Empty` is the shaded value and
    `Filled` is never stored by the program. */
module CellCycle {
  import opened GoInt

  type CellState = Int

  const Empty: CellState := 1
  const Filled: CellState := 2
  /** Marks where the cycle wraps; not a state a cell is meant to hold. */
  const EndState: CellState := 3

  /** The value `Cycle` leaves in a cell holding `v`. The test `v + 2 ==
      EndState` holds for `v == 1` alone, so 1 goes to 0 and every other
      value is incremented, wrapping at the top of `int`. The deferred
      `recover` in the source never fires, since integer addition in Go does
      not panic. */
  function Cycled(v: CellState): (r: CellState)
    ensures r != v
  {
    if Wrap(v + 2) == EndState then 0 else Wrap(v + 1)
  }

  /** `cell.Cycle()` through a pointer: the slot `cells[i]` is replaced by
      its cycled value and nothing else in the array changes. */
  method Cycle(cells: array<CellState>, i: nat)
    requires i < cells.Length
    modifies cells
    ensures cells[..] == old(cells[..])[i := Cycled(old(cells[i]))]
  {
    var v: int := cells[i];
    if Wrap(v + 2) == EndState {
      cells[i] := 0;
    } else {
      cells[i] := Wrap(v + 1);
    }
  }

  /** Cycle swaps the two values the program uses: blank (0) and shaded (1). */
  lemma CycleSwapsBlankAndShaded()
    ensures Cycled(0) == 1 && Cycled(1) == 0
  {
  }

  /** Every value other than 1 is incremented; the largest `int` wraps to the
      smallest, so a cell never goes back to 0 from above 1. */
  lemma CycleIncrementsOthers(v: CellState)
    requires v != 1
    ensures v < INT_MAX ==> Cycled(v) == v + 1
    ensures v == INT_MAX ==> Cycled(v) == INT_MIN
  {
  }

  /** The value after `k` toggles. */
  function CycledTimes(v: CellState, k: nat): CellState
  {
    if k == 0 then v else Cycled(CycledTimes(v, k - 1))
  }

  /** Starting from blank or shaded, the cell stays in {0, 1} and `k` toggles
      give back the starting value exactly when `k` is even. */
  lemma {:induction false} CycledTimesParity(v: CellState, k: nat)
    requires v == 0 || v == 1
    ensures CycledTimes(v, k) == if k % 2 == 0 then v else 1 - v
  {
    if k > 0 {
      CycledTimesParity(v, k - 1);
    }
  }

  /** Two toggles undo each other on a blank or shaded cell. */
  lemma CycleTwiceRestores(v: CellState)
    requires v == 0 || v == 1
    ensures Cycled(Cycled(v)) == v
  {
  }
}
