# Nonogram: puzzle state and solution check

A model of the terminal nonogram game in `main.go`: the puzzle data and
its consistency check, the board of cells and its toggle, the cursor and
its bounded moves, and the solution check. The check derives run-length
clues from the board and compares them with the declared clues. The
model follows the code as it behaves, quirks included, and proves what
that behaviour amounts to. Next to it are the definitions the code
evidently meant, with the proofs that the two differ.

Modules, one per file:

- `GoInt` (`go_int.dfy`): Go's 64-bit `int` and its `int32`, with
  wrap-around addition (`Wrap`) and the truncating conversion `int32(n)`
  (`ToInt32`).
- `Puzzle` (`puzzle.dfy`): `NonogramData` and `CheckData`.
- `CellCycle` (`cell_cycle.dfy`): a cell is a raw Go `int`. `Cycled` is
  what `Cycle` stores, and `Cycle` updates one slot of a column array in
  place.
- `RunLength` (`run_length.dfy`): the left-to-right run scan that
  `generateRule` performs (`Scan`), the clue it yields (`Runs`), its
  inverse (`Render`), and the exact condition under which eight run slots
  suffice (`SlotSafe`).
- `Board` (`board.dfy`): the board as an array of column arrays. It has a
  value view `GridOf` (a sequence of columns), `MakeBoardState`, and
  `ToggleAt`, the grid after one cell is cycled.
- `Cursor` (`cursor.dfy`): directions 1 to 4, the candidate position of a
  move, and the bounds a position must lie in.
- `Validator` (`validator.dfy`): `generateRule` (split into `ReadLine`,
  `FillSlots` and `CountRuns`), `sliceEqual` and `testBoard` (split into
  its column loop and its row loop). Each is a method proved against a
  function on the grid. This module also holds the intended check
  (`RowOf`, `BoardSolved`) and the lemmas comparing the two.
- `Play` (`play.dfy`): class `Session`, the program's state. It holds the
  checked data, the board and the global `cursorPos`, with the arrow-key
  move and the space-key toggle.

What the code does that its own text does not suggest:

- The named cell constants start at 1 (`iota + 1`). The board starts at
  0, `Cycle` swaps 0 and 1, and `generateRule` counts a cell as shaded
  when it equals 1, which is the constant called `Empty`. The deferred
  `recover` in `Cycle` never fires, because Go integer addition does not
  panic. A value above 1 is only ever incremented, wrapping at the top of
  `int`.
- In `MakeBoardState`, the `i--` inside `for i := range` does not change
  the iteration.
- For a row, `generateRule` allocates its line again on every round. Only
  the last column's cell survives, after blanks, so a row derives `[]` or
  `[1]`.
- `testBoard` fails when a row clue matches its derived clue, not when
  it differs.

## Model

| member | source | states |
|---|---|---|
| GoInt.ToInt32Truncates | main.go:22-24 | `int32(len(...))` wraps from 2^31 up: the length 2^31 converts to -2^31 and 2^32 converts to 0 |
| GoInt.WrapCancels | main.go:260-269 | moving by `dist` and then by `-dist` in wrapping `int` arithmetic gives back the start, overflow or not |
| Puzzle.CheckData | main.go:20-28 | reports an error exactly when the truncated column count differs from `Width` or the truncated row count from `Height`, and reports the column mismatch when both differ |
| Puzzle.CheckDataExact | main.go:20-28 | for lengths below 2^31: nil exactly when `len(Columns) == Width` and `len(Rows) == Height`, and a column error whenever the column count is wrong |
| Puzzle.CheckedDimensionsNonNegative | main.go:20-28 | data that passes the check (with lengths below 2^31) declares a non-negative width and height |
| Board.MakeBoardState | main.go:31-42 | allocates `Width` fresh, pairwise distinct columns of `Height` cells each, every cell 0 |
| Board.ToggleAt | main.go:175 | the grid keeps its shape; the cell at (col, row) becomes its cycled value, which differs from the old one; every other cell is unchanged |
| Board.BlankIsBinary | main.go:35-39 | a new board holds only 0s and 1s |
| Board.ToggleKeepsBinary | main.go:47-58 | toggling a cell of a board that holds only 0s and 1s keeps the board that way |
| Board.ToggleTwiceRestores | main.go:175 | toggling the same blank or shaded cell twice gives back the board |
| CellCycle.Cycled | main.go:53-57 | a cell never keeps its value when cycled |
| CellCycle.Cycle | main.go:47-58 | the slot is replaced by its cycled value and no other slot of the column changes |
| CellCycle.CycleSwapsBlankAndShaded | main.go:53-57 | 0 becomes 1 and 1 becomes 0 |
| CellCycle.CycleIncrementsOthers | main.go:53-57 | any value other than 1 is incremented, and the largest `int` wraps to the smallest |
| CellCycle.CycledTimesParity | main.go:47-58 | from 0 or 1, `k` toggles give back the start when `k` is even and the other value when it is odd |
| CellCycle.CycleTwiceRestores | main.go:47-58 | two toggles undo each other on a blank or shaded cell |
| Cursor.Candidate | main.go:260-270 | Up and Down keep the column, Left and Right keep the row, and the other coordinate moves by exactly `dist` unless it overflows |
| Cursor.OppositeUndoes | main.go:260-270 | a move followed by the opposite move of the same distance returns to the start position |
| Cursor.EdgeBlocksUnitStep | main.go:271-277 | a one-cell step outwards from the edge gives a candidate outside the bounds |
| Play.Session.constructor | main.go:99-119 | after the data check, the session holds a board of the declared size, every cell 0, with the cursor at (0, 0) |
| Play.Session.MoveCursor | main.go:256-279 | the move succeeds exactly when the candidate lies in `[0, len(board)-1] x [0, len(board[0])-1]`; it then commits the candidate, otherwise the cursor is unchanged; a cursor in bounds stays in bounds |
| Play.Session.Toggle | main.go:175 | only the cell under the cursor changes, to its cycled value; the board's shape and the cursor stay as they were |
| RunLength.Scan | main.go:314-324 | the scan's closed runs are positive, and two cells per closed run plus the open run fit in the line |
| RunLength.Runs | main.go:316-331 | every entry of a derived clue is positive, and a clue has at most one entry per two cells, rounded up |
| RunLength.RunsSum | main.go:316-331 | the entries of a derived clue add up to the number of cells equal to 1 |
| RunLength.RunsEmpty | main.go:316-331 | a line derives `[]` exactly when no cell equals 1 |
| RunLength.RunsAllShaded | main.go:316-331 | a line of `n > 0` cells, all equal to 1, derives `[n]` |
| RunLength.RunsSplit | main.go:316-324 | the clue of `p`, a blank and then `q` is the clue of `p` followed by the clue of `q` |
| RunLength.RunsRender | main.go:316-331 | round trip: the clue derived from the rendered line of a positive clue is that clue |
| RunLength.ShortLineSlotSafe | main.go:312 | a line of at most 16 cells never indexes past the eighth slot |
| RunLength.EightRunsOverflow | main.go:312-324 | a line that has closed eight runs and then reads a blank and one more cell overruns the slots |
| RunLength.SeventeenCellsOverflow | main.go:312-324 | the 17-cell line of eight single shaded cells, each followed by a blank, then one more blank, overruns the slots |
| Validator.ReadLine | main.go:300-309 | the line read is the column itself for a column, and for a row it is blanks followed by that row's cell in the last column |
| Validator.FillSlots | main.go:312-324 | eight fresh slots hold the closed runs of the line, then the open run, then zeros |
| Validator.CountRuns | main.go:312-331 | the trimmed slots are exactly the line's derived clue |
| Validator.GenerateRule | main.go:299-333 | returns the clue derived from the line the source reads |
| Validator.SliceEqual | main.go:335-345 | true exactly when the two clues are equal |
| Validator.ColumnsMatch | main.go:282-287 | true exactly when every column clue equals the clue derived from its column |
| Validator.RowsDiffer | main.go:289-294 | true exactly when no row clue equals the clue derived for its row |
| Validator.TestBoard | main.go:281-297 | true exactly when every column clue matches and no row clue matches; only reads the board |
| Validator.RowLineSlotSafe | main.go:302-306 | the line read for a row never overruns the slots |
| Validator.RowRuleAtMostOne | main.go:302-306 | a row derives `[1]` when its cell in the last column is 1 and `[]` otherwise |
| Validator.CheckedBoardTestable | main.go:20-42 | a board made for checked data with at most 16 rows meets the conditions for `testBoard` not to panic |
| Validator.RowOf | main.go:302-306 | the intended row line holds, in order, the row's cell from every column |
| Validator.FullRowDerivesWidth | main.go:302-306 | under the intended row reading, a fully shaded row of `n` columns derives `[n]` |
| Validator.RowRuleDropsCells | main.go:302-306 | two shaded cells side by side in a row derive `[1]` as written, against `[2]` as intended |
| Validator.AcceptedRejectsSolution | main.go:289-294 | as written, the solved 1 x 1 puzzle with clues `[1]` is rejected |
| Validator.AcceptedAdmitsWrongBoard | main.go:289-294 | as written, a 2 x 2 board shaded in the wrong row is accepted |
| Validator.ToggleChangesColumnRule | main.go:282-287 | toggling a blank or shaded cell changes the clue its column derives |
| Validator.ToggleBreaksAcceptance | main.go:281-297 | a board that passes `testBoard` fails it after any single blank or shaded cell of a clued column is toggled |
| Validator.ToggleBreaksSolution | main.go:175 | toggling one blank or shaded cell of a solved board leaves it unsolved |

## Left out

- `main`'s input handling is not modelled: reading the file named on the command line, `ioutil.ReadAll` and `json.Unmarshal`. The session starts from an already-decoded `NonogramData`.
- The tcell screen, the event goroutine, the `quit` channel and the key dispatch are not modelled. The arrow keys and the space key are the `MoveCursor` and `Toggle` methods.
- The `t` key is not in `Session`. It calls `testBoard`, which the model has as `Validator.TestBoard`; the only other effect of that key is the style change.
- `drawNonogram`, `stateRunes`, `style` and `cursorStyle` are not modelled, since they are display only.
- `ec` is not modelled. It prints and exits, so a failed data check is the constructor's precondition.
- The error text of `CheckData` is not modelled; the error carries the two numbers it formats.
- The commented-out `tryGetFromSlice` is not code.
- Panics are preconditions:
  - an unknown direction in `moveCursor`;
  - an empty board in `moveCursor`, which reads `len(nonState[0])`;
  - a cursor off the board when toggling;
  - a negative size passed to `make`;
  - an out-of-range line index or slot index in `generateRule`.
- Validator.TestBoard: requires every column line to fit the eight slots. The source only needs the lines it reaches before its first early return.
- Validator.ColumnsMatch: the same requirement as TestBoard, for the same reason.
- Play.Session.constructor: requires the declared sizes to be non-negative. That follows from a passed check only for clue lists shorter than 2^31.
- The recovery branch of `Cycle` (a deferred `recover` that would store 0) is not modelled: integer addition cannot panic, so it never runs.

## Findings

| source | as written | input that shows it | evidently intended | confidence | as-written member | corrected member |
|---|---|---|---|---|---|---|
| main.go:303-306 | the row line is reallocated on every round, so only the last column's cell is kept | board `[[1],[1]]`, row 0: derives `[1]` | the row's cells from every column, giving `[2]` | high, not executed | Validator.RowRuleDropsCells | Validator.FullRowDerivesWidth |
| main.go:291 | `testBoard` fails when a row clue matches its derived clue | 1 x 1 puzzle with clues `[1]` and its one cell shaded: rejected | fail when a row clue differs | high, not executed | Validator.AcceptedRejectsSolution | Validator.ToggleBreaksSolution |
| main.go:312 | eight run slots, indexed past the end by a line with more runs | the 17-cell column `1,0,1,0,1,0,1,0,1,0,1,0,1,0,1,0,0`: index 8 out of range | as many slots as the line has runs | medium, not executed | RunLength.SeventeenCellsOverflow | RunLength.RunsRender |

`Session` and `TestBoard` keep the code as written, since they model
what the program does. The corrected definitions are `RowOf`,
`BoardSolved` and `Runs`, where `Runs` has no slot limit. The lemmas
about them sit beside the as-written ones:
`AcceptedAdmitsWrongBoard` and `AcceptedRejectsSolution` compare
`BoardAccepted` with `BoardSolved`.
