/** The solution check: `generateRule` derives the clue of one line of the
    board, `sliceEqual` compares two clues and `testBoard` compares the
    derived clues with the declared ones. The source's row handling is kept
    as written; `RowOf` and `BoardSolved` state the check it evidently
    intended, and the lemmas at the end set the two side by side. */
module Validator {
  import opened GoInt
  import opened Puzzle
  import opened CellCycle
  import opened RunLength
  import opened Board

  /** `generateRule(index, isRow, board)` reads its line without an index
      panic: a column index must name a column; a row index is applied to
      every column, so it must be in range for each of them. */
  predicate LineDefined(grid: Grid, index: int, isRow: bool)
  {
    if isRow then RowInRange(grid, index) else 0 <= index < |grid|
  }

  predicate RowInRange(grid: Grid, row: int)
  {
    forall c :: 0 <= c < |grid| ==> 0 <= row < |grid[c]|
  }

  /** The line `generateRule` scans. For a column, the column itself. For a
      row, the line is reallocated on every round of its loop, so only the
      cell stored in the last round survives: blanks, then the row's cell in
      the last column. */
  function Line(grid: Grid, index: int, isRow: bool): (line: seq<CellState>)
    requires LineDefined(grid, index, isRow)
  {
    if !isRow then grid[index]
    else if grid == [] then []
    else
      var last := grid[|grid| - 1];
      seq(|grid| - 1, _ => 0) + [last[index]]
  }

  /** The clue `generateRule` returns. */
  function DerivedRule(grid: Grid, index: int, isRow: bool): seq<int>
    requires LineDefined(grid, index, isRow)
  {
    Runs(Line(grid, index, isRow))
  }

  /** The first half of `generateRule`: the line it scans. A column is the
      board's own column array; a row is a new array, allocated anew on every
      round of the loop. */
  method ReadLine(index: int, isRow: bool, board: array<array<CellState>>)
    returns (line: array<CellState>)
    requires LineDefined(GridOf(board), index, isRow)
    ensures line[..] == Line(GridOf(board), index, isRow)
  {
    line := new CellState[0];
    if isRow {
      for i := 0 to board.Length
        invariant i == 0 ==> line.Length == 0
        invariant 0 < i ==> line.Length == board.Length
        invariant 0 < i ==> forall j :: 0 <= j < board.Length ==>
                    line[j] == if j == i - 1 then board[i - 1][index] else 0
      {
        assert board[i][..] == GridOf(board)[i];
        line := new CellState[board.Length](_ => 0);
        line[i] := board[i][index];
      }
    } else {
      line := board[index];
    }
  }

  /** The counting loop of `generateRule`: slot `seg` holds the length of
      the run being read; an unshaded cell after a non-empty slot moves on to
      the next slot. On return the slots hold the closed runs, then the open
      one, then zeros. */
  method FillSlots(line: array<CellState>) returns (genRule: array<int>, seg: nat)
    requires SlotSafe(line[..])
    ensures fresh(genRule) && genRule.Length == SLOTS
    ensures seg == |Scan(line[..]).closed| <= SLOTS
    ensures genRule[..seg] == Scan(line[..]).closed
    ensures seg < SLOTS ==> genRule[seg] == Scan(line[..]).open
    ensures seg == SLOTS ==> Scan(line[..]).open == 0
    ensures forall j :: seg < j < SLOTS ==> genRule[j] == 0
  {
    genRule := new int[SLOTS](_ => 0);
    seg := 0;
    for k := 0 to line.Length
      invariant seg == |Scan(line[..k]).closed| <= SLOTS
      invariant genRule[..seg] == Scan(line[..k]).closed
      invariant seg < SLOTS ==> genRule[seg] == Scan(line[..k]).open
      invariant seg == SLOTS ==> Scan(line[..k]).open == 0
      invariant forall j :: seg < j < SLOTS ==> genRule[j] == 0
    {
      assert line[..k + 1][..k] == line[..k];
      assert line[..k] == line[..][..k];
      if line[k] == 1 {
        genRule[seg] := genRule[seg] + 1;
      } else if genRule[seg] != 0 {
        seg := seg + 1;
      }
    }
    assert line[..line.Length] == line[..];
  }

  /** The counting and trimming half of `generateRule`: the slots, without
      their trailing empty ones, are the runs of the line. */
  method CountRuns(line: array<CellState>) returns (rule: seq<int>)
    requires SlotSafe(line[..])
    ensures rule == Runs(line[..])
  {
    var genRule, seg := FillSlots(line);
    ghost var scanned := Scan(line[..]);
    ghost var stop := if seg < SLOTS && genRule[seg] != 0 then seg + 1 else seg;
    var n := SLOTS;
    while n > 0 && genRule[n - 1] == 0
      invariant stop <= n <= SLOTS
    {
      n := n - 1;
    }
    rule := genRule[..n];
    if scanned.open != 0 {
      assert rule == genRule[..seg] + [genRule[seg]];
    } else {
      assert rule == genRule[..seg];
    }
  }

  /** `generateRule`: reads its line, counts its shaded runs into eight
      slots, then drops the trailing empty slots. */
  method GenerateRule(index: int, isRow: bool, board: array<array<CellState>>)
    returns (rule: seq<int>)
    requires LineDefined(GridOf(board), index, isRow)
    requires SlotSafe(Line(GridOf(board), index, isRow))
    ensures rule == DerivedRule(GridOf(board), index, isRow)
  {
    var line := ReadLine(index, isRow, board);
    rule := CountRuns(line);
  }

  /** `sliceEqual`: same length, then element by element. */
  method SliceEqual(a: seq<int>, b: seq<int>) returns (equal: bool)
    ensures equal <==> a == b
  {
    if |a| != |b| {
      return false;
    }
    for i := 0 to |a|
      invariant a[..i] == b[..i]
    {
      if a[i] != b[i] {
        return false;
      }
    }
    return true;
  }

  /** Every line `testBoard` derives can be read: there is a column for
      every column clue and a cell in every column for every row clue. */
  predicate LinesDefined(grid: Grid, data: NonogramData)
  {
    && |data.columns| <= |grid|
    && (forall c :: 0 <= c < |grid| ==> |data.rows| <= |grid[c]|)
  }

  /** Every column line fits `generateRule`'s slots (row lines always do). */
  predicate SlotsSuffice(grid: Grid, data: NonogramData)
    requires LinesDefined(grid, data)
  {
    forall i :: 0 <= i < |data.columns| ==> SlotSafe(Line(grid, i, false))
  }

  /** What `testBoard` answers: every column clue equals its derived clue,
      and no row clue equals the clue `generateRule` derives for that row. */
  predicate BoardAccepted(grid: Grid, data: NonogramData)
    requires LinesDefined(grid, data)
  {
    && (forall i :: 0 <= i < |data.columns| ==> data.columns[i] == DerivedRule(grid, i, false))
    && (forall i :: 0 <= i < |data.rows| ==> data.rows[i] != DerivedRule(grid, i, true))
  }

  /** The column loop of `testBoard`: true when every column clue equals the
      clue derived for that column, stopping at the first that does not. */
  method ColumnsMatch(board: array<array<CellState>>, data: NonogramData) returns (matched: bool)
    requires LinesDefined(GridOf(board), data)
    requires SlotsSuffice(GridOf(board), data)
    ensures matched <==> forall j :: 0 <= j < |data.columns| ==> data.columns[j] == DerivedRule(GridOf(board), j, false)
  {
    ghost var grid := GridOf(board);
    for i := 0 to |data.columns|
      invariant GridOf(board) == grid
      invariant forall j :: 0 <= j < i ==> data.columns[j] == DerivedRule(grid, j, false)
    {
      assert SlotSafe(Line(grid, i, false));
      var genRule := GenerateRule(i, false, board);
      var equal := SliceEqual(data.columns[i], genRule);
      if !equal {
        return false;
      }
    }
    return true;
  }

  /** The row loop of `testBoard`: true when no row clue equals the clue
      derived for that row, stopping at the first that does. */
  method RowsDiffer(board: array<array<CellState>>, data: NonogramData) returns (differ: bool)
    requires LinesDefined(GridOf(board), data)
    ensures differ <==> forall j :: 0 <= j < |data.rows| ==> data.rows[j] != DerivedRule(GridOf(board), j, true)
  {
    ghost var grid := GridOf(board);
    for i := 0 to |data.rows|
      invariant GridOf(board) == grid
      invariant forall j :: 0 <= j < i ==> data.rows[j] != DerivedRule(grid, j, true)
    {
      RowLineSlotSafe(grid, i);
      var genRule := GenerateRule(i, true, board);
      var equal := SliceEqual(data.rows[i], genRule);
      if equal {
        return false;
      }
    }
    return true;
  }

  /** `testBoard`: the column test, then the row test. It only reads the
      board. */
  method TestBoard(board: array<array<CellState>>, data: NonogramData) returns (accepted: bool)
    requires LinesDefined(GridOf(board), data)
    requires SlotsSuffice(GridOf(board), data)
    ensures accepted == BoardAccepted(GridOf(board), data)
  {
    accepted := ColumnsMatch(board, data);
    if accepted {
      accepted := RowsDiffer(board, data);
    }
  }

  /** A row line is blank up to its last cell, so its scan never closes a
      run before the end and never overruns the slots. */
  lemma RowLineSlotSafe(grid: Grid, index: int)
    requires LineDefined(grid, index, true)
    ensures SlotSafe(Line(grid, index, true))
  {
    var line := Line(grid, index, true);
    forall k | 0 <= k < |line|
      ensures |Scan(line[..k]).closed| < SLOTS
    {
      ScanNoneShaded(line[..k]);
    }
  }

  /** A row derives `[1]` when its cell in the last column is shaded and `[]`
      otherwise, whatever the other cells of the row hold. */
  lemma RowRuleAtMostOne(grid: Grid, index: int)
    requires LineDefined(grid, index, true)
    ensures DerivedRule(grid, index, true) ==
              if |grid| > 0 && Shaded(Line(grid, index, true)[|grid| - 1]) then [1] else []
  {
    if grid != [] {
      var line := Line(grid, index, true);
      var blanks := seq(|grid| - 1, _ => 0);
      assert line[..|line| - 1] == blanks;
      ScanNoneShaded(blanks);
    }
  }

  /** A board for a checked puzzle of at most 16 rows can be tested: every
      line is in range and every column fits the slots. */
  lemma CheckedBoardTestable(grid: Grid, data: NonogramData)
    requires CheckData(data).None?
    requires |data.columns| <= INT32_MAX && |data.rows| <= INT32_MAX
    requires |grid| == data.width
    requires forall c :: 0 <= c < |grid| ==> |grid[c]| == data.height
    requires data.height <= 2 * SLOTS
    ensures LinesDefined(grid, data) && SlotsSuffice(grid, data)
  {
    CheckDataExact(data);
    forall i | 0 <= i < |data.columns|
      ensures SlotSafe(Line(grid, i, false))
    {
      ShortLineSlotSafe(grid[i]);
    }
  }

  // The check the source evidently intended.

  /** The cells of row `row`, left to right. */
  function RowOf(grid: Grid, row: int): (line: seq<CellState>)
    requires RowInRange(grid, row)
    ensures |line| == |grid|
    ensures forall c :: 0 <= c < |grid| ==> var column := grid[c]; line[c] == column[row]
  {
    seq(|grid|, c requires 0 <= c < |grid| => var column := grid[c]; column[row])
  }

  /** Every column and every row derives exactly its declared clue. */
  predicate BoardSolved(grid: Grid, data: NonogramData)
    requires LinesDefined(grid, data)
  {
    && (forall i :: 0 <= i < |data.columns| ==> data.columns[i] == Runs(grid[i]))
    && (forall i :: 0 <= i < |data.rows| ==> data.rows[i] == Runs(RowOf(grid, i)))
  }

  /** A fully shaded row of `n > 0` cells derives `[n]` once the whole row is
      read. */
  lemma FullRowDerivesWidth(grid: Grid, row: int)
    requires RowInRange(grid, row) && |grid| > 0
    requires forall c :: 0 <= c < |grid| ==> var column := grid[c]; Shaded(column[row])
    ensures Runs(RowOf(grid, row)) == [|grid|]
  {
    RunsAllShaded(RowOf(grid, row));
  }

  /** As written, the row branch loses all but the last cell: two shaded
      cells side by side derive `[1]` instead of `[2]`. */
  lemma RowRuleDropsCells()
    ensures DerivedRule([[1], [1]], 0, true) == [1]
    ensures Runs(RowOf([[1], [1]], 0)) == [2]
  {
    RowRuleAtMostOne([[1], [1]], 0);
    FullRowDerivesWidth([[1], [1]], 0);
  }

  /** As written, the inverted row test rejects a solved board: the 1 x 1
      puzzle with clues `[1]` and its one shaded cell. */
  lemma AcceptedRejectsSolution()
    ensures LinesDefined([[1]], NonogramData("", 1, 1, [[1]], [[1]]))
    ensures BoardSolved([[1]], NonogramData("", 1, 1, [[1]], [[1]]))
    ensures !BoardAccepted([[1]], NonogramData("", 1, 1, [[1]], [[1]]))
  {
    RunsAllShaded([1]);
    assert RowOf([[1]], 0) == [1];
    RowRuleAtMostOne([[1]], 0);
  }

  /** As written, a wrong board is accepted: columns with clues `[1]`,
      `[1]` and rows with clues `[2]`, `[]`, shaded in the bottom row
      instead of the top one. */
  lemma AcceptedAdmitsWrongBoard(grid: Grid, data: NonogramData)
    requires grid == [[0, 1], [0, 1]]
    requires data == NonogramData("", 2, 2, [[1], [1]], [[2], []])
    ensures LinesDefined(grid, data)
    ensures BoardAccepted(grid, data)
    ensures !BoardSolved(grid, data)
  {
    var column: seq<int> := [0, 1];
    assert grid[0] == column && grid[1] == column;
    var one: seq<int> := [1];
    RunsSplit([], 0, one);
    RunsAllShaded(one);
    assert [] + [0] + one == column;
    assert DerivedRule(grid, 0, false) == DerivedRule(grid, 1, false) == [1];
    RowRuleAtMostOne(grid, 0);
    RowRuleAtMostOne(grid, 1);
    assert DerivedRule(grid, 0, true) == [];
    assert DerivedRule(grid, 1, true) == [1];
    assert RowOf(grid, 0) == [0, 0];
  }

  /** Toggling a blank or shaded cell changes the clue its column derives:
      the number of shaded cells, which the clue adds up to, moves by one. */
  lemma ToggleChangesColumnRule(grid: Grid, col: int, row: int)
    requires HasCell(grid, col, row)
    requires grid[col][row] == 0 || grid[col][row] == 1
    ensures Runs(ToggleAt(grid, col, row)[col]) != Runs(grid[col])
  {
    var before := grid[col];
    var after := ToggleAt(grid, col, row)[col];
    assert after == before[row := Cycled(before[row])];
    CountUpdate(before, row, Cycled(before[row]));
    RunsSum(before);
    RunsSum(after);
  }

  /** Even as written, a board that passes stops passing once any single
      blank or shaded cell of a clued column is toggled: the column test
      catches it. */
  lemma ToggleBreaksAcceptance(grid: Grid, data: NonogramData, col: int, row: int)
    requires LinesDefined(grid, data) && BoardAccepted(grid, data)
    requires HasCell(grid, col, row) && col < |data.columns|
    requires grid[col][row] == 0 || grid[col][row] == 1
    ensures LinesDefined(ToggleAt(grid, col, row), data)
    ensures !BoardAccepted(ToggleAt(grid, col, row), data)
  {
    ToggleChangesColumnRule(grid, col, row);
    assert DerivedRule(ToggleAt(grid, col, row), col, false) != data.columns[col];
  }

  /** Toggling a single blank or shaded cell of a solved board leaves it
      unsolved. */
  lemma ToggleBreaksSolution(grid: Grid, data: NonogramData, col: int, row: int)
    requires LinesDefined(grid, data) && BoardSolved(grid, data)
    requires HasCell(grid, col, row) && col < |data.columns|
    requires grid[col][row] == 0 || grid[col][row] == 1
    ensures LinesDefined(ToggleAt(grid, col, row), data)
    ensures !BoardSolved(ToggleAt(grid, col, row), data)
  {
    ToggleChangesColumnRule(grid, col, row);
  }
}
