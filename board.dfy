/** The board (`NonogramBoardState`): one array of cells per column, indexed
    `[column][row]`, built once by `MakeBoardState` and then changed only one
    cell at a time. `GridOf` reads it as a value for the specifications. */
module Board {
  import opened GoInt
  import opened Puzzle
  import opened CellCycle

  /** A board as a value: `grid[c][r]` is the cell in column `c`, row `r`. */
  type Grid = seq<seq<CellState>>

  ghost function Footprint(b: array<array<CellState>>): set<array<CellState>>
    reads b
  {
    set i | 0 <= i < b.Length :: b[i]
  }

  ghost function GridOf(b: array<array<CellState>>): (g: Grid)
    reads b, Footprint(b)
    ensures |g| == b.Length
    ensures forall i :: 0 <= i < b.Length ==> g[i] == b[i][..]
  {
    Columns(b, b.Length)
  }

  /** The first `n` columns of the board, as values. */
  ghost function Columns(b: array<array<CellState>>, n: nat): (g: Grid)
    requires n <= b.Length
    reads b, Footprint(b)
    ensures |g| == n
    ensures forall i :: 0 <= i < n ==> g[i] == b[i][..]
  {
    if n == 0 then [] else Columns(b, n - 1) + [b[n - 1][..]]
  }

  /** `width` columns of `height` cells each, no two columns sharing storage. */
  ghost predicate WellFormed(b: array<array<CellState>>, width: int, height: int)
    reads b
  {
    && b.Length == width
    && (forall i :: 0 <= i < b.Length ==> b[i].Length == height)
    && (forall i, j :: 0 <= i < j < b.Length ==> b[i] != b[j])
  }

  /** A board of the given size with every cell 0. */
  function Blank(width: nat, height: nat): (g: Grid)
  {
    seq(width, _ => seq(height, _ => 0))
  }

  /** Allocates `width` columns, then a zero-filled column of `height` cells
      for each. The source's `i--` inside the range loop changes only its
      copy of the index, which the range clause overwrites on the next
      round, so every column is allocated once. */
  method MakeBoardState(data: NonogramData) returns (nbs: array<array<CellState>>)
    requires 0 <= data.width && 0 <= data.height
    ensures fresh(nbs) && forall i :: 0 <= i < nbs.Length ==> fresh(nbs[i])
    ensures WellFormed(nbs, data.width, data.height)
    ensures GridOf(nbs) == Blank(data.width, data.height)
  {
    var width: nat, height: nat := data.width, data.height;
    var unset := new CellState[0];
    nbs := new array<CellState>[width](_ => unset);
    for k := 0 to width
      invariant forall j :: 0 <= j < k ==> fresh(nbs[j]) && nbs[j] != unset
      invariant forall j :: 0 <= j < k ==> nbs[j].Length == height
      invariant forall j :: 0 <= j < k ==> nbs[j][..] == seq(height, _ => 0)
      invariant forall j, j' :: 0 <= j < j' < k ==> nbs[j] != nbs[j']
    {
      var i := k;
      nbs[i] := new CellState[height](_ => 0);
      i := i - 1;
    }
  }

  /** Board coordinates `(col, row)` that name a cell of `grid`. */
  predicate HasCell(grid: Grid, col: int, row: int)
  {
    0 <= col < |grid| && 0 <= row < |grid[col]|
  }

  /** The board after the cell at `(col, row)` has been cycled. */
  function ToggleAt(grid: Grid, col: int, row: int): (g: Grid)
    requires HasCell(grid, col, row)
    ensures |g| == |grid| && forall c :: 0 <= c < |g| ==> |g[c]| == |grid[c]|
    ensures g[col][row] == Cycled(grid[col][row]) != grid[col][row]
    ensures forall c, r :: HasCell(grid, c, r) && (c, r) != (col, row) ==> g[c][r] == grid[c][r]
  {
    var column: seq<CellState> := grid[col][row := Cycled(grid[col][row])];
    grid[col := column]
  }

  /** Every cell is blank or shaded. */
  predicate Binary(grid: Grid)
  {
    forall c, r :: 0 <= c < |grid| && 0 <= r < |grid[c]| ==> grid[c][r] == 0 || grid[c][r] == 1
  }

  /** A fresh board is binary, and toggling keeps a binary board binary:
      under the program's own operations no cell ever leaves {0, 1}. */
  lemma ToggleKeepsBinary(grid: Grid, col: int, row: int)
    requires Binary(grid) && HasCell(grid, col, row)
    ensures Binary(ToggleAt(grid, col, row))
  {
    var g := ToggleAt(grid, col, row);
    forall c, r | HasCell(g, c, r)
      ensures g[c][r] == 0 || g[c][r] == 1
    {
      assert HasCell(grid, c, r);
    }
  }

  lemma BlankIsBinary(width: nat, height: nat)
    ensures Binary(Blank(width, height))
  {
  }

  /** Toggling the same blank or shaded cell twice restores the board. */
  lemma ToggleTwiceRestores(grid: Grid, col: int, row: int)
    requires HasCell(grid, col, row)
    requires grid[col][row] == 0 || grid[col][row] == 1
    ensures ToggleAt(ToggleAt(grid, col, row), col, row) == grid
  {
    CycleTwiceRestores(grid[col][row]);
    var once := ToggleAt(grid, col, row);
    var twice := ToggleAt(once, col, row);
    assert twice[col] == grid[col];
    assert twice == grid[col := grid[col]];
  }
}
