/** The state the key handlers of `main` work on: the checked puzzle, the
    board made from it and the cursor (`cursorPos`). Arrow keys call
    `moveCursor` with a distance of 1; the space key cycles the cell under
    the cursor. */
module Play {
  import opened GoInt
  import opened Puzzle
  import opened CellCycle
  import opened Board
  import opened Cursor

  class Session {
    const data: NonogramData
    const board: array<array<CellState>>
    var cursor: Position

    /** The board has the puzzle's size and no two columns share storage. */
    ghost predicate Valid()
      reads this, board
    {
      WellFormed(board, data.width, data.height)
    }

    /** The board's cells, column by column. */
    ghost function Grid(): Grid
      reads this, board, Footprint(board)
    {
      GridOf(board)
    }

    /** Start-up: the data has passed `CheckData` (otherwise `ec` panics),
        `MakeBoardState` allocates a blank board and the cursor starts at the
        top left. `make` panics on a negative length, hence the sizes. */
    constructor (data: NonogramData)
      requires CheckData(data).None?
      requires 0 <= data.width && 0 <= data.height
      ensures this.data == data && cursor == (0, 0)
      ensures Valid() && Grid() == Blank(data.width, data.height)
      ensures fresh(board) && forall i :: 0 <= i < board.Length ==> fresh(board[i])
    {
      var nbs := MakeBoardState(data);
      this.data := data;
      board := nbs;
      cursor := (0, 0);
    }

    /** `moveCursor(dir, dist, nonState)`: computes the moved position in a
        buffer and commits it only when it lies on the board. The bound on the
        row axis is read from the first column, so the board must have one;
        a direction outside `Up`..`Right` panics. */
    method MoveCursor(dir: Direction, dist: Int) returns (moveCompleted: bool)
      requires IsDirection(dir) && 0 < board.Length
      modifies this`cursor
      ensures moveCompleted <==> InBounds(Candidate(old(cursor), dir, dist), board.Length, board[0].Length)
      ensures cursor == if moveCompleted then Candidate(old(cursor), dir, dist) else old(cursor)
      ensures InBounds(old(cursor), board.Length, board[0].Length) ==> InBounds(cursor, board.Length, board[0].Length)
    {
      var buffer := cursor;
      var cursorMax := (board.Length - 1, board[0].Length - 1);
      if dir == Up {
        buffer := (buffer.0, Wrap(buffer.1 - dist));
      } else if dir == Down {
        buffer := (buffer.0, Wrap(buffer.1 + dist));
      } else if dir == Left {
        buffer := (Wrap(buffer.0 - dist), buffer.1);
      } else {
        buffer := (Wrap(buffer.0 + dist), buffer.1);
      }
      if buffer.0 <= cursorMax.0 && buffer.0 >= 0 && buffer.1 <= cursorMax.1 && buffer.1 >= 0 {
        cursor := buffer;
        return true;
      } else {
        return false;
      }
    }

    /** The space key: `nonState[cursorPos[0]][cursorPos[1]].Cycle()`. Only
        the cell under the cursor changes, to its cycled value. */
    method Toggle()
      requires Valid() && InBounds(cursor, board.Length, data.height)
      modifies board[cursor.0]
      ensures Valid() && cursor == old(cursor)
      ensures Grid() == ToggleAt(old(Grid()), cursor.0, cursor.1)
    {
      ghost var before := Grid();
      var column := board[cursor.0];
      Cycle(column, cursor.1);
      ghost var after := ToggleAt(before, cursor.0, cursor.1);
      forall c | 0 <= c < board.Length
        ensures Grid()[c] == after[c]
      {
        if c == cursor.0 {
          ghost var cycled: seq<CellState> := before[c][cursor.1 := Cycled(before[c][cursor.1])];
          assert Grid()[c] == cycled;
        } else {
          assert board[c] != column;
        }
      }
    }
  }
}
