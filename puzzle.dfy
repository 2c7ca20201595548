/** The puzzle definition read from the JSON file (`NonogramData`) and its
    load-time consistency check (`CheckData`). */
module Puzzle {
  import opened GoInt

  datatype Option<T> = None | Some(value: T)

  /** One puzzle: a display name, the declared width (number of columns) and
      height (number of rows), and the run-length clue of every column and of
      every row. */
  datatype NonogramData = NonogramData(
    name: string,
    width: Int32,
    height: Int32,
    columns: seq<seq<int>>,
    rows: seq<seq<int>>)

  /** The two errors `CheckData` can report, with the numbers its message
      prints: the actual count of clue lists and the declared dimension. */
  datatype DataError =
    | ColumnCount(columns: nat, width: Int32)
    | RowCount(rows: nat, height: Int32)

  /** Compares the number of clue lists, converted to `int32`, with the
      declared dimensions; the column comparison is made first, so when both
      disagree the column error is the one returned. `None` is Go's nil. */
  function CheckData(data: NonogramData): (err: Option<DataError>)
    ensures err.None? <==>
              ToInt32(|data.columns|) == data.width && ToInt32(|data.rows|) == data.height
    ensures ToInt32(|data.columns|) != data.width ==>
              err == Some(ColumnCount(|data.columns|, data.width))
    ensures ToInt32(|data.columns|) == data.width && ToInt32(|data.rows|) != data.height ==>
              err == Some(RowCount(|data.rows|, data.height))
  {
    if ToInt32(|data.columns|) != data.width then
      Some(ColumnCount(|data.columns|, data.width))
    else if ToInt32(|data.rows|) != data.height then
      Some(RowCount(|data.rows|, data.height))
    else
      None
  }

  /** For clue lists shorter than 2^31 (every file the program can hold in
      memory in practice) the check is exactly "one clue list per column and
      one per row", and a column mismatch takes precedence. */
  lemma CheckDataExact(data: NonogramData)
    requires |data.columns| <= INT32_MAX && |data.rows| <= INT32_MAX
    ensures CheckData(data).None? <==>
              |data.columns| == data.width && |data.rows| == data.height
    ensures |data.columns| != data.width ==>
              CheckData(data) == Some(ColumnCount(|data.columns|, data.width))
    ensures |data.columns| == data.width && |data.rows| != data.height ==>
              CheckData(data) == Some(RowCount(|data.rows|, data.height))
  {
  }

  /** A passed check makes both declared dimensions non-negative whenever the
      clue lists are shorter than 2^31. */
  lemma CheckedDimensionsNonNegative(data: NonogramData)
    requires |data.columns| <= INT32_MAX && |data.rows| <= INT32_MAX
    requires CheckData(data).None?
    ensures 0 <= data.width && 0 <= data.height
  {
    CheckDataExact(data);
  }
}
