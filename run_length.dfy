/** Run-length clues: the lengths, in order, of the maximal runs of shaded
    cells along one line of the board. `Scan` follows `generateRule`'s left to
    right pass over the line; `Render` draws the tightest line for a clue and
    is its inverse. */
module RunLength {

  /** The number of run slots `generateRule` allocates for one line. */
  const SLOTS: nat := 8

  /** `generateRule` counts a cell as shaded exactly when it holds 1. */
  predicate Shaded(c: int)
  {
    c == 1
  }

  /** What the pass knows after a prefix of the line: the lengths of the runs
      already ended by an unshaded cell, and the length of the run still open
      (0 when the last cell read was unshaded). */
  datatype Scanned = Scanned(closed: seq<int>, open: int)

  function Scan(line: seq<int>): (s: Scanned)
    ensures s.open >= 0
    ensures forall k :: 0 <= k < |s.closed| ==> s.closed[k] > 0
    ensures 2 * |s.closed| + s.open <= |line|
    decreases |line|
  {
    if line == [] then Scanned([], 0)
    else
      var s := Scan(line[..|line| - 1]);
      if Shaded(line[|line| - 1]) then Scanned(s.closed, s.open + 1)
      else if s.open != 0 then Scanned(s.closed + [s.open], 0)
      else s
  }

  /** The clue a line derives: every run, the open one included once it is
      non-empty. There are never zero entries, so an unshaded line derives
      the empty clue. */
  function Runs(line: seq<int>): (r: seq<int>)
    ensures forall k :: 0 <= k < |r| ==> r[k] > 0
    ensures 2 * |r| <= |line| + 1
  {
    var s := Scan(line);
    if s.open != 0 then s.closed + [s.open] else s.closed
  }

  /** The number of shaded cells of a line. */
  function Count(line: seq<int>): nat
    decreases |line|
  {
    if line == [] then 0
    else Count(line[..|line| - 1]) + (if Shaded(line[|line| - 1]) then 1 else 0)
  }

  function Sum(s: seq<int>): int
    decreases |s|
  {
    if s == [] then 0 else Sum(s[..|s| - 1]) + s[|s| - 1]
  }

  lemma SumAppend(s: seq<int>, x: int)
    ensures Sum(s + [x]) == Sum(s) + x
  {
    assert (s + [x])[..|s|] == s;
  }

  lemma {:induction false} SumOfPositives(s: seq<int>)
    requires forall k :: 0 <= k < |s| ==> s[k] > 0
    ensures Sum(s) >= |s|
  {
    if s != [] {
      SumOfPositives(s[..|s| - 1]);
    }
  }

  lemma {:induction false} CountNone(line: seq<int>)
    ensures Count(line) == 0 <==> forall k :: 0 <= k < |line| ==> !Shaded(line[k])
  {
    if line != [] {
      var p := line[..|line| - 1];
      CountNone(p);
      assert forall k :: 0 <= k < |p| ==> p[k] == line[k];
    }
  }

  /** Changing one cell changes the count by what the old and the new value
      contribute. */
  lemma {:induction false} CountUpdate(line: seq<int>, k: int, v: int)
    requires 0 <= k < |line|
    ensures Count(line[k := v]) + (if Shaded(line[k]) then 1 else 0)
         == Count(line) + (if Shaded(v) then 1 else 0)
    decreases |line|
  {
    var n := |line|;
    if k == n - 1 {
      assert line[k := v][..n - 1] == line[..n - 1];
    } else {
      assert line[k := v][..n - 1] == line[..n - 1][k := v];
      CountUpdate(line[..n - 1], k, v);
    }
  }

  lemma {:induction false} ScanNoneShaded(line: seq<int>)
    requires forall k :: 0 <= k < |line| ==> !Shaded(line[k])
    ensures Scan(line) == Scanned([], 0)
  {
    if line != [] {
      ScanNoneShaded(line[..|line| - 1]);
    }
  }

  lemma {:induction false} ScanSum(line: seq<int>)
    ensures Sum(Scan(line).closed) + Scan(line).open == Count(line)
  {
    if line != [] {
      var s := Scan(line[..|line| - 1]);
      ScanSum(line[..|line| - 1]);
      if !Shaded(line[|line| - 1]) && s.open != 0 {
        SumAppend(s.closed, s.open);
      }
    }
  }

  /** The entries of a derived clue add up to the number of shaded cells. */
  lemma RunsSum(line: seq<int>)
    ensures Sum(Runs(line)) == Count(line)
  {
    ScanSum(line);
    var s := Scan(line);
    if s.open != 0 {
      SumAppend(s.closed, s.open);
    }
  }

  /** A line derives the empty clue exactly when none of its cells is shaded
      (an unshaded line gives `[]`, never `[0]`). */
  lemma RunsEmpty(line: seq<int>)
    ensures Runs(line) == [] <==> forall k :: 0 <= k < |line| ==> !Shaded(line[k])
  {
    RunsSum(line);
    CountNone(line);
    SumOfPositives(Runs(line));
  }

  lemma {:induction false} ScanAllShaded(line: seq<int>)
    requires forall k :: 0 <= k < |line| ==> Shaded(line[k])
    ensures Scan(line) == Scanned([], |line|)
  {
    if line != [] {
      ScanAllShaded(line[..|line| - 1]);
    }
  }

  /** A fully shaded line of `n > 0` cells derives `[n]`. */
  lemma RunsAllShaded(line: seq<int>)
    requires |line| > 0
    requires forall k :: 0 <= k < |line| ==> Shaded(line[k])
    ensures Runs(line) == [|line|]
  {
    ScanAllShaded(line);
  }

  /** Scanning on past an unshaded cell `g` closes the runs of `p` and then
      proceeds as if the scan had started afresh. */
  lemma {:induction false} ScanAfterGap(p: seq<int>, g: int, q: seq<int>)
    requires !Shaded(g)
    ensures Scan(p + [g] + q) == Scanned(Runs(p) + Scan(q).closed, Scan(q).open)
    decreases |q|
  {
    if q == [] {
      assert (p + [g] + q)[..|p|] == p;
    } else {
      var q' := q[..|q| - 1];
      ScanAfterGap(p, g, q');
      assert (p + [g] + q)[..|p + [g] + q| - 1] == p + [g] + q';
    }
  }

  /** Clues split at an unshaded cell: the clue of `p`, a gap, then `q` is
      the clue of `p` followed by the clue of `q`. */
  lemma RunsSplit(p: seq<int>, g: int, q: seq<int>)
    requires !Shaded(g)
    ensures Runs(p + [g] + q) == Runs(p) + Runs(q)
  {
    ScanAfterGap(p, g, q);
  }

  /** A line of `n` shaded cells. */
  function Ones(n: nat): (line: seq<int>)
    ensures |line| == n && forall k :: 0 <= k < n ==> Shaded(line[k])
  {
    seq(n, _ => 1)
  }

  /** The shortest line that satisfies a clue: its runs in order, separated
      by single blank cells. */
  function Render(rule: seq<int>): (line: seq<int>)
    requires forall k :: 0 <= k < |rule| ==> rule[k] > 0
    decreases |rule|
  {
    if rule == [] then []
    else if |rule| == 1 then Ones(rule[0])
    else Ones(rule[0]) + [0] + Render(rule[1..])
  }

  /** Round trip: the clue derived from a rendered clue is that clue, so
      every clue of positive entries is derived by some line. */
  lemma {:induction false} RunsRender(rule: seq<int>)
    requires forall k :: 0 <= k < |rule| ==> rule[k] > 0
    ensures Runs(Render(rule)) == rule
    decreases |rule|
  {
    if rule == [] {
    } else if |rule| == 1 {
      RunsAllShaded(Ones(rule[0]));
    } else {
      RunsAllShaded(Ones(rule[0]));
      RunsRender(rule[1..]);
      RunsSplit(Ones(rule[0]), 0, Render(rule[1..]));
      assert [rule[0]] + rule[1..] == rule;
    }
  }

  /** `generateRule` indexes slot number `|closed|` whenever it reads a cell,
      so it stays inside its eight slots exactly when no cell is read after
      eight runs have been closed. */
  predicate SlotSafe(line: seq<int>)
  {
    forall k :: 0 <= k < |line| ==> |Scan(line[..k]).closed| < SLOTS
  }

  /** A line of at most 16 cells never overruns the slots. */
  lemma ShortLineSlotSafe(line: seq<int>)
    requires |line| <= 2 * SLOTS
    ensures SlotSafe(line)
  {
  }

  /** A line whose first part already holds eight runs overruns the slots as
      soon as two more cells follow. */
  lemma EightRunsOverflow(p: seq<int>, c: int)
    requires |Runs(p)| >= SLOTS
    ensures !SlotSafe(p + [0, c])
  {
    ScanAfterGap(p, 0, []);
    assert (p + [0, c])[..|p| + 1] == p + [0] + [];
  }

  /** Seventeen cells are enough to overrun the slots: eight single shaded
      cells, each followed by a blank, and one more blank. */
  lemma SeventeenCellsOverflow()
    ensures !SlotSafe([1, 0, 1, 0, 1, 0, 1, 0, 1, 0, 1, 0, 1, 0, 1, 0, 0])
  {
    var eight := [1, 1, 1, 1, 1, 1, 1, 1];
    var p := [1, 0, 1, 0, 1, 0, 1, 0, 1, 0, 1, 0, 1, 0, 1];
    assert Render(eight[7..]) == [1];
    assert Render(eight[6..]) == [1, 0, 1];
    assert Render(eight[5..]) == [1, 0, 1, 0, 1];
    assert Render(eight[4..]) == [1, 0, 1, 0, 1, 0, 1];
    assert Render(eight[3..]) == [1, 0, 1, 0, 1, 0, 1, 0, 1];
    assert Render(eight[2..]) == [1, 0, 1, 0, 1, 0, 1, 0, 1, 0, 1];
    assert Render(eight[1..]) == [1, 0, 1, 0, 1, 0, 1, 0, 1, 0, 1, 0, 1];
    assert Render(eight) == p;
    RunsRender(eight);
    EightRunsOverflow(p, 0);
    assert p + [0, 0] == [1, 0, 1, 0, 1, 0, 1, 0, 1, 0, 1, 0, 1, 0, 1, 0, 0];
  }
}
