/** Line-clear compaction as attachFigure performs it: scan the rows from the
    bottom interior row up to row 3. A row whose ten interior cells are all
    occupied is removed by copying every row from 2 up to it one row down,
    over the interior columns only, and then the same row is tested again. */
module LineClear {
  import opened TetrisTypes
  import opened Field

  /** The lowest interior row, where the scan starts. */
  const BOTTOM_ROW := FIELD_HEIGHT - BORDER_SIZE - 1

  /** The number of occupied cells among line[lo..hi]. */
  function CountBlocks(line: seq<int>, lo: int, hi: int): (n: nat)
    requires 0 <= lo <= hi <= |line|
    ensures n <= hi - lo
    decreases hi - lo
  {
    if lo == hi then 0 else CountBlocks(line, lo, hi - 1) + (if line[hi - 1] != PIXEL_EMPTY then 1 else 0)
  }

  /** The count reaches the width of the range exactly when every cell in it
      is occupied. */
  lemma {:induction false} CountBlocksFull(line: seq<int>, lo: int, hi: int)
    requires 0 <= lo <= hi <= |line|
    ensures CountBlocks(line, lo, hi) == hi - lo <==> forall c :: lo <= c < hi ==> line[c] != PIXEL_EMPTY
    decreases hi - lo
  {
    if lo < hi {
      CountBlocksFull(line, lo, hi - 1);
    }
  }

  /** Every interior cell of the row, columns 3 to 12, is occupied. */
  predicate RowFull(b: Grid, row: int)
    requires IsBoard(b) && 0 <= row < FIELD_HEIGHT
  {
    forall c :: BORDER_SIZE <= c < FIELD_WIDTH - BORDER_SIZE ==> b[row][c] != PIXEL_EMPTY
  }

  /** The number of full rows among rows lo to hi, both included. */
  function FullRows(b: Grid, lo: int, hi: int): (n: nat)
    requires IsBoard(b) && 0 <= lo && hi < FIELD_HEIGHT && lo <= hi + 1
    ensures n <= hi + 1 - lo
    decreases hi - lo
  {
    if hi < lo then 0 else FullRows(b, lo, hi - 1) + (if RowFull(b, hi) then 1 else 0)
  }

  /** Counting from the top: the first row and then the rest. */
  lemma {:induction false} FullRowsSplit(b: Grid, lo: int, hi: int)
    requires IsBoard(b) && 0 <= lo <= hi < FIELD_HEIGHT
    ensures FullRows(b, lo, hi) == (if RowFull(b, lo) then 1 else 0) + FullRows(b, lo + 1, hi)
    decreases hi - lo
  {
    if lo < hi {
      FullRowsSplit(b, lo, hi - 1);
    }
  }

  /** The board after removing `row`: rows 2 to `row` take, over the interior
      columns, the contents of the row above; every other cell is kept. */
  function ShiftDown(b: Grid, row: int): (b': Grid)
    requires IsBoard(b) && 2 <= row < FIELD_HEIGHT
    ensures IsBoard(b')
  {
    seq(FIELD_HEIGHT, r requires 0 <= r < FIELD_HEIGHT =>
      seq(FIELD_WIDTH, c requires 0 <= c < FIELD_WIDTH =>
        if 2 <= r <= row && BORDER_SIZE <= c < FIELD_WIDTH - BORDER_SIZE then b[r - 1][c] else b[r][c]))
  }

  /** After a shift, row r (2 <= r <= row) is full exactly when row r - 1 was. */
  lemma ShiftDownRowFull(b: Grid, row: int, r: int)
    requires IsBoard(b) && 2 <= row < FIELD_HEIGHT && 2 <= r <= row
    ensures RowFull(ShiftDown(b, row), r) <==> RowFull(b, r - 1)
  {
    var s, above := ShiftDown(b, row), b[r - 1];
    forall c | BORDER_SIZE <= c < FIELD_WIDTH - BORDER_SIZE
      ensures s[r][c] == above[c]
    {
    }
    if RowFull(b, r - 1) {
      assert RowFull(s, r);
    }
    if RowFull(s, r) {
      forall c | BORDER_SIZE <= c < FIELD_WIDTH - BORDER_SIZE
        ensures above[c] != PIXEL_EMPTY
      {
        assert s[r][c] != PIXEL_EMPTY;
      }
    }
  }

  /** A shift moves the count of full rows down by one row. */
  lemma ShiftDownFullRows(b: Grid, row: int, lo: int, hi: int)
    requires IsBoard(b) && 2 <= row < FIELD_HEIGHT && 2 <= lo && hi <= row && lo <= hi + 1
    ensures FullRows(ShiftDown(b, row), lo, hi) == FullRows(b, lo - 1, hi - 1)
  {
    var s := ShiftDown(b, row);
    forall r | lo <= r <= hi
      ensures RowFull(s, r) <==> RowFull(b, r - 1)
    {
      ShiftDownRowFull(b, row, r);
    }
    FullRowsOneDown(s, b, lo, hi);
  }

  /** Boards whose rows lo..hi are full exactly where the other board's rows
      lo - 1..hi - 1 are have the same count of full rows there. */
  lemma {:induction false} FullRowsOneDown(s: Grid, b: Grid, lo: int, hi: int)
    requires IsBoard(s) && IsBoard(b) && 1 <= lo && hi < FIELD_HEIGHT && lo <= hi + 1
    requires forall r :: lo <= r <= hi ==> (RowFull(s, r) <==> RowFull(b, r - 1))
    ensures FullRows(s, lo, hi) == FullRows(b, lo - 1, hi - 1)
    decreases hi - lo
  {
    if lo <= hi {
      FullRowsOneDown(s, b, lo, hi - 1);
    }
  }

  /** Removing a full row lowers the number of full rows in 2..row by one,
      provided row 1, which is copied into row 2, is not full. */
  lemma ShiftDownDropsFullRow(b: Grid, row: int)
    requires IsBoard(b) && 2 <= row < FIELD_HEIGHT && RowFull(b, row) && !RowFull(b, 1)
    ensures FullRows(ShiftDown(b, row), 2, row) == FullRows(b, 2, row) - 1
    ensures !RowFull(ShiftDown(b, row), 1)
  {
    var s := ShiftDown(b, row);
    ShiftDownFullRows(b, row, 2, row);
    FullRowsSplit(b, 1, row - 1);
    assert s[1] == b[1];
  }

  /** Row 1 is copied into row 2 by every shift and is never removed
      itself: once rows 1 to `row` are all full, removing `row` leaves rows 1
      to `row` all full again, so the scan tests the same full row forever. */
  lemma FullTopRowsRepeat(b: Grid, row: int)
    requires IsBoard(b) && 2 <= row < FIELD_HEIGHT
    requires forall r :: 1 <= r <= row ==> RowFull(b, r)
    ensures forall r :: 1 <= r <= row ==> RowFull(ShiftDown(b, row), r)
  {
    var s := ShiftDown(b, row);
    assert s[1] == b[1] && RowFull(b, 1);
    assert RowFull(s, 1);
    forall r | 2 <= r <= row
      ensures RowFull(s, r)
    {
      ShiftDownRowFull(b, row, r);
    }
  }

  /** The scan from `row` up to row 3, with `rows` rows removed so far:
      the final board and the final number of removed rows. Row 1 must not
      be full: see FullTopRowsRepeat for the scan that otherwise never ends. */
  function ClearFrom(b: Grid, row: int, rows: nat): (r: (Grid, nat))
    requires IsBoard(b) && 2 <= row <= BOTTOM_ROW && !RowFull(b, 1)
    ensures IsBoard(r.0) && r.1 >= rows
    decreases row, FullRows(b, 2, row)
  {
    if row <= 2 then (b, rows)
    else if RowFull(b, row) then
      ShiftDownDropsFullRow(b, row);
      ClearFrom(ShiftDown(b, row), row, rows + 1)
    else ClearFrom(b, row - 1, rows)
  }

  /** The whole compaction, starting from the bottom interior row. */
  function ClearLines(b: Grid): (r: (Grid, nat))
    requires IsBoard(b) && !RowFull(b, 1)
    ensures IsBoard(r.0)
  {
    ClearFrom(b, BOTTOM_ROW, 0)
  }

  /** After the scan no row in 3..row is full; rows below `row`, rows 0 and
      1, and the wall columns are exactly as before. */
  lemma {:induction false} ClearFromSettles(b: Grid, row: int, rows: nat)
    requires IsBoard(b) && 2 <= row <= BOTTOM_ROW && !RowFull(b, 1)
    ensures var b' := ClearFrom(b, row, rows).0;
      (forall r :: 3 <= r <= row ==> !RowFull(b', r)) &&
      (forall r, c :: InBounds(r, c) && (r > row || r < 2 || c < BORDER_SIZE || c >= FIELD_WIDTH - BORDER_SIZE) ==>
         b'[r][c] == b[r][c])
    decreases row, FullRows(b, 2, row)
  {
    if row <= 2 {
    } else if RowFull(b, row) {
      ShiftDownDropsFullRow(b, row);
      ClearFromSettles(ShiftDown(b, row), row, rows + 1);
    } else {
      ClearFromSettles(b, row - 1, rows);
      var b' := ClearFrom(b, row - 1, rows).0;
      assert ClearFrom(b, row, rows).0 == b';
      assert forall c :: 0 <= c < FIELD_WIDTH ==> b'[row][c] == b[row][c];
    }
  }

  /** The number of rows removed: every full row among 3..row, plus row 2
      when it is full and at least one shift pulls it into the scanned range. */
  lemma {:induction false} ClearFromCount(b: Grid, row: int, rows: nat)
    requires IsBoard(b) && 2 <= row <= BOTTOM_ROW && !RowFull(b, 1)
    ensures ClearFrom(b, row, rows).1 ==
      rows + FullRows(b, 3, row) + (if RowFull(b, 2) && FullRows(b, 3, row) > 0 then 1 else 0)
    decreases row, FullRows(b, 2, row)
  {
    if row <= 2 {
    } else if RowFull(b, row) {
      var s := ShiftDown(b, row);
      ShiftDownDropsFullRow(b, row);
      ClearFromCount(s, row, rows + 1);
      ShiftDownFullRows(b, row, 3, row);
      FullRowsSplit(b, 2, row - 1);
      ShiftDownRowFull(b, row, 2);
    } else {
      ClearFromCount(b, row - 1, rows);
    }
  }

  /** Row 2 is never examined in place, so a full row 2 survives when no
      lower row is full. */
  lemma ClearKeepsFullRowTwo(b: Grid)
    requires IsBoard(b) && !RowFull(b, 1) && RowFull(b, 2) && FullRows(b, 3, BOTTOM_ROW) == 0
    ensures ClearLines(b).1 == 0 && RowFull(ClearLines(b).0, 2)
  {
    ClearFromCount(b, BOTTOM_ROW, 0);
    ClearFromSettles(b, BOTTOM_ROW, 0);
    assert ClearLines(b).1 == 0;
    ClearUnchangedWhenNoneRemoved(b, BOTTOM_ROW, 0);
  }

  /** A scan that removes nothing leaves the board as it was. */
  lemma {:induction false} ClearUnchangedWhenNoneRemoved(b: Grid, row: int, rows: nat)
    requires IsBoard(b) && 2 <= row <= BOTTOM_ROW && !RowFull(b, 1)
    ensures ClearFrom(b, row, rows).1 == rows ==> ClearFrom(b, row, rows).0 == b
    decreases row, FullRows(b, 2, row)
  {
    if row <= 2 {
    } else if RowFull(b, row) {
    } else {
      ClearUnchangedWhenNoneRemoved(b, row - 1, rows);
    }
  }

  /** The compaction never touches the walls, rows 0 and 1, or rows below the
      bottom interior row; no interior row from 3 down is left full; and it
      removes every full row of 3..22, and row 2 as well if it was full and
      anything was removed. */
  lemma ClearLinesSpec(b: Grid)
    requires IsBoard(b) && !RowFull(b, 1)
    ensures var (b', n) := ClearLines(b);
      (forall r :: 3 <= r <= BOTTOM_ROW ==> !RowFull(b', r)) &&
      (forall r, c :: InBounds(r, c) && (IsWall(r, c) || r < 2) ==> b'[r][c] == b[r][c]) &&
      n == FullRows(b, 3, BOTTOM_ROW) + (if RowFull(b, 2) && FullRows(b, 3, BOTTOM_ROW) > 0 then 1 else 0)
  {
    ClearFromSettles(b, BOTTOM_ROW, 0);
    ClearFromCount(b, BOTTOM_ROW, 0);
  }

  /** The interior cells of row r, columns 3 to 12. */
  function Inner(b: Grid, r: int): (line: seq<int>)
    requires IsBoard(b) && 0 <= r < FIELD_HEIGHT
    ensures |line| == FIELD_WIDTH - 2 * BORDER_SIZE
  {
    b[r][BORDER_SIZE..FIELD_WIDTH - BORDER_SIZE]
  }

  /** Every cell of the line is occupied. */
  predicate LineFull(line: seq<int>) {
    forall i :: 0 <= i < |line| ==> line[i] != PIXEL_EMPTY
  }

  lemma InnerFull(b: Grid, r: int)
    requires IsBoard(b) && 0 <= r < FIELD_HEIGHT
    ensures LineFull(Inner(b, r)) <==> RowFull(b, r)
  {
    var line := Inner(b, r);
    assert forall c :: BORDER_SIZE <= c < FIELD_WIDTH - BORDER_SIZE ==> b[r][c] == line[c - BORDER_SIZE];
  }

  /** The interior lines of rows lo to hi, top to bottom. */
  function Rows(b: Grid, lo: int, hi: int): (rs: seq<seq<int>>)
    requires IsBoard(b) && 0 <= lo && hi < FIELD_HEIGHT && lo <= hi + 1
    ensures |rs| == hi + 1 - lo
    decreases hi - lo
  {
    if hi < lo then [] else Rows(b, lo, hi - 1) + [Inner(b, hi)]
  }

  /** The lines that are not full, in their order. */
  function Kept(lines: seq<seq<int>>): (k: seq<seq<int>>)
    ensures |k| <= |lines|
  {
    if lines == [] then []
    else
      var last := lines[|lines| - 1];
      Kept(lines[..|lines| - 1]) + (if LineFull(last) then [] else [last])
  }

  /** n copies of a line. */
  function Repeat(line: seq<int>, n: nat): (r: seq<seq<int>>)
    ensures |r| == n && forall i :: 0 <= i < n ==> r[i] == line
  {
    if n == 0 then [] else Repeat(line, n - 1) + [line]
  }

  /** A line that is not full in front is kept in front. */
  lemma {:induction false} KeptCons(x: seq<int>, t: seq<seq<int>>)
    requires !LineFull(x)
    ensures Kept([x] + t) == [x] + Kept(t)
    decreases |t|
  {
    if t == [] {
      assert Kept([x]) == Kept([]) + [x];
    } else {
      var front := t[..|t| - 1];
      assert ([x] + t)[..|t|] == [x] + front;
      KeptCons(x, front);
    }
  }

  /** Rows lo to hi are rows lo to hi - 1 followed by row hi. */
  lemma RowsSnoc(b: Grid, lo: int, hi: int)
    requires IsBoard(b) && 0 <= lo <= hi < FIELD_HEIGHT
    ensures Rows(b, lo, hi) == Rows(b, lo, hi - 1) + [Inner(b, hi)]
    ensures Rows(b, lo, hi)[..hi - lo] == Rows(b, lo, hi - 1)
  {
  }

  /** The lines kept from rows lo to hi are those rows minus the full ones. */
  lemma {:induction false} KeptCount(b: Grid, lo: int, hi: int)
    requires IsBoard(b) && 0 <= lo && hi < FIELD_HEIGHT && lo <= hi + 1
    ensures |Kept(Rows(b, lo, hi))| == hi + 1 - lo - FullRows(b, lo, hi)
    decreases hi - lo
  {
    if lo <= hi {
      RowsSnoc(b, lo, hi);
      InnerFull(b, hi);
      KeptCount(b, lo, hi - 1);
    }
  }

  /** When none of rows lo to hi is full, all of them are kept. */
  lemma {:induction false} KeptAllOpen(b: Grid, lo: int, hi: int)
    requires IsBoard(b) && 0 <= lo && hi < FIELD_HEIGHT && lo <= hi + 1 && FullRows(b, lo, hi) == 0
    ensures Kept(Rows(b, lo, hi)) == Rows(b, lo, hi)
    decreases hi - lo
  {
    if lo <= hi {
      RowsSnoc(b, lo, hi);
      InnerFull(b, hi);
      KeptAllOpen(b, lo, hi - 1);
    }
  }

  /** Rows lo to hi are row lo followed by rows lo + 1 to hi. */
  lemma {:induction false} RowsCons(b: Grid, lo: int, hi: int)
    requires IsBoard(b) && 0 <= lo <= hi < FIELD_HEIGHT
    ensures Rows(b, lo, hi) == [Inner(b, lo)] + Rows(b, lo + 1, hi)
    decreases hi - lo
  {
    if lo < hi {
      RowsCons(b, lo, hi - 1);
    }
  }

  /** After removing `row`, rows lo to hi (within 2..row) hold, over the
      interior, rows lo - 1 to hi - 1 as they were. */
  lemma {:induction false} ShiftDownRowsFrom(b: Grid, row: int, lo: int, hi: int)
    requires IsBoard(b) && 2 <= row < FIELD_HEIGHT && 2 <= lo && hi <= row && lo <= hi + 1
    ensures Rows(ShiftDown(b, row), lo, hi) == Rows(b, lo - 1, hi - 1)
    decreases hi - lo
  {
    if lo <= hi {
      ShiftDownRowsFrom(b, row, lo, hi - 1);
      assert Inner(ShiftDown(b, row), hi) == Inner(b, hi - 1);
    }
  }

  /** Removing a full row: rows 2 to `row` now hold, over the interior, row
      1 and then rows 2 to row - 1 as they were; row 1 is kept. */
  lemma ShiftDownRows(b: Grid, row: int)
    requires IsBoard(b) && 2 <= row < FIELD_HEIGHT
    ensures Rows(ShiftDown(b, row), 2, row) == [Inner(b, 1)] + Rows(b, 2, row - 1)
    ensures Inner(ShiftDown(b, row), 1) == Inner(b, 1)
  {
    ShiftDownRowsFrom(b, row, 2, row);
    RowsCons(b, 1, row - 1);
    assert ShiftDown(b, row)[1] == b[1];
  }

  /** What the scan leaves in place of the lines s, line1 being the line of
      row 1 above them: when it removes something, the lines of s that are
      not full, in their order and at the bottom, under one copy of line1 per
      full line; otherwise s itself. */
  predicate SettledLines(s: seq<seq<int>>, line1: seq<int>, removes: bool, result: seq<seq<int>>) {
    result == if removes then Repeat(line1, |s| - |Kept(s)|) + Kept(s) else s
  }

  /** Removing the full last line x below s0, with line1 (not full) entering
      on top: settling the shifted lines settles s0 + [x]. `open` says that
      no line of s0 is full. */
  lemma SettledAfterRemoval(line1: seq<int>, s0: seq<seq<int>>, x: seq<int>, open: bool, result: seq<seq<int>>)
    requires !LineFull(line1) && LineFull(x) && (open ==> Kept(s0) == s0)
    requires SettledLines([line1] + s0, line1, !open, result)
    ensures SettledLines(s0 + [x], line1, true, result)
  {
    if open {
      RemovalFromOpen(line1, s0, x, result);
    } else {
      RemovalBelowRemoved(line1, s0, x, result);
    }
  }

  /** The case where no line of s0 is full: line1 enters once on top. */
  lemma RemovalFromOpen(line1: seq<int>, s0: seq<seq<int>>, x: seq<int>, result: seq<seq<int>>)
    requires LineFull(x) && Kept(s0) == s0 && result == [line1] + s0
    ensures SettledLines(s0 + [x], line1, true, result)
  {
    KeptSnocFull(s0, x);
    assert Repeat(line1, 1) == [line1];
  }

  /** The case where some line of s0 was already removed: one more copy of
      line1 on top. */
  lemma RemovalBelowRemoved(line1: seq<int>, s0: seq<seq<int>>, x: seq<int>, result: seq<seq<int>>)
    requires !LineFull(line1) && LineFull(x)
    requires result == Repeat(line1, |s0| + 1 - |Kept([line1] + s0)|) + Kept([line1] + s0)
    ensures SettledLines(s0 + [x], line1, true, result)
  {
    KeptSnocFull(s0, x);
    KeptCons(line1, s0);
    RepeatOneMore(line1, Kept(s0), |s0| + 1 - |Kept(s0)|);
  }

  lemma RepeatOneMore(line: seq<int>, k: seq<seq<int>>, m: nat)
    requires m >= 1
    ensures Repeat(line, m - 1) + ([line] + k) == Repeat(line, m) + k
  {
  }

  lemma KeptSnocFull(s0: seq<seq<int>>, x: seq<int>)
    requires LineFull(x)
    ensures Kept(s0 + [x]) == Kept(s0)
  {
    assert (s0 + [x])[..|s0|] == s0;
  }

  /** Passing the last line x below s0, which is not full and stays. */
  lemma SettledAfterOpen(line1: seq<int>, s0: seq<seq<int>>, x: seq<int>, removes: bool, result: seq<seq<int>>)
    requires !LineFull(x) && SettledLines(s0, line1, removes, result)
    ensures SettledLines(s0 + [x], line1, removes, result + [x])
  {
    assert (s0 + [x])[..|s0|] == s0;
  }

  /** The scan from row - 1 leaves row `row` as it was. */
  lemma ClearFromKeepsRowBelow(b: Grid, row: int, rows: nat)
    requires IsBoard(b) && 3 <= row <= BOTTOM_ROW && !RowFull(b, 1)
    ensures ClearFrom(b, row - 1, rows).0[row] == b[row]
  {
    var b' := ClearFrom(b, row - 1, rows).0;
    ClearFromSettles(b, row - 1, rows);
    forall c | 0 <= c < FIELD_WIDTH
      ensures b'[row][c] == b[row][c]
    {
      assert InBounds(row, c);
    }
  }

  /** A full row `row` is removed: the lines the scan settles after the
      shift (row 1 entering on top of rows 2 to row - 1) are the settled
      lines of rows 2 to `row`. */
  lemma RemovalSettles(b: Grid, row: int, s': seq<seq<int>>, removes': bool, result: seq<seq<int>>)
    requires IsBoard(b) && 3 <= row < FIELD_HEIGHT && !RowFull(b, 1) && RowFull(b, row)
    requires s' == [Inner(b, 1)] + Rows(b, 2, row - 1) && removes' == (FullRows(b, 2, row - 1) > 0)
    requires SettledLines(s', Inner(b, 1), removes', result)
    ensures SettledLines(Rows(b, 2, row), Inner(b, 1), FullRows(b, 3, row) > 0, result)
  {
    InnerFull(b, 1);
    InnerFull(b, row);
    var open := FullRows(b, 2, row - 1) == 0;
    if open {
      KeptAllOpen(b, 2, row - 1);
    }
    SettledAfterRemoval(Inner(b, 1), Rows(b, 2, row - 1), Inner(b, row), open, result);
  }

  /** An open row `row` stays where it is below the settled rows above it. */
  lemma OpenSettles(b: Grid, row: int, after: Grid)
    requires IsBoard(b) && IsBoard(after) && 3 <= row < FIELD_HEIGHT && !RowFull(b, row)
    requires after[row] == b[row]
    requires SettledLines(Rows(b, 2, row - 1), Inner(b, 1), FullRows(b, 3, row - 1) > 0, Rows(after, 2, row - 1))
    ensures SettledLines(Rows(b, 2, row), Inner(b, 1), FullRows(b, 3, row) > 0, Rows(after, 2, row))
  {
    InnerFull(b, row);
    SettledAfterOpen(Inner(b, 1), Rows(b, 2, row - 1), Inner(b, row), FullRows(b, 3, row - 1) > 0, Rows(after, 2, row - 1));
  }

  /** What removing the full row `row` does, as the scan sees it: the rows
      2 to `row` become row 1 over rows 2 to row - 1, the count of full rows
      moves down by one row and drops by one, and the scan goes on from the
      same row. */
  lemma ShiftDownStep(b: Grid, row: int, rows: nat)
    requires IsBoard(b) && 3 <= row <= BOTTOM_ROW && !RowFull(b, 1) && RowFull(b, row)
    ensures var sh := ShiftDown(b, row);
      && Rows(sh, 2, row) == [Inner(b, 1)] + Rows(b, 2, row - 1) && Inner(sh, 1) == Inner(b, 1)
      && FullRows(sh, 3, row) == FullRows(b, 2, row - 1)
      && FullRows(sh, 2, row) < FullRows(b, 2, row) && !RowFull(sh, 1)
      && ClearFrom(b, row, rows) == ClearFrom(sh, row, rows + 1)
  {
    ShiftDownDropsFullRow(b, row);
    ShiftDownRows(b, row);
    ShiftDownFullRows(b, row, 3, row);
  }

  /** The step of the scan that passes the open row `row`. */
  lemma ClearFromRowsOpen(b: Grid, row: int, rows: nat)
    requires IsBoard(b) && 3 <= row <= BOTTOM_ROW && !RowFull(b, 1) && !RowFull(b, row)
    requires SettledLines(Rows(b, 2, row - 1), Inner(b, 1), FullRows(b, 3, row - 1) > 0, Rows(ClearFrom(b, row - 1, rows).0, 2, row - 1))
    ensures SettledLines(Rows(b, 2, row), Inner(b, 1), FullRows(b, 3, row) > 0, Rows(ClearFrom(b, row, rows).0, 2, row))
  {
    var after := ClearFrom(b, row - 1, rows).0;
    assert ClearFrom(b, row, rows).0 == after;
    ClearFromKeepsRowBelow(b, row, rows);
    OpenSettles(b, row, after);
  }

  /** The scan from `row` settles rows 2 to `row`; it removes something
      exactly when one of rows 3 to `row` is full. */
  lemma {:induction false} ClearFromRows(b: Grid, row: int, rows: nat)
    requires IsBoard(b) && 2 <= row <= BOTTOM_ROW && !RowFull(b, 1)
    ensures SettledLines(Rows(b, 2, row), Inner(b, 1), FullRows(b, 3, row) > 0, Rows(ClearFrom(b, row, rows).0, 2, row))
    decreases row, FullRows(b, 2, row)
  {
    if row <= 2 {
      assert ClearFrom(b, row, rows).0 == b;
    } else if RowFull(b, row) {
      var sh := ShiftDown(b, row);
      ShiftDownStep(b, row, rows);
      ClearFromRows(sh, row, rows + 1);
      RemovalSettles(b, row, Rows(sh, 2, row), FullRows(sh, 3, row) > 0, Rows(ClearFrom(sh, row, rows + 1).0, 2, row));
    } else {
      ClearFromRows(b, row - 1, rows);
      ClearFromRowsOpen(b, row, rows);
    }
  }

  /** What the compaction does to the rows: with n rows removed, the lines of
      rows 2..22 that are not full keep their order and settle at the bottom,
      and the n rows above them are copies of row 1; when nothing is removed
      the rows are as they were. When n > 0, n is the number of full rows
      among 2..22; a lone full row 2 is kept (see ClearKeepsFullRowTwo). */
  lemma ClearLinesRows(b: Grid)
    requires IsBoard(b) && !RowFull(b, 1)
    ensures var (b', n) := ClearLines(b);
      var s := Rows(b, 2, BOTTOM_ROW);
      && (n > 0 ==> n == FullRows(b, 2, BOTTOM_ROW) && n == |s| - |Kept(s)|)
      && Rows(b', 2, BOTTOM_ROW) == if n == 0 then s else Repeat(Inner(b, 1), n) + Kept(s)
  {
    ClearFromRows(b, BOTTOM_ROW, 0);
    ClearFromCount(b, BOTTOM_ROW, 0);
    FullRowsSplit(b, 2, BOTTOM_ROW);
    KeptCount(b, 2, BOTTOM_ROW);
  }
}
