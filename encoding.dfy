/** Index arithmetic of the Sudoku exact-cover encoding (grid.h, grid.cpp).
    Matrix row i stands for the candidate "digit (i % 9) + 1 in cell (i / 81, (i / 9) % 9)";
    each row has one entry in each of four constraint families, whose column offsets are
    computed from i alone. */
module Encoding {

  /** The matrix dimensions (grid.h: MAX_ROWS, MAX_COLS). */
  const MaxRows := 729
  const MaxCols := 324

  /** The column of family k (0: cell, 1: row-digit, 2: column-digit, 3: box-digit) that
      matrix row i touches, exactly as initMatrix computes it. */
  function ColumnOffset(i: int, k: int): int
    requires 0 <= i < MaxRows && 0 <= k < 4
  {
    if k == 0 then i / 9
    else if k == 1 then 81 + 9 * (i / 81) + i % 9
    else if k == 2 then 162 + i % 81
    else 243 + i % 9 + 9 * (i / 27) - 27 * (i / 81) + 27 * (i / 243)
  }

  /** Grid row, grid column and digit (all 0-based) of matrix row i. */
  function RowPart(i: int): int { i / 81 }
  function ColPart(i: int): int { (i / 9) % 9 }
  function DigitPart(i: int): int { i % 9 }

  /** The 3x3 box holding cell (r, c), both 0-based. */
  function Box(r: int, c: int): int { 3 * (r / 3) + c / 3 }

  /** The four columns in Sudoku terms: the constraint that cell (R, C) is filled, that grid
      row R holds digit n, that grid column C holds digit n, that box B holds digit n. */
  lemma {:induction false} ColumnMeaning(i: int)
    requires 0 <= i < MaxRows
    ensures ColumnOffset(i, 0) == 9 * RowPart(i) + ColPart(i)
    ensures ColumnOffset(i, 1) == 81 + 9 * RowPart(i) + DigitPart(i)
    ensures ColumnOffset(i, 2) == 162 + 9 * ColPart(i) + DigitPart(i)
    ensures ColumnOffset(i, 3) == 243 + 9 * Box(RowPart(i), ColPart(i)) + DigitPart(i)
    ensures 0 <= RowPart(i) < 9 && 0 <= ColPart(i) < 9 && 0 <= DigitPart(i) < 9
    ensures i == 81 * RowPart(i) + 9 * ColPart(i) + DigitPart(i)
  {
    var R, C, n := i / 81, (i / 9) % 9, i % 9;
    assert i / 9 == 9 * R + C;
    assert i == 81 * R + 9 * C + n;
    assert i % 81 == 9 * C + n;
    assert i / 27 == 3 * R + C / 3;
    assert i / 243 == R / 3;
  }

  /** Family k of every row lands in its own band [81k, 81k + 81) of the 324 columns, so the
      four entries of a row are in four different columns, in increasing order of k. */
  lemma {:induction false} OffsetBands(i: int, k: int)
    requires 0 <= i < MaxRows && 0 <= k < 4
    ensures 81 * k <= ColumnOffset(i, k) < 81 * k + 81
  {
    ColumnMeaning(i);
  }

  /** parseInput's clue encoding: digit n at 1-based row r and column c. */
  function EncodeClue(n: int, r: int, c: int): int
  {
    (r - 1) * 81 + (c - 1) * 9 + (n - 1)
  }

  /** print's decoding of a matrix row: (grid row, grid column, digit), rows and columns
      0-based as they index outgrid, the digit 1-based. */
  datatype Placement = Placement(r: int, c: int, digit: int)

  function DecodeRow(row: int): Placement
  {
    var pos := row / 9;
    Placement(pos / 9, pos % 9, row % 9 + 1)
  }

  /** A clue with 1 <= n, r, c <= 9 names a row of the matrix, and print decodes that row back
      to the clue's cell and digit. */
  lemma {:induction false} DecodeEncode(n: int, r: int, c: int)
    requires 1 <= n <= 9 && 1 <= r <= 9 && 1 <= c <= 9
    ensures 0 <= EncodeClue(n, r, c) < MaxRows
    ensures DecodeRow(EncodeClue(n, r, c)) == Placement(r - 1, c - 1, n)
  {
    var row := EncodeClue(n, r, c);
    assert row == 9 * ((r - 1) * 9 + (c - 1)) + (n - 1);
    assert row / 9 == (r - 1) * 9 + (c - 1);
    assert row % 9 == n - 1;
  }

  /** Conversely every matrix row is the encoding of the placement print decodes from it. */
  lemma {:induction false} EncodeDecode(row: int)
    requires 0 <= row < MaxRows
    ensures var p := DecodeRow(row);
      0 <= p.r < 9 && 0 <= p.c < 9 && 1 <= p.digit <= 9 &&
      EncodeClue(p.digit, p.r + 1, p.c + 1) == row
  {
    ColumnMeaning(row);
  }

  /** The number print shows at 0-based cell (r, c) after writing the picked rows in order:
      the digit of the last row that lands on the cell, or 0 when none does. */
  function Cell(rows: seq<int>, r: int, c: int): int
  {
    if rows == [] then 0
    else
      var p := DecodeRow(rows[|rows| - 1]);
      if p.r == r && p.c == c then p.digit else Cell(rows[..|rows| - 1], r, c)
  }

  /** A cell shows 0 exactly when no picked row lands on it. */
  lemma {:induction false} CellEmpty(rows: seq<int>, r: int, c: int)
    ensures Cell(rows, r, c) == 0 <==>
      forall i | 0 <= i < |rows| :: DecodeRow(rows[i]).r != r || DecodeRow(rows[i]).c != c
  {
    if rows != [] {
      var init := rows[..|rows| - 1];
      CellEmpty(init, r, c);
      assert forall i | 0 <= i < |init| :: init[i] == rows[i];
    }
  }

  /** A picked row that no later row overwrites shows its digit in its cell. */
  lemma {:induction false} CellShows(rows: seq<int>, i: int)
    requires 0 <= i < |rows|
    requires forall j | i < j < |rows| ::
      DecodeRow(rows[j]).r != DecodeRow(rows[i]).r || DecodeRow(rows[j]).c != DecodeRow(rows[i]).c
    ensures var p := DecodeRow(rows[i]); Cell(rows, p.r, p.c) == p.digit
  {
    if i < |rows| - 1 {
      var init := rows[..|rows| - 1];
      assert forall j | 0 <= j < |init| :: init[j] == rows[j];
      CellShows(init, i);
    }
  }

  /** In particular the clue "digit n at row r, column c" shows n at (r - 1, c - 1) unless a
      later row lands on the same cell. */
  lemma CellOfClue(rows: seq<int>, i: int, n: int, r: int, c: int)
    requires 1 <= n <= 9 && 1 <= r <= 9 && 1 <= c <= 9
    requires 0 <= i < |rows| && rows[i] == EncodeClue(n, r, c)
    requires forall j | i < j < |rows| :: DecodeRow(rows[j]).r != r - 1 || DecodeRow(rows[j]).c != c - 1
    ensures Cell(rows, r - 1, c - 1) == n
  {
    DecodeEncode(n, r, c);
    CellShows(rows, i);
  }
}
