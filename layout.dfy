/** Where the nodes of the toroidal matrix live in the node store. The source allocates one
    `column` object per constraint, one `data` object per non-null matrix entry and keeps a
    `header` column inside the grid (grid.h); here they all occupy fixed slots of one array:
    the header at 0, column j (the column whose `name` is j) at j + 1, and the entry of matrix
    row i in family k at DataBase + 4 * i + k. */
module Layout {
  import opened Encoding

  const Header := 0
  const DataBase := MaxCols + 1
  const NodeCount := DataBase + 4 * MaxRows

  predicate IsColumn(x: int) { 1 <= x <= MaxCols }
  predicate IsData(x: int) { DataBase <= x < NodeCount }

  function DataNode(i: int, k: int): int { DataBase + 4 * i + k }

  /** The matrix row a data node belongs to (its `row` field) and its family. */
  function RowOf(x: int): int { (x - DataBase) / 4 }
  function FamilyOf(x: int): int { (x - DataBase) % 4 }

  /** The column node a data node hangs from (its `col` field). */
  function ColOf(x: int): (c: int)
    requires IsData(x)
    ensures IsColumn(c)
  {
    OffsetBands(RowOf(x), FamilyOf(x));
    1 + ColumnOffset(RowOf(x), FamilyOf(x))
  }

  /** The node m steps to the right of x in its row. */
  function RowStep(x: int, m: nat): int
  {
    DataBase + 4 * RowOf(x) + (FamilyOf(x) + m) % 4
  }

  lemma RowStepFacts(x: int, m: nat)
    requires IsData(x)
    ensures IsData(RowStep(x, m))
    ensures RowOf(RowStep(x, m)) == RowOf(x)
    ensures FamilyOf(RowStep(x, m)) == (FamilyOf(x) + m) % 4
    ensures RowStep(x, 0) == x && RowStep(x, 4) == x
    ensures RowStep(RowStep(x, m), 1) == RowStep(x, m + 1)
    ensures m >= 1 ==> RowStep(RowStep(x, m), 3) == RowStep(x, m - 1)
  {
  }

  /** The four nodes of a row are distinct and sit in four distinct columns, and each column
      holds at most one node of a row. */
  lemma {:induction false} ColumnsOfRowDistinct(x: int, y: int)
    requires IsData(x) && IsData(y) && RowOf(x) == RowOf(y)
    ensures ColOf(x) == ColOf(y) <==> x == y
  {
    OffsetBands(RowOf(x), FamilyOf(x));
    OffsetBands(RowOf(y), FamilyOf(y));
  }

  /** Any other node of x's row is one, two or three steps to its right. */
  lemma SameRowIsStep(x: int, y: int)
    requires IsData(x) && IsData(y) && RowOf(x) == RowOf(y) && x != y
    ensures var m := (FamilyOf(y) - FamilyOf(x) + 4) % 4; 1 <= m <= 3 && y == RowStep(x, m)
  {
  }

  /** Stepping one to three nodes along a row never returns to the start. */
  lemma RowStepNotSelf(x: int, m: nat)
    requires IsData(x) && 1 <= m <= 3
    ensures RowStep(x, m) != x && RowStep(x, 4) == x
  {
  }

  lemma StepsDistinct(x: int, a: nat, b: nat)
    requires IsData(x) && a < 4 && b < 4 && RowStep(x, a) == RowStep(x, b)
    ensures a == b
  {
  }

  /** The `row` fields of a sequence of data nodes. */
  function RowsOf(nodes: seq<int>): seq<int>
  {
    seq(|nodes|, i requires 0 <= i < |nodes| => RowOf(nodes[i]))
  }

  /** The null pointer of the matrix. */
  const Null := -1

  /** What initMatrix leaves in matrix[i][j]: the node of row i in family j / 81 when that
      family's offset for row i is j, and null otherwise (each family has its own band). */
  function MatrixEntry(i: int, j: int): int
    requires 0 <= i < MaxRows && 0 <= j < MaxCols
  {
    if ColumnOffset(i, j / 81) == j then DataNode(i, j / 81) else Null
  }

  /** The clue "digit n at row r, column c" names matrix row i = EncodeClue(n, r, c), whose
      entry in column i / 9 is its first-family node, a data node of row i that decodes back
      to the clue. */
  lemma ClueNode(n: int, r: int, c: int)
    requires 1 <= n <= 9 && 1 <= r <= 9 && 1 <= c <= 9
    ensures var i := EncodeClue(n, r, c);
      0 <= i < MaxRows && 0 <= i / 9 < MaxCols && MatrixEntry(i, i / 9) == DataNode(i, 0) &&
      IsData(DataNode(i, 0)) && RowOf(DataNode(i, 0)) == i &&
      DecodeRow(i) == Placement(r - 1, c - 1, n)
  {
    DecodeEncode(n, r, c);
  }
}
