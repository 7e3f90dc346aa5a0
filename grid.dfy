/** The grid class of grid.h / grid.cpp: the toroidal doubly linked matrix of the Sudoku
    exact-cover problem, the clue covering, and the dancing-links search. */
module Sudoku {
  import opened Encoding
  import opened Layout
  import opened Rings
  import opened Dlx
  import opened Plans
  import opened Selection
  import opened Build

  datatype Option<T> = None | Some(value: T)

  /** Dropping the last of k + 1 picked rows leaves the first k. */
  lemma PrefixKeep(o: seq<int>, k: nat, p: seq<int>, d: int)
    requires k < |o| && o[..k + 1] == p + [d]
    ensures o[..k] == p
  {
    assert o[..k] == o[..k + 1][..k];
  }

  class Grid {
    /** The fields of every node (grid.h `data` and `column`), one array per field, indexed
        by node; `size` is indexed by column node. */
    const left: array<int>
    const right: array<int>
    const up: array<int>
    const down: array<int>
    const col: array<int>
    const row: array<int>
    const size: array<int>
    /** matrix[i, j]: the node of matrix row i in column j, or Null. */
    const matrix: array2<int>
    /** The nodes of the rows picked so far (grid.h `output`), the first `count` of them in use
        (grid.h's member `size`). */
    const output: array<int>
    var count: int
    /** The abstraction: every column's vertical list and the live columns in ring order. */
    ghost var lists: seq<seq<int>>
    ghost var ring: seq<int>

    ghost predicate Arrays()
    {
      left.Length == NodeCount && right.Length == NodeCount && up.Length == NodeCount &&
      down.Length == NodeCount && col.Length == NodeCount && row.Length == NodeCount &&
      size.Length == MaxCols + 1 && output.Length == MaxRows &&
      matrix.Length0 == MaxRows && matrix.Length1 == MaxCols &&
      left != right && left != up && left != down && left != col && left != row &&
      right != up && right != down && right != col && right != row &&
      up != down && up != col && up != row && down != col && down != row && col != row &&
      size != left && size != right && size != up && size != down && size != col && size != row &&
      output != left && output != right && output != up && output != down && output != col &&
      output != row && output != size
    }

    ghost function Snap(): Store
      reads left, right, up, down, col, row, size
    {
      Store(left[..], right[..], up[..], down[..], col[..], row[..], size[..])
    }

    ghost function Current(): Frame
      reads this, left, right, up, down, col, row, size
    {
      Frame(Snap(), lists, ring)
    }

    ghost predicate MatrixBuilt()
      reads matrix
      requires matrix.Length0 == MaxRows && matrix.Length1 == MaxCols
    {
      forall i, j | 0 <= i < MaxRows && 0 <= j < MaxCols :: matrix[i, j] == MatrixEntry(i, j)
    }

    /** The picked rows are named by data nodes. */
    ghost predicate Picked()
      reads this, output
    {
      0 <= count <= output.Length && forall i | 0 <= i < count :: IsData(output[i])
    }

    ghost predicate Valid()
      reads this, left, right, up, down, col, row, size, matrix, output
    {
      Arrays() && Wf(Snap(), lists, ring) && MatrixBuilt() && Picked()
    }

    /** The grid constructor (grid.cpp:21-142), up to the clue input of askUser: allocate the
        node fields, the all-null matrix and the output array, link the columns, fill the
        matrix, link every row and every column. It leaves every column live with its full
        list, no row picked, and a well-formed state. */
    constructor()
      ensures Valid() && count == 0 && lists == InitialLists() && ring == AllColumns()
      ensures forall c | IsColumn(c) :: size[c] == 9
    {
      count := 0;
      output := new int[MaxRows];
      matrix := new int[MaxRows, MaxCols]((i, j) => Null);
      left := new int[NodeCount];
      right := new int[NodeCount];
      up := new int[NodeCount];
      down := new int[NodeCount];
      col := new int[NodeCount];
      row := new int[NodeCount];
      size := new int[MaxCols + 1];
      lists := InitialLists();
      ring := AllColumns();
      new;
      LinkAll();
      BuiltWf(Snap());
    }

    /** The linking phases of the constructor, in the source's order. */
    method LinkAll()
      requires Arrays()
      requires forall i, j | 0 <= i < MaxRows && 0 <= j < MaxCols :: matrix[i, j] == Null
      modifies left, right, up, down, col, row, size, matrix
      ensures Built(Snap()) && MatrixBuilt()
      ensures forall c | IsColumn(c) :: size[c] == 9
    {
      LinkColumns();
      InitMatrix();
      LinkRows();
      LinkColumnLists();
      BuiltSizes(Snap());
    }

    /** The constructor's column loop and the header links (grid.cpp:40-66): the columns in a
        ring in name order through the header, each with an empty vertical ring, size 0, its
        own `col` and a null `row`. */
    method LinkColumns()
      requires Arrays()
      modifies left, right, up, down, col, row, size
      ensures right[Header] == 1 && left[Header] == MaxCols
      ensures forall c | IsColumn(c) ::
        left[c] == (if c == 1 then Header else c - 1) &&
        right[c] == (if c == MaxCols then Header else c + 1)
      ensures forall c | IsColumn(c) ::
        up[c] == c && down[c] == c && col[c] == c && row[c] == 0 && size[c] == 0
    {
      for i := 0 to MaxCols
        invariant forall c | 1 <= c <= i ::
          left[c] == (if c == 1 then Header else c - 1) &&
          right[c] == (if c == MaxCols then Header else c + 1)
        invariant forall c | 1 <= c <= i ::
          up[c] == c && down[c] == c && col[c] == c && row[c] == 0 && size[c] == 0
      {
        var c := i + 1;
        if i == 0 {
          left[c] := Header;
          right[c] := c + 1;
        } else if i == MaxCols - 1 {
          left[c] := c - 1;
          right[c] := Header;
        } else {
          left[c] := c - 1;
          right[c] := c + 1;
        }
        size[c] := 0;
        up[c] := c;
        down[c] := c;
        col[c] := c;
        row[c] := 0;
      }
      right[Header] := 1;
      left[Header] := MaxCols;
    }

    /** initMatrix (grid.cpp:334-347): give every matrix row its four nodes, at the offsets of
        its four constraints, and set their `row`. */
    method InitMatrix()
      requires Arrays()
      requires forall i, j | 0 <= i < MaxRows && 0 <= j < MaxCols :: matrix[i, j] == Null
      modifies matrix, row
      ensures MatrixBuilt()
      ensures forall x | IsData(x) :: row[x] == RowOf(x)
      ensures forall x | 0 <= x < DataBase :: row[x] == old(row[x])
    {
      for i := 0 to MaxRows
        invariant forall i', j | 0 <= i' < i && 0 <= j < MaxCols :: matrix[i', j] == MatrixEntry(i', j)
        invariant forall i', j | i <= i' < MaxRows && 0 <= j < MaxCols :: matrix[i', j] == Null
        invariant forall x | DataBase <= x < DataBase + 4 * i :: row[x] == RowOf(x)
        invariant forall x | 0 <= x < DataBase :: row[x] == old(row[x])
      {
        InitRow(i);
      }
    }

    /** One pass of initMatrix's loop (grid.cpp:338-345): put the four nodes of row i at its
        four offsets and set their `row`; nothing else changes. */
    method InitRow(i: int)
      requires Arrays() && 0 <= i < MaxRows
      requires forall j | 0 <= j < MaxCols :: matrix[i, j] == Null
      modifies matrix, row
      ensures forall j | 0 <= j < MaxCols :: matrix[i, j] == MatrixEntry(i, j)
      ensures forall i', j | 0 <= i' < MaxRows && i' != i && 0 <= j < MaxCols :: matrix[i', j] == old(matrix[i', j])
      ensures forall x | DataBase + 4 * i <= x < DataBase + 4 * i + 4 :: row[x] == RowOf(x)
      ensures forall x | 0 <= x < NodeCount && !(DataBase + 4 * i <= x < DataBase + 4 * i + 4) ::
        row[x] == old(row[x])
    {
      RowEntries(i);
      RowBlock(i);
      OffsetBands(i, 0);
      OffsetBands(i, 1);
      OffsetBands(i, 2);
      OffsetBands(i, 3);
      var c0, c1, c2 := i / 9, 81 + 9 * (i / 81) + i % 9, 162 + i % 81;
      var c3 := 243 + i % 9 + 9 * (i / 27) - 27 * (i / 81) + 27 * (i / 243);
      assert c0 == ColumnOffset(i, 0) && c1 == ColumnOffset(i, 1);
      assert c2 == ColumnOffset(i, 2) && c3 == ColumnOffset(i, 3);
      matrix[i, c0] := DataNode(i, 0);
      row[DataNode(i, 0)] := i;
      matrix[i, c1] := DataNode(i, 1);
      row[DataNode(i, 1)] := i;
      matrix[i, c2] := DataNode(i, 2);
      row[DataNode(i, 2)] := i;
      matrix[i, c3] := DataNode(i, 3);
      row[DataNode(i, 3)] := i;
    }

    /** The constructor's row loop (grid.cpp:73-104): link the nodes of every matrix row in a
        ring, left to right. */
    method LinkRows()
      requires Arrays() && MatrixBuilt()
      modifies left, right
      ensures forall x | IsData(x) :: right[x] == RowStep(x, 1) && left[x] == RowStep(x, 3)
      ensures forall x | 0 <= x < DataBase :: left[x] == old(left[x]) && right[x] == old(right[x])
    {
      for i := 0 to MaxRows
        invariant forall x | DataBase <= x < DataBase + 4 * i ::
          right[x] == RowStep(x, 1) && left[x] == RowStep(x, 3)
        invariant forall x | 0 <= x < DataBase :: left[x] == old(left[x]) && right[x] == old(right[x])
      {
        LinkRow(i);
      }
    }

    /** One pass of that loop (grid.cpp:75-103): collect the entries of matrix row i, then
        link each to its neighbours, the last back to the first. */
    method LinkRow(i: int)
      requires Arrays() && MatrixBuilt() && 0 <= i < MaxRows
      modifies left, right
      ensures forall x | DataBase + 4 * i <= x < DataBase + 4 * i + 4 ::
        right[x] == RowStep(x, 1) && left[x] == RowStep(x, 3)
      ensures forall x | 0 <= x < NodeCount && !(DataBase + 4 * i <= x < DataBase + 4 * i + 4) ::
        left[x] == old(left[x]) && right[x] == old(right[x])
    {
      var rowNodes, found := RowBuffer(i);
      RowBlock(i);
      for x := 0 to found
        modifies left, right
        invariant forall y | DataBase + 4 * i <= y < DataBase + 4 * i + x ::
          right[y] == RowStep(y, 1) && left[y] == RowStep(y, 3)
        invariant forall y | 0 <= y < NodeCount && !(DataBase + 4 * i <= y < DataBase + 4 * i + x) ::
          left[y] == old(left[y]) && right[y] == old(right[y])
      {
        DataNodeFacts(i, x);
        if x == 0 {
          left[rowNodes[x]] := rowNodes[found - 1];
          right[rowNodes[x]] := rowNodes[x + 1];
        } else if x == found - 1 {
          left[rowNodes[x]] := rowNodes[x - 1];
          right[rowNodes[x]] := rowNodes[0];
        } else {
          left[rowNodes[x]] := rowNodes[x - 1];
          right[rowNodes[x]] := rowNodes[x + 1];
        }
      }
    }

    /** The scan of matrix row i left to right (grid.cpp:77-85): its buffer receives the row's
        four nodes, in family order. */
    method RowBuffer(i: int) returns (rowNodes: array<int>, found: int)
      requires Arrays() && MatrixBuilt() && 0 <= i < MaxRows
      ensures fresh(rowNodes) && rowNodes.Length == MaxCols && found == 4
      ensures forall t | 0 <= t < 4 :: rowNodes[t] == DataNode(i, t)
    {
      found := 0;
      rowNodes := new int[MaxCols];
      for j := 0 to MaxCols
        modifies rowNodes
        invariant found == Found(i, j)
        invariant forall t | 0 <= t < found :: rowNodes[t] == DataNode(i, t)
      {
        FoundStep(i, j);
        if matrix[i, j] != Null {
          rowNodes[found] := matrix[i, j];
          found := found + 1;
        }
      }
      FoundStep(i, 0);
    }

    /** The constructor's column loop (grid.cpp:108-142): link every column's vertical ring
        through its entries top to bottom, pointing their `col` at the column and counting
        them in its `size`. */
    method LinkColumnLists()
      requires Arrays() && MatrixBuilt()
      requires forall c | IsColumn(c) :: size[c] == 0
      modifies up, down, col, size
      ensures forall c | IsColumn(c) :: ColumnBuilt(Snap(), c)
      ensures forall x | IsData(x) :: col[x] == ColOf(x)
      ensures forall y | 0 <= y < NodeCount && !IsData(y) :: col[y] == old(col[y])
    {
      for j := 0 to MaxCols
        invariant forall c | 1 <= c <= j :: ColumnBuilt(Snap(), c)
        invariant forall x | IsData(x) && ColOf(x) <= j :: col[x] == ColOf(x)
        invariant forall y | 0 <= y < NodeCount && !IsData(y) :: col[y] == old(col[y])
        invariant forall c | j < c <= MaxCols :: size[c] == 0
      {
        LinkColumn(j);
      }
    }

    /** One pass of that loop (grid.cpp:110-141): link column j's ring. The columns linked
        before keep their rings. */
    method LinkColumn(j: int)
      requires Arrays() && MatrixBuilt() && 0 <= j < MaxCols && size[j + 1] == 0
      requires forall c | 1 <= c <= j :: ColumnBuilt(Snap(), c)
      modifies up, down, col, size
      ensures forall c | 1 <= c <= j + 1 :: ColumnBuilt(Snap(), c)
      ensures forall x | IsData(x) && ColOf(x) == j + 1 :: col[x] == j + 1
      ensures forall y | 0 <= y < NodeCount && !(IsData(y) && ColOf(y) == j + 1) :: col[y] == old(col[y])
      ensures forall c | 0 <= c <= MaxCols && c != j + 1 :: size[c] == old(size[c])
    {
      ghost var before := Snap();
      ColumnRing(j);
      KeepColumns(before, Snap(), j);
    }

    /** The body of a column pass: collect column j's node and its entries, then link them
        in a ring, touching no other node's vertical links. */
    method ColumnRing(j: int)
      requires Arrays() && MatrixBuilt() && 0 <= j < MaxCols && size[j + 1] == 0
      modifies up, down, col, size
      ensures ColumnBuilt(Snap(), j + 1)
      ensures forall y | 0 <= y < NodeCount && y != j + 1 && y !in Members(j, MaxRows) ::
        up[y] == old(up[y]) && down[y] == old(down[y])
      ensures forall x | IsData(x) && ColOf(x) == j + 1 :: col[x] == j + 1
      ensures forall y | 0 <= y < NodeCount && !(IsData(y) && ColOf(y) == j + 1) :: col[y] == old(col[y])
      ensures forall c | 0 <= c <= MaxCols && c != j + 1 :: size[c] == old(size[c])
    {
      var colNodes, found := ColumnBuffer(j);
      ghost var L := Members(j, MaxRows);
      ColumnNodes(j);
      assert colNodes[0] == j + 1 && colNodes[1..found] == L by {
        assert colNodes[..found][1..] == colNodes[1..found];
      }
      LinkBuffer(colNodes, found);
    }

    /** The linking half of a column pass (grid.cpp:125-140): the buffer's first node heads a
        vertical ring through the others, in buffer order; no other node's links change. */
    method LinkBuffer(colNodes: array<int>, found: int)
      requires Arrays() && colNodes != up && colNodes != down
      requires 2 <= found <= colNodes.Length && Distinct(colNodes[..found])
      requires forall t | 0 <= t < found :: 0 <= colNodes[t] < NodeCount
      modifies up, down
      ensures Ring(Vertical(Snap()), colNodes[0], colNodes[1..found])
      ensures forall y | 0 <= y < NodeCount && y !in colNodes[..found] ::
        up[y] == old(up[y]) && down[y] == old(down[y])
    {
      ghost var B := colNodes[..found];
      for x := 0 to found
        invariant forall t {:trigger down[B[t]]} | 0 <= t < x ::
          down[B[t]] == (if t == found - 1 then B[0] else B[t + 1])
        invariant forall t {:trigger up[B[t]]} | 0 <= t < x ::
          up[B[t]] == (if t == 0 then B[found - 1] else B[t - 1])
        invariant forall y | 0 <= y < NodeCount && y !in B :: up[y] == old(up[y]) && down[y] == old(down[y])
      {
        assert forall t | 0 <= t < x :: B[t] != B[x];
        if x == 0 {
          up[colNodes[x]] := colNodes[found - 1];
          down[colNodes[x]] := colNodes[x + 1];
        } else if x == found - 1 {
          up[colNodes[x]] := colNodes[x - 1];
          down[colNodes[x]] := colNodes[0];
        } else {
          up[colNodes[x]] := colNodes[x - 1];
          down[colNodes[x]] := colNodes[x + 1];
        }
      }
      ghost var g := Vertical(Snap());
      assert forall t {:trigger g.succ[B[t]]} | 0 <= t < |B| ::
        g.succ[B[t]] == (if t == |B| - 1 then B[0] else B[t + 1]);
      assert forall t {:trigger g.pred[B[t]]} | 0 <= t < |B| ::
        g.pred[B[t]] == (if t == 0 then B[|B| - 1] else B[t - 1]);
      LinkedRing(g, B);
    }

    /** The scan of matrix column j top to bottom (grid.cpp:112-123): its buffer receives the
        column's node and then its entries; each entry's `col` is set to the column, and the
        column's size counts them. */
    method ColumnBuffer(j: int) returns (colNodes: array<int>, found: int)
      requires Arrays() && MatrixBuilt() && 0 <= j < MaxCols && size[j + 1] == 0
      modifies col, size
      ensures fresh(colNodes) && 2 <= found <= colNodes.Length
      ensures colNodes[..found] == [j + 1] + Members(j, MaxRows)
      ensures size[j + 1] == found - 1
      ensures forall x | IsData(x) && ColOf(x) == j + 1 :: col[x] == j + 1
      ensures forall y | 0 <= y < NodeCount && !(IsData(y) && ColOf(y) == j + 1) :: col[y] == old(col[y])
      ensures forall c | 0 <= c <= MaxCols && c != j + 1 :: size[c] == old(size[c])
    {
      found := 1;
      colNodes := new int[MaxRows + 1];
      colNodes[0] := j + 1;
      for i := 0 to MaxRows
        modifies colNodes, col, size
        invariant 1 <= found <= i + 1
        invariant colNodes[..found] == [j + 1] + Members(j, i)
        invariant size[j + 1] == found - 1
        invariant forall x | IsData(x) && ColOf(x) == j + 1 && RowOf(x) < i :: col[x] == j + 1
        invariant forall y | 0 <= y < NodeCount && !(IsData(y) && ColOf(y) == j + 1) :: col[y] == old(col[y])
        invariant forall c | 0 <= c <= MaxCols && c != j + 1 :: size[c] == old(size[c])
      {
        found := TakeEntry(colNodes, found, i, j);
      }
      ColumnCensus(j);
    }

    /** One pass of that scan (grid.cpp:115-121): a non-null entry of row i joins the buffer,
        points its `col` at the column and adds one to the column's size. */
    method TakeEntry(colNodes: array<int>, found: int, i: int, j: int) returns (found': int)
      requires Arrays() && MatrixBuilt() && 0 <= i < MaxRows && 0 <= j < MaxCols
      requires colNodes != col && colNodes != size && colNodes.Length == MaxRows + 1
      requires 1 <= found <= i + 1 && colNodes[..found] == [j + 1] + Members(j, i)
      modifies colNodes, col, size
      ensures found <= found' <= i + 2 && colNodes[..found'] == [j + 1] + Members(j, i + 1)
      ensures size[j + 1] == old(size[j + 1]) + found' - found
      ensures forall c | 0 <= c <= MaxCols && c != j + 1 :: size[c] == old(size[c])
      ensures forall x | IsData(x) && ColOf(x) == j + 1 && RowOf(x) == i :: col[x] == j + 1
      ensures forall y | 0 <= y < NodeCount && !(IsData(y) && ColOf(y) == j + 1 && RowOf(y) == i) ::
        col[y] == old(col[y])
    {
      EntryFacts(i, j);
      found' := found;
      if matrix[i, j] != Null {
        colNodes[found'] := matrix[i, j];
        found' := found' + 1;
        col[matrix[i, j]] := j + 1;
        size[j + 1] := size[j + 1] + 1;
      }
    }

    /** One step of coverCol's inner loop (grid.cpp:273-275). */
    method UnlinkNode(r: int, ghost t: Store)
      requires Arrays() && Snap() == t && Linkable(t, r)
      modifies up, down, size
      ensures Snap() == Unlink(t, r)
    {
      ghost var v := Splice(Vertical(t), r);
      down[up[r]] := down[r];
      assert down[..] == v.succ;
      up[down[r]] := up[r];
      assert up[..] == v.pred;
      size[col[r]] := size[col[r]] - 1;
      assert size[..] == t.size[t.col[r] := t.size[t.col[r]] - 1];
    }

    /** One step of uncoverCol's inner loop (grid.cpp:296-298). */
    method RelinkNode(l: int, ghost t: Store)
      requires Arrays() && Snap() == t && Linkable(t, l)
      modifies up, down, size
      ensures Snap() == Relink(t, l)
    {
      ghost var v := Restore(Vertical(t), l);
      down[up[l]] := l;
      assert down[..] == v.succ;
      up[down[l]] := l;
      assert up[..] == v.pred;
      size[col[l]] := size[col[l]] + 1;
      assert size[..] == t.size[t.col[l] := t.size[t.col[l]] + 1];
    }

    /** coverCol's loops (grid.cpp:267-279): down column c and, in every row met, right
        along the row, unlinking each node. They step through the plan of the column. */
    method UnlinkRows(c: int, ghost h: Store, ghost L: seq<int>, ghost R: seq<seq<int>>,
                      ghost B: seq<Store>, ghost P: seq<seq<Store>>)
      requires Arrays() && Snap() == h && CoverPlan(h, L, c, R, B, P)
      modifies up, down, size
      ensures Snap() == B[|L|]
    {
      var d := down[c];
      ghost var a := 0;
      while d != c
        invariant 0 <= a <= |L|
        invariant d == if a < |L| then L[a] else c
        invariant Snap() == B[a] && Snap().right == h.right
        decreases |L| - a
      {
        var r := right[d];
        ghost var k := 0;
        while r != d
          invariant 0 <= k <= 3
          invariant r == if k < 3 then R[a][k] else d
          invariant Snap() == P[a][k] && Snap().right == h.right
          decreases 3 - k
        {
          UnlinkNode(r, Snap());
          assert h.right[r] == if k == 2 then d else R[a][k + 1];
          r := right[r];
          k := k + 1;
        }
        assert Snap().down[d] == After(L, c, a);
        d := down[d];
        a := a + 1;
      }
    }

    /** uncoverCol's loops (grid.cpp:290-302): up column c and, in every row met, left along
        the row, relinking each node. */
    method RelinkRows(c: int, ghost t: Store, ghost M: seq<int>, ghost R: seq<seq<int>>,
                      ghost B: seq<Store>, ghost P: seq<seq<Store>>)
      requires Arrays() && Snap() == t && UncoverPlan(t, M, c, R, B, P)
      modifies up, down, size
      ensures Snap() == B[|M|]
    {
      var u := up[c];
      ghost var b := 0;
      while u != c
        invariant 0 <= b <= |M|
        invariant u == if b < |M| then M[b] else c
        invariant Snap() == B[b] && Snap().left == t.left
        decreases |M| - b
      {
        var l := left[u];
        ghost var k := 0;
        while l != u
          invariant 0 <= k <= 3
          invariant l == if k < 3 then R[b][k] else u
          invariant Snap() == P[b][k] && Snap().left == t.left
          decreases 3 - k
        {
          RelinkNode(l, Snap());
          assert t.left[l] == if k == 2 then u else R[b][k + 1];
          l := left[l];
          k := k + 1;
        }
        assert Snap().up[u] == After(M, c, b);
        u := up[u];
        b := b + 1;
      }
    }

    /** coverCol's first two statements (grid.cpp:265-266). */
    method SpliceColumn(c: int, ghost t: Store)
      requires Arrays() && Snap() == t && Spliceable(Horizontal(t), c)
      modifies left, right
      ensures Snap() == HSplice(t, c)
    {
      ghost var g := Splice(Horizontal(t), c);
      right[left[c]] := right[c];
      assert right[..] == g.succ;
      left[right[c]] := left[c];
      assert left[..] == g.pred;
    }

    /** uncoverCol's last two statements (grid.cpp:303-304). */
    method RestoreColumn(c: int, ghost t: Store)
      requires Arrays() && Snap() == t && Spliceable(Horizontal(t), c)
      modifies left, right
      ensures Snap() == HRestore(t, c)
    {
      ghost var g := Restore(Horizontal(t), c);
      right[left[c]] := c;
      assert right[..] == g.succ;
      left[right[c]] := c;
      assert left[..] == g.pred;
    }

    /** coverCol (grid.cpp:263-280): take column c out of the column ring and every other node
        of every row of c out of its column. The new state is the one the cover specification
        gives, and it is well formed for the lists without c's rows and the ring without c. */
    method CoverCol(c: int)
      requires Valid() && c in ring
      modifies this, left, right, up, down, size
      ensures Valid() && count == old(count)
      ensures Covers(old(Current()), c, Current())
    {
      ghost var s0, V, C := Snap(), lists, ring;
      ghost var R, B, P := CoverReady(s0, V, C, c);
      SpliceColumn(c, s0);
      UnlinkRows(c, Snap(), V[c], R, B, P);
      lists := CoverLists(V, c);
      ring := Remove(C, c);
    }

    /** uncoverCol (grid.cpp:288-305): undo the covering of c that led from frame f to the
        current state. The new state is the one the uncover specification gives, which is f. */
    method UncoverCol(c: int, ghost f: Frame)
      requires Valid() && Covers(f, c, Current())
      modifies this, left, right, up, down, size
      ensures Valid() && count == old(count)
      ensures Snap() == UncoverSpec(old(Snap()), f.lists[c], c) && Current() == f
    {
      ghost var M, R, B, P := UncoverReady(f, c);
      RelinkRows(c, Snap(), M, R, B, P);
      RestoreColumn(c, Snap());
      lists := f.lists;
      ring := f.ring;
    }
 
    /** findSmallest (grid.cpp:310-325): walk the column ring from the header and keep the
        first column whose size is below every size seen so far, starting from MAX_ROWS + 1.
        It returns no column (the source's null) exactly when the ring is empty, and otherwise
        the first live column of least size. */
    method FindSmallest() returns (c: Option<int>)
      requires Valid()
      ensures c.None? <==> ring == []
      ensures c.Some? ==> exists k :: FirstSmallest(lists, ring, k) && ring[k] == c.value
    {
      RingWalk(Snap(), lists, ring, -1);
      c := None;
      var r := right[Header];
      var best := MaxRows + 1;
      ghost var k, ki := 0, 0;
      while r != Header
        invariant 0 <= k <= |ring|
        invariant r == if k < |ring| then ring[k] else Header
        invariant c.None? ==> k == 0 && best == MaxRows + 1
        invariant c.Some? ==> 0 <= ki < k && ring[ki] == c.value && best == |lists[c.value]|
        invariant c.Some? ==> forall j | 0 <= j < k :: best <= |lists[ring[j]]|
        invariant c.Some? ==> forall j | 0 <= j < ki :: best < |lists[ring[j]]|
        decreases |ring| - k
      {
        RingWalk(Snap(), lists, ring, k);
        if size[r] < best {
          best := size[r];
          c := Some(r);
          ki := k;
        }
        r := right[r];
        k := k + 1;
      }
      if c.Some? {
        assert FirstSmallest(lists, ring, ki);
      }
    }

    /** Record d as the next picked row (grid.cpp:249-250, 209-210). */
    method Pick(d: int)
      requires Valid() && count < MaxRows && IsData(d)
      modifies this, output
      ensures Valid() && count == old(count) + 1 && Current() == old(Current())
      ensures output[..count] == old(output[..count]) + [d]
    {
      output[count] := d;
      count := count + 1;
      assert Snap() == old(Snap());
    }

    /** coverClue (grid.cpp:242-253): record d as a picked row, then cover d's column and the
        columns of the other nodes of d's row, left to right. */
    method CoverClue(d: int)
      requires Valid() && count < MaxRows && Live(lists, ring, d)
      modifies this, left, right, up, down, size, output
      ensures Valid() && count == old(count) + 1
      ensures output[..count] == old(output[..count]) + [d]
      ensures Current() == CoverRow(old(Current()), d, 4)
    {
      ghost var f := Current();
      Pick(d);
      RowWalk(f, d, 0);
      RowColAt(Snap(), d, 0);
      RowStepFacts(d, 0);
      assert Current() == CoverRow(f, d, 0);
      CoverCol(col[d]);
      assert Current() == CoverRow(f, d, 1);
      CoverRowRest(d, f);
    }

    /** The loop that coverClue and search share (grid.cpp:250-252, 212-217): with the column
        of d already covered, walk right along d's row covering the column of each node until
        the walk is back at d. */
    method CoverRowRest(d: int, ghost f: Frame)
      requires Wf(f.s, f.lists, f.ring) && Live(f.lists, f.ring, d)
      requires Valid() && Current() == CoverRow(f, d, 1)
      modifies this, left, right, up, down, size
      ensures Valid() && count == old(count) && Current() == CoverRow(f, d, 4)
    {
      RowNext(Snap(), d, 0);
      var r := right[d];
      ghost var m := 1;
      while r != d
        invariant 1 <= m <= 4
        invariant r == if m < 4 then RowStep(d, m) else d
        invariant m < 4 ==> r != d
        invariant Valid() && count == old(count)
        invariant Current() == CoverRow(f, d, m)
        decreases 4 - m
      {
        r := CoverStep(r, f, d, m);
        m := m + 1;
      }
      assert m == 4;
    }

    /** The walk back in search (grid.cpp:221-226): walk left along d's row from its last
        node, uncovering the column of each node until the walk is back at d. */
    method UncoverRowRest(d: int, ghost f: Frame)
      requires Wf(f.s, f.lists, f.ring) && Live(f.lists, f.ring, d)
      requires Valid() && Current() == CoverRow(f, d, 4)
      modifies this, left, right, up, down, size
      ensures Valid() && count == old(count) && Current() == CoverRow(f, d, 1)
    {
      RowPrev(Snap(), d, 0);
      var l := left[d];
      ghost var m := 4;
      while l != d
        invariant 1 <= m <= 4
        invariant l == if m > 1 then RowStep(d, m - 1) else d
        invariant m > 1 ==> l != d
        invariant Valid() && count == old(count)
        invariant Current() == CoverRow(f, d, m)
        decreases m
      {
        l := UncoverStep(l, f, d, m);
        m := m - 1;
      }
      assert m == 1;
    }

    /** One pass of the covering walk: cover the column of r, the m-th node of d's row, and step right. */
    method CoverStep(r: int, ghost f: Frame, ghost d: int, ghost m: nat) returns (next: int)
      requires Wf(f.s, f.lists, f.ring) && Live(f.lists, f.ring, d) && m < 4
      requires Valid() && Current() == CoverRow(f, d, m) && r == RowStep(d, m)
      modifies this, left, right, up, down, size
      ensures Valid() && count == old(count) && Current() == CoverRow(f, d, m + 1)
      ensures next == (if m < 3 then RowStep(d, m + 1) else d) && (m < 3 ==> next != d)
    {
      RowWalk(f, d, m);
      CoverCol(col[r]);
      RowNext(Snap(), d, m);
      next := right[r];
    }

    /** One pass of the uncovering walk of search (grid.cpp:221-226): uncover the column of l,
        the node before the m-th of d's row, and step left. */
    method UncoverStep(l: int, ghost f: Frame, ghost d: int, ghost m: nat) returns (prev: int)
      requires Wf(f.s, f.lists, f.ring) && Live(f.lists, f.ring, d) && 2 <= m <= 4
      requires Valid() && Current() == CoverRow(f, d, m) && l == RowStep(d, m - 1)
      modifies this, left, right, up, down, size
      ensures Valid() && count == old(count) && Current() == CoverRow(f, d, m - 1)
      ensures prev == (if m > 2 then RowStep(d, m - 2) else d) && (m > 2 ==> prev != d)
    {
      ghost var j: nat := m - 1;
      RowWalk(f, d, j);
      RowColAt(Snap(), d, j);
      UncoverCol(col[l], CoverRow(f, d, j));
      RowPrev(Snap(), d, j);
      prev := left[l];
    }

    /** search (grid.cpp:194-235): when the column ring is empty the picked rows solve the
        puzzle and the state stays as it is; otherwise cover the first column of least size
        and try each of its rows in turn. When no row leads to a solution, the column is
        uncovered again, leaving the matrix, the picked rows and the column ring exactly as
        they were. The picked rows below count are never touched. */
    method Search() returns (found: bool)
      requires Valid() && count + |ring| <= MaxRows
      modifies this, left, right, up, down, size, output
      decreases |ring|, 2
      ensures Valid() && output[..old(count)] == old(output[..count])
      ensures found ==> ring == [] && old(count) <= count
      ensures found ==> 4 * (count - old(count)) == |old(ring)|
      ensures found ==> Current() == PickedRows(old(Current()), output[old(count)..count])
      ensures !found ==> count == old(count) && Current() == old(Current())
      ensures old(ring) == [] ==> found && count == old(count) && Current() == old(Current())
    {
      RingWalk(Snap(), lists, ring, -1);
      if right[Header] == Header {
        return true;
      }
      var c := FindSmallest();
      found := SearchColumn(c.value);
    }

    /** The rest of search once c is chosen (grid.cpp:204-234): cover c, walk down c's list
        trying each row, and uncover c again when none of them leads to a solution. */
    method SearchColumn(c: int) returns (found: bool)
      requires Valid() && c in ring && count + |ring| <= MaxRows
      modifies this, left, right, up, down, size, output
      decreases |ring|, 1
      ensures Valid() && output[..old(count)] == old(output[..count])
      ensures found ==> ring == [] && old(count) <= count
      ensures found ==> 4 * (count - old(count)) == |old(ring)|
      ensures found ==> Current() == PickedRows(old(Current()), output[old(count)..count])
      ensures !found ==> count == old(count) && Current() == old(Current())
    {
      ghost var f := Current();
      ghost var L := lists[c];
      CoverCol(c);
      ColumnWalk(f, c, -1);
      var d := down[c];
      ghost var a := 0;
      while d != c
        invariant 0 <= a <= |L|
        invariant d == if a < |L| then L[a] else c
        invariant Valid() && Current() == CoverFrame(f, c)
        invariant count == old(count) && output[..count] == old(output[..count])
        decreases |L| - a
      {
        found := TryRow(d, f, c, a);
        if found {
          return;
        }
        ColumnWalk(f, c, a);
        d := down[d];
        a := a + 1;
      }
      UncoverCol(c, f);
      return false;
    }

    /** The body of search's row loop (grid.cpp:209-229): pick the row of d, the a-th node of
        the covered column c, cover the other columns of the row, search on, and unless that
        finds a solution uncover those columns right to left and drop the row again. */
    method TryRow(d: int, ghost f: Frame, ghost c: int, ghost a: int) returns (found: bool)
      requires Wf(f.s, f.lists, f.ring) && c in f.ring && 0 <= a < |f.lists[c]|
      requires d == f.lists[c][a] && count + |f.ring| <= MaxRows
      requires Valid() && Current() == CoverFrame(f, c)
      modifies this, left, right, up, down, size, output
      decreases |ring|, 0
      ensures Valid() && output[..old(count)] == old(output[..count])
      ensures found ==> ring == [] && old(count) <= count
      ensures found ==> 4 * (count - old(count)) == |f.ring|
      ensures found ==> Current() == PickedRows(f, output[old(count)..count])
      ensures !found ==> count == old(count) && Current() == old(Current())
    {
      ghost var k, kept := count, output[..count];
      ColumnRow(f, c, a);
      PickRow(d, f);
      PrefixKeep(output[..], k, kept, d);
      found := Descend(d, f);
      if found {
        assert output[k] == output[..k + 1][k] == d;
        assert output[k..count][1..] == output[k + 1..count];
      }
    }

    /** The rest of the row loop's body once d's row is picked (grid.cpp:220-230): search on,
        and when that fails uncover the other columns of d's row and drop the row. */
    method Descend(d: int, ghost f: Frame) returns (found: bool)
      requires Wf(f.s, f.lists, f.ring) && Live(f.lists, f.ring, d)
      requires Valid() && Current() == CoverRow(f, d, 4)
      requires 1 <= count && count + |ring| <= MaxRows
      modifies this, left, right, up, down, size, output
      decreases |ring|, 3
      ensures Valid() && output[..old(count) - 1] == old(output[..count - 1])
      ensures found ==> ring == [] && old(count) <= count
      ensures found ==> output[..old(count)] == old(output[..count])
      ensures found ==> 4 * (count - old(count)) == |old(ring)|
      ensures found ==> Current() == PickedRows(old(Current()), output[old(count)..count])
      ensures !found ==> count == old(count) - 1 && Current() == CoverRow(f, d, 1)
    {
      ghost var k, kept := count, output[..count];
      found := Search();
      assert output[..k - 1] == output[..k][..k - 1];
      if found {
        return;
      }
      DropRow(d, f);
    }

    /** The first half of search's row loop (grid.cpp:209-217): record d as the next picked
        row and cover the remaining columns of its row. */
    method PickRow(d: int, ghost f: Frame)
      requires Wf(f.s, f.lists, f.ring) && Live(f.lists, f.ring, d)
      requires Valid() && Current() == CoverRow(f, d, 1) && count < MaxRows
      modifies this, left, right, up, down, size, output
      ensures Valid() && count == old(count) + 1 && Current() == CoverRow(f, d, 4)
      ensures output[..count] == old(output[..count]) + [d]
    {
      Pick(d);
      CoverRowRest(d, f);
    }

    /** After a failed search (grid.cpp:222-230): uncover the columns of d's row other than d's own
        and drop the row again. */
    method DropRow(d: int, ghost f: Frame)
      requires Wf(f.s, f.lists, f.ring) && Live(f.lists, f.ring, d)
      requires Valid() && Current() == CoverRow(f, d, 4) && count >= 1
      modifies this, left, right, up, down, size
      ensures Valid() && count == old(count) - 1 && Current() == CoverRow(f, d, 1)
    {
      UncoverRowRest(d, f);
      count := count - 1;
    }

    /** The board print fills before writing it out (grid.cpp:355-366): start from zeros and,
        for each picked row in order, put its digit in its cell. Cell (r, c) ends up holding
        what Cell says of the picked rows: the digit of the last one on that cell, or 0. */
    method Print() returns (outgrid: array2<int>)
      requires Valid()
      ensures fresh(outgrid) && outgrid.Length0 == 9 && outgrid.Length1 == 9
      ensures forall r, c | 0 <= r < 9 && 0 <= c < 9 ::
        outgrid[r, c] == Cell(RowsOf(output[..count]), r, c)
    {
      outgrid := new int[9, 9]((r, c) => 0);
      assert Static(Snap());
      for i := 0 to count
        invariant forall r, c | 0 <= r < 9 && 0 <= c < 9 ::
          outgrid[r, c] == Cell(RowsOf(output[..i]), r, c)
      {
        assert IsData(output[i]) && row[output[i]] == RowOf(output[i]);
        var result := row[output[i]];
        var pos := result / 9;
        outgrid[pos / 9, pos % 9] := result % 9 + 1;
        assert RowsOf(output[..i + 1]) == RowsOf(output[..i]) + [result];
        assert RowsOf(output[..i + 1])[..i] == RowsOf(output[..i]);
      }
    }

    /** parseInput (grid.cpp:178-184): the clue "digit n at row r, column c" picks matrix row
        (r - 1) * 81 + (c - 1) * 9 + (n - 1), whose node in column row / 9 coverClue takes. */
    method ParseInput(n: int, r: int, c: int)
      requires Valid() && count < MaxRows && 1 <= n <= 9 && 1 <= r <= 9 && 1 <= c <= 9
      requires Live(lists, ring, DataNode(EncodeClue(n, r, c), 0))
      modifies this, left, right, up, down, size, output
      ensures Valid() && count == old(count) + 1
      ensures output[..count] == old(output[..count]) + [DataNode(EncodeClue(n, r, c), 0)]
      ensures DecodeRow(RowOf(output[old(count)])) == Placement(r - 1, c - 1, n)
      ensures Current() == CoverRow(old(Current()), DataNode(EncodeClue(n, r, c), 0), 4)
    {
      var row := ((r - 1) * 81) + ((c - 1) * 9) + (n - 1);
      ClueNode(n, r, c);
      assert matrix[row, row / 9] == DataNode(EncodeClue(n, r, c), 0);
      CoverClue(matrix[row, row / 9]);
      assert output[old(count)] == (output[..count])[old(count)];
    }
  }
}
