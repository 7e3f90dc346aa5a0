/** What the grid constructor (grid.cpp:21-142) and initMatrix (grid.cpp:334-347) build: the
    matrix rows of the empty Sudoku, every column's vertical list holding the matrix entries of
    that column top to bottom, and every column live. */
module Build {
  import opened Encoding
  import opened Layout
  import opened Rings
  import opened Dlx

  /** Facts about the node of matrix row i in family k. */
  lemma DataNodeFacts(i: int, k: int)
    requires 0 <= i < MaxRows && 0 <= k < 4
    ensures var x := DataNode(i, k);
      IsData(x) && RowOf(x) == i && FamilyOf(x) == k && ColOf(x) == 1 + ColumnOffset(i, k) &&
      RowStep(x, 1) == DataNode(i, (k + 1) % 4) && RowStep(x, 3) == DataNode(i, (k + 3) % 4)
  {
  }

  /** Every data node is the node of its row in its family. */
  lemma DataNodeOf(x: int)
    requires IsData(x)
    ensures 0 <= RowOf(x) < MaxRows && 0 <= FamilyOf(x) < 4 && x == DataNode(RowOf(x), FamilyOf(x))
  {
  }

  /** Row i of the matrix holds its four nodes at the four offsets and null elsewhere. */
  lemma RowEntries(i: int)
    requires 0 <= i < MaxRows
    ensures forall j | 0 <= j < MaxCols ::
      MatrixEntry(i, j) ==
      (if j == ColumnOffset(i, 0) then DataNode(i, 0)
       else if j == ColumnOffset(i, 1) then DataNode(i, 1)
       else if j == ColumnOffset(i, 2) then DataNode(i, 2)
       else if j == ColumnOffset(i, 3) then DataNode(i, 3)
       else Null)
  {
    OffsetBands(i, 0);
    OffsetBands(i, 1);
    OffsetBands(i, 2);
    OffsetBands(i, 3);
  }

  /** A non-null entry of row i in column j is the node of row i whose column is j; and a node
      of row i whose column is j is that entry. */
  lemma EntryFacts(i: int, j: int)
    requires 0 <= i < MaxRows && 0 <= j < MaxCols
    ensures var e := MatrixEntry(i, j);
      e != Null ==> IsData(e) && RowOf(e) == i && ColOf(e) == j + 1
    ensures forall x | IsData(x) && RowOf(x) == i && ColOf(x) == j + 1 :: MatrixEntry(i, j) == x
  {
    var k := j / 81;
    OffsetBands(i, k);
    if MatrixEntry(i, j) != Null {
      DataNodeFacts(i, k);
    }
    forall x | IsData(x) && RowOf(x) == i && ColOf(x) == j + 1
      ensures MatrixEntry(i, j) == x
    {
      DataNodeOf(x);
      OffsetBands(i, FamilyOf(x));
      assert FamilyOf(x) == k;
    }
  }

  /** How many of row i's entries lie in the columns before j: the length of the constructor's
      row buffer once it has scanned those columns (grid.cpp:78-85). */
  function Found(i: int, j: int): (n: int)
    requires 0 <= i < MaxRows
    ensures 0 <= n <= 4
  {
    (if ColumnOffset(i, 0) < j then 1 else 0) + (if ColumnOffset(i, 1) < j then 1 else 0) +
    (if ColumnOffset(i, 2) < j then 1 else 0) + (if ColumnOffset(i, 3) < j then 1 else 0)
  }

  /** Scanning row i left to right meets its nodes in family order: the entry found at column
      j, when there is one, is the node of the next family. */
  lemma FoundStep(i: int, j: int)
    requires 0 <= i < MaxRows && 0 <= j < MaxCols
    ensures Found(i, 0) == 0 && Found(i, MaxCols) == 4
    ensures MatrixEntry(i, j) != Null ==>
      Found(i, j) < 4 && MatrixEntry(i, j) == DataNode(i, Found(i, j)) &&
      Found(i, j + 1) == Found(i, j) + 1
    ensures MatrixEntry(i, j) == Null ==> Found(i, j + 1) == Found(i, j)
  {
    RowEntries(i);
    OffsetBands(i, 0);
    OffsetBands(i, 1);
    OffsetBands(i, 2);
    OffsetBands(i, 3);
  }

  /** The data nodes of matrix column j in the rows before n, top to bottom: what the
      constructor's column buffer holds after its first n rows (grid.cpp:113-123). */
  function Members(j: int, n: nat): seq<int>
    requires 0 <= j < MaxCols && n <= MaxRows
  {
    if n == 0 then []
    else Members(j, n - 1) + (if MatrixEntry(n - 1, j) != Null then [MatrixEntry(n - 1, j)] else [])
  }

  /** Members holds data nodes of column j from the rows before n, in increasing row order. */
  lemma {:induction false} MembersOrdered(j: int, n: nat)
    requires 0 <= j < MaxCols && n <= MaxRows
    ensures var M := Members(j, n);
      |M| <= n &&
      (forall a | 0 <= a < |M| :: IsData(M[a]) && ColOf(M[a]) == j + 1 && RowOf(M[a]) < n) &&
      (forall a, b | 0 <= a < b < |M| :: RowOf(M[a]) < RowOf(M[b]))
  {
    if n > 0 {
      MembersOrdered(j, n - 1);
      EntryFacts(n - 1, j);
    }
  }

  /** Every data node of column j in the rows before n is among the members. */
  lemma {:induction false} MembersComplete(j: int, n: nat)
    requires 0 <= j < MaxCols && n <= MaxRows
    ensures forall x | IsData(x) && ColOf(x) == j + 1 && RowOf(x) < n :: x in Members(j, n)
  {
    if n > 0 {
      MembersComplete(j, n - 1);
      EntryFacts(n - 1, j);
    }
  }

  /** Members lists exactly the data nodes of column j in the rows before n, each once, in
      increasing row order. */
  lemma MembersFacts(j: int, n: nat)
    requires 0 <= j < MaxCols && n <= MaxRows
    ensures var M := Members(j, n);
      |M| <= n &&
      (forall a | 0 <= a < |M| :: IsData(M[a]) && ColOf(M[a]) == j + 1 && RowOf(M[a]) < n) &&
      (forall a, b | 0 <= a < b < |M| :: RowOf(M[a]) < RowOf(M[b])) &&
      (forall x | IsData(x) && ColOf(x) == j + 1 && RowOf(x) < n :: x in M)
  {
    MembersOrdered(j, n);
    MembersComplete(j, n);
  }

  /** Members are distinct data nodes, none of them a column node. */
  lemma MembersDistinct(j: int, n: nat)
    requires 0 <= j < MaxCols && n <= MaxRows
    ensures Distinct(Members(j, n)) && j + 1 !in Members(j, n)
    ensures forall a | 0 <= a < |Members(j, n)| :: IsData(Members(j, n)[a])
  {
    MembersFacts(j, n);
  }

  /** The parts of matrix row 81 R + 9 C + d are R, C and d. */
  lemma PartsOf(R: int, C: int, d: int)
    requires 0 <= R < 9 && 0 <= C < 9 && 0 <= d < 9
    ensures var i := 81 * R + 9 * C + d;
      0 <= i < MaxRows && RowPart(i) == R && ColPart(i) == C && DigitPart(i) == d
  {
    var i := 81 * R + 9 * C + d;
    ColumnMeaning(i);
  }

  /** Matrix row i = 81 R + 9 C + d and its four offsets, in terms of R, C and d. */
  lemma OffsetsOf(R: int, C: int, d: int) returns (i: int)
    requires 0 <= R < 9 && 0 <= C < 9 && 0 <= d < 9
    ensures i == 81 * R + 9 * C + d && 0 <= i < MaxRows
    ensures ColumnOffset(i, 0) == 9 * R + C && ColumnOffset(i, 1) == 81 + 9 * R + d
    ensures ColumnOffset(i, 2) == 162 + 9 * C + d && ColumnOffset(i, 3) == 243 + 9 * Box(R, C) + d
  {
    i := 81 * R + 9 * C + d;
    PartsOf(R, C, d);
    ColumnMeaning(i);
  }

  /** Cell e of box b, counted row by row, is (3 (b / 3) + e / 3, 3 (b % 3) + e % 3). */
  lemma BoxCell(b: int, e: int)
    requires 0 <= b < 9 && 0 <= e < 9
    ensures var R, C := 3 * (b / 3) + e / 3, 3 * (b % 3) + e % 3;
      0 <= R < 9 && 0 <= C < 9 && Box(R, C) == b
  {
    var p, q, u, v := b / 3, b % 3, e / 3, e % 3;
    assert 0 <= p < 3 && 0 <= q < 3 && 0 <= u < 3 && 0 <= v < 3 && b == 3 * p + q;
    assert (3 * p + u) / 3 == p && (3 * q + v) / 3 == q;
  }

  /** The box of cell (R, C) is box-row R / 3, box-column C / 3. */
  lemma BoxParts(R: int, C: int)
    requires 0 <= R < 9 && 0 <= C < 9
    ensures 0 <= Box(R, C) < 9 && Box(R, C) / 3 == R / 3 && Box(R, C) % 3 == C / 3
  {
  }

  /** The e-th matrix row, top to bottom, whose family-k offset is 81 k + 9 b + d: the nine
      rows of column 81 k + 9 b + d vary the digit (k = 0), the grid column (k = 1), the grid
      row (k = 2) or the cell within box b (k = 3). */
  function Hit(k: int, b: int, d: int, e: int): int
  {
    if k == 0 then 81 * b + 9 * d + e
    else if k == 1 then 81 * b + 9 * e + d
    else if k == 2 then 81 * e + 9 * b + d
    else 81 * (3 * (b / 3) + e / 3) + 9 * (3 * (b % 3) + e % 3) + d
  }

  /** Each of the nine hits is a matrix row with the required offset. */
  lemma HitIn(k: int, b: int, d: int, e: int) returns (i: int)
    requires 0 <= k < 4 && 0 <= b < 9 && 0 <= d < 9 && 0 <= e < 9
    ensures i == Hit(k, b, d, e) && 0 <= i < MaxRows && ColumnOffset(i, k) == 81 * k + 9 * b + d
  {
    if k == 0 {
      i := OffsetsOf(b, d, e);
      assert ColumnOffset(i, 0) == 9 * b + d;
    } else if k == 1 {
      i := OffsetsOf(b, e, d);
      assert ColumnOffset(i, 1) == 81 + 9 * b + d;
    } else if k == 2 {
      i := OffsetsOf(e, b, d);
      assert ColumnOffset(i, 2) == 162 + 9 * b + d;
    } else {
      BoxCell(b, e);
      i := OffsetsOf(3 * (b / 3) + e / 3, 3 * (b % 3) + e % 3, d);
      assert ColumnOffset(i, 3) == 243 + 9 * b + d;
    }
  }

  /** Every matrix row with family-k offset 81 k + 9 b + d is one of the nine hits. */
  lemma HitOnly(k: int, b: int, d: int, i: int) returns (e: int)
    requires 0 <= k < 4 && 0 <= b < 9 && 0 <= d < 9 && 0 <= i < MaxRows
    requires ColumnOffset(i, k) == 81 * k + 9 * b + d
    ensures 0 <= e < 9 && i == Hit(k, b, d, e)
  {
    ColumnMeaning(i);
    var R, C, D := RowPart(i), ColPart(i), DigitPart(i);
    if k == 0 {
      assert R == b && C == d;
      e := D;
    } else if k == 1 {
      assert R == b && D == d;
      e := C;
    } else if k == 2 {
      assert C == b && D == d;
      e := R;
    } else {
      assert Box(R, C) == b && D == d;
      BoxParts(R, C);
      e := 3 * (R % 3) + C % 3;
      assert e / 3 == R % 3 && e % 3 == C % 3;
    }
  }

  /** The hits are in increasing order. */
  lemma HitsOrdered(k: int, b: int, d: int, e: int, e': int)
    requires 0 <= k < 4 && 0 <= b < 9 && 0 <= d < 9 && 0 <= e < e' < 9
    ensures Hit(k, b, d, e) < Hit(k, b, d, e')
  {
    if k == 3 && e / 3 < e' / 3 {
      assert 81 * (e / 3) + 9 * (e % 3) < 81 * (e' / 3);
    }
  }

  /** Column j's list as the nine nodes of its hits, top to bottom. */
  function ColumnHits(j: int): (H: seq<int>)
    requires 0 <= j < MaxCols
    ensures |H| == 9
  {
    var k, t := j / 81, j % 81;
    seq(9, e requires 0 <= e < 9 => DataNode(Hit(k, t / 9, t % 9, e), k))
  }

  /** A strictly increasing sequence has as many distinct elements as it has entries. */
  lemma {:induction false} SortedCard(p: seq<int>)
    requires forall a, b | 0 <= a < b < |p| :: p[a] < p[b]
    ensures |set x | x in p| == |p|
    decreases |p|
  {
    if p != [] {
      var t := p[1..];
      assert forall a | 0 <= a < |t| :: t[a] == p[a + 1];
      SortedCard(t);
      assert (set x | x in p) == {p[0]} + (set x | x in t);
    }
  }

  /** Two strictly increasing sequences of one length with the same elements are equal. */
  lemma {:induction false} SortedEqual(p: seq<int>, q: seq<int>)
    requires forall a, b | 0 <= a < b < |p| :: p[a] < p[b]
    requires forall a, b | 0 <= a < b < |q| :: q[a] < q[b]
    requires |p| == |q| && forall x :: x in p <==> x in q
    ensures p == q
    decreases |p|
  {
    if p != [] {
      assert p[0] in p && q[0] in q;
      var a :| 0 <= a < |q| && q[a] == p[0];
      var c :| 0 <= c < |p| && p[c] == q[0];
      assert q[0] <= q[a] && p[0] <= p[c];
      forall x
        ensures x in p[1..] <==> x in q[1..]
      {
        assert x in p[1..] <==> x in p && x != p[0];
        assert x in q[1..] <==> x in q && x != q[0];
      }
      SortedEqual(p[1..], q[1..]);
      assert p == [p[0]] + p[1..] && q == [q[0]] + q[1..];
    }
  }

  /** Two strictly increasing sequences with the same elements are the same sequence. */
  lemma SortedUnique(p: seq<int>, q: seq<int>)
    requires forall a, b | 0 <= a < b < |p| :: p[a] < p[b]
    requires forall a, b | 0 <= a < b < |q| :: q[a] < q[b]
    requires forall x :: x in p <==> x in q
    ensures p == q
  {
    SortedCard(p);
    SortedCard(q);
    assert (set x | x in p) == (set x | x in q);
    SortedEqual(p, q);
  }

  /** The nodes of column j's hits are data nodes of column j, in increasing order. */
  lemma HitsFacts(j: int)
    requires 0 <= j < MaxCols
    ensures var H := ColumnHits(j);
      (forall e | 0 <= e < 9 :: IsData(H[e]) && ColOf(H[e]) == j + 1) &&
      (forall a, b | 0 <= a < b < 9 :: H[a] < H[b])
  {
    var k, t := j / 81, j % 81;
    var H := ColumnHits(j);
    forall e | 0 <= e < 9
      ensures IsData(H[e]) && ColOf(H[e]) == j + 1
    {
      var i := HitIn(k, t / 9, t % 9, e);
      DataNodeFacts(i, k);
    }
    forall a, b | 0 <= a < b < 9
      ensures H[a] < H[b]
    {
      HitsOrdered(k, t / 9, t % 9, a, b);
    }
  }

  /** After the constructor's scan, column j's list is exactly the nodes of its nine hits: every
      column of the built matrix has nine entries. */
  lemma ColumnCensus(j: int)
    requires 0 <= j < MaxCols
    ensures Members(j, MaxRows) == ColumnHits(j) && |Members(j, MaxRows)| == 9
  {
    var k, t := j / 81, j % 81;
    var M, H := Members(j, MaxRows), ColumnHits(j);
    MembersFacts(j, MaxRows);
    HitsFacts(j);
    forall a, b | 0 <= a < b < |M|
      ensures M[a] < M[b]
    {
      DataNodeOf(M[a]);
      DataNodeOf(M[b]);
    }
    forall x
      ensures x in M <==> x in H
    {
      if x in M {
        DataNodeOf(x);
        var i, f := RowOf(x), FamilyOf(x);
        OffsetBands(i, f);
        assert f == k;
        var e := HitOnly(k, t / 9, t % 9, i);
        assert x == H[e];
      }
      if x in H {
        var e :| 0 <= e < 9 && H[e] == x;
        DataNodeOf(x);
      }
    }
    SortedUnique(M, H);
  }

  /** The four nodes of matrix row i occupy a block of four slots. */
  lemma RowBlock(i: int)
    requires 0 <= i < MaxRows
    ensures forall x | DataBase + 4 * i <= x < DataBase + 4 * i + 4 ::
      IsData(x) && RowOf(x) == i && x == DataNode(i, x - DataBase - 4 * i)
  {
    forall x | DataBase + 4 * i <= x < DataBase + 4 * i + 4
      ensures RowOf(x) == i
    {
      DataNodeFacts(i, x - DataBase - 4 * i);
    }
  }

  /** The abstraction the constructor starts the solver from: every column's list is its
      members, and every column is live, in order. */
  function InitialLists(): (lists: seq<seq<int>>)
    ensures |lists| == MaxCols + 1
  {
    seq(MaxCols + 1, c requires 0 <= c <= MaxCols => if c == 0 then [] else Members(c - 1, MaxRows))
  }

  function AllColumns(): (ring: seq<int>)
    ensures |ring| == MaxCols
  {
    seq(MaxCols, k requires 0 <= k < MaxCols => k + 1)
  }

  /** Column c's vertical ring runs through its members, and its size counts them. */
  ghost predicate ColumnBuilt(s: Store, c: int)
    requires IsColumn(c)
  {
    var L := Members(c - 1, MaxRows);
    Ring(Vertical(s), c, L) && |s.size| == MaxCols + 1 && s.size[c] == |L|
  }

  /** Every member of column j is a data node of column j. */
  lemma {:induction false} MembersIn(j: int, n: nat)
    requires 0 <= j < MaxCols && n <= MaxRows
    ensures forall x | x in Members(j, n) :: IsData(x) && ColOf(x) == j + 1
  {
    if n > 0 {
      MembersIn(j, n - 1);
      EntryFacts(n - 1, j);
    }
  }

  /** Two different columns share no member, and no column node is a member. */
  lemma MembersApart(j: int, c: int)
    requires 0 <= j < MaxCols && IsColumn(c) && c != j + 1
    ensures c !in Members(j, MaxRows)
    ensures forall x | x in Members(c - 1, MaxRows) :: x !in Members(j, MaxRows) && x != j + 1
  {
    MembersIn(c - 1, MaxRows);
    MembersIn(j, MaxRows);
  }

  /** Linking column j's ring leaves the ring of every other column c as it was, for it only
      touches column j's own node and members. */
  lemma KeepColumn(s: Store, t: Store, c: int, j: int)
    requires IsColumn(c) && 0 <= j < MaxCols && c != j + 1 && ColumnBuilt(s, c)
    requires |t.up| == |s.up| && |t.down| == |s.down| && |t.size| == |s.size| && t.size[c] == s.size[c]
    requires forall y | 0 <= y < |s.down| && y != j + 1 && y !in Members(j, MaxRows) ::
      t.up[y] == s.up[y] && t.down[y] == s.down[y]
    ensures ColumnBuilt(t, c)
  {
    var L := Members(c - 1, MaxRows);
    MembersApart(j, c);
    assert Ring(Vertical(s), c, L);
    forall k | 0 <= k < |L|
      ensures t.down[L[k]] == s.down[L[k]] && t.up[L[k]] == s.up[L[k]]
    {
      assert L[k] in L;
    }
    RingFrame(Vertical(s), Vertical(t), c, L);
  }

  /** Linking column j keeps every column linked before it. */
  lemma KeepColumns(s: Store, t: Store, j: int)
    requires 0 <= j < MaxCols && forall c | 1 <= c <= j :: ColumnBuilt(s, c)
    requires |s.up| == |s.down| && |s.size| == MaxCols + 1
    requires |t.up| == |s.up| && |t.down| == |s.down| && |t.size| == |s.size|
    requires forall c | 1 <= c <= j :: t.size[c] == s.size[c]
    requires forall y | 0 <= y < |s.down| && y != j + 1 && y !in Members(j, MaxRows) ::
      t.up[y] == s.up[y] && t.down[y] == s.down[y]
    ensures forall c | 1 <= c <= j :: ColumnBuilt(t, c)
  {
    forall c | 1 <= c <= j
      ensures ColumnBuilt(t, c)
    {
      KeepColumn(s, t, c, j);
    }
  }

  /** The constructor's buffer for column j, the column node followed by its members, holds
      at least two distinct nodes of the store. */
  lemma ColumnNodes(j: int)
    requires 0 <= j < MaxCols
    ensures var B := [j + 1] + Members(j, MaxRows);
      2 <= |B| <= MaxRows + 1 && Distinct(B) && B[1..] == Members(j, MaxRows) &&
      forall t | 0 <= t < |B| :: 0 <= B[t] < NodeCount
  {
    var L := Members(j, MaxRows);
    var B := [j + 1] + L;
    MembersDistinct(j, MaxRows);
    ColumnCensus(j);
    forall a, b | 0 <= a < b < |B|
      ensures B[a] != B[b]
    {
      assert B[b] == L[b - 1];
      if a > 0 {
        assert B[a] == L[a - 1];
      }
    }
    forall t | 0 <= t < |B|
      ensures 0 <= B[t] < NodeCount
    {
      if t > 0 {
        assert B[t] == L[t - 1];
      }
    }
  }

  /** The store the constructor leaves: the fixed fields in place, the columns linked in order
      from the header, and every column's vertical ring through its members. */
  ghost predicate Built(s: Store)
  {
    Static(s) && s.right[Header] == 1 && s.left[Header] == MaxCols &&
    (forall c | IsColumn(c) ::
      s.left[c] == (if c == 1 then Header else c - 1) &&
      s.right[c] == (if c == MaxCols then Header else c + 1)) &&
    (forall c | IsColumn(c) :: ColumnBuilt(s, c))
  }

  /** Every column of the built store has size nine. */
  lemma BuiltSizes(s: Store)
    requires Built(s)
    ensures forall c | IsColumn(c) :: s.size[c] == 9
  {
    forall c | IsColumn(c)
      ensures s.size[c] == 9
    {
      ColumnCensus(c - 1);
    }
  }

  lemma BuiltRing(s: Store)
    requires Built(s)
    ensures ColumnRing(s, AllColumns())
  {
    var A := AllColumns();
    assert forall k | 0 <= k < |A| :: A[k] == k + 1;
    assert Ring(Horizontal(s), Header, A);
  }

  lemma BuiltLists(s: Store)
    requires Built(s)
    ensures Lists(s, InitialLists())
  {
    var lists := InitialLists();
    forall c | 1 <= c <= MaxCols
      ensures ColumnList(s, lists, c)
    {
      assert ColumnBuilt(s, c);
      MembersFacts(c - 1, MaxRows);
    }
  }

  /** Every data node is live once every column holds its full list. */
  lemma InitialLive(y: int)
    requires IsData(y)
    ensures Live(InitialLists(), AllColumns(), y)
  {
    var lists, A := InitialLists(), AllColumns();
    var c := ColOf(y);
    MembersComplete(c - 1, MaxRows);
    DataNodeOf(y);
    assert A[c - 1] == c;
  }

  /** With every column live and holding its full list, every row is whole. */
  lemma InitialClosed()
    ensures Closed(InitialLists(), AllColumns())
  {
    var lists, A := InitialLists(), AllColumns();
    forall c, k | c in A && 1 <= c <= MaxCols && 0 <= k < |lists[c]| && IsData(lists[c][k])
      ensures RowWhole(lists, A, lists[c][k])
    {
      var y := lists[c][k];
      RowStepFacts(y, 1);
      RowStepFacts(y, 2);
      RowStepFacts(y, 3);
      InitialLive(RowStep(y, 1));
      InitialLive(RowStep(y, 2));
      InitialLive(RowStep(y, 3));
    }
  }

  /** The constructor's store is well formed for every column's full list and every column
      live: the state search starts from. */
  lemma BuiltWf(s: Store)
    requires Built(s)
    ensures Wf(s, InitialLists(), AllColumns())
  {
    BuiltRing(s);
    BuiltLists(s);
    InitialClosed();
  }
}
