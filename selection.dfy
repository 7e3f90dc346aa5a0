/** What coverClue and search do with a whole row of the matrix: cover the column of one of
    its nodes and then the columns of the other three, left to right (grid.cpp:246-252,
    205-218); and which column findSmallest chooses (grid.cpp:310-325). */
module Selection {
  import opened Encoding
  import opened Layout
  import opened Rings
  import opened Dlx

  /** The column of the node m steps right of d. */
  function RowCol(d: int, m: nat): (c: int)
    requires IsData(d)
    ensures IsColumn(c)
  {
    RowStepFacts(d, m);
    ColOf(RowStep(d, m))
  }

  /** The columns of the first m nodes of d's row, starting at d. */
  ghost function RowCols(d: int, m: nat): set<int>
    requires IsData(d)
  {
    set j | 0 <= j < m :: RowCol(d, j)
  }

  /** The frame after the columns of the first m nodes of d's row have been covered, d's own
      column first. */
  ghost function CoverRow(f: Frame, d: int, m: nat): Frame
    requires IsData(d) && m <= 4
  {
    if m == 0 then f
    else
      var g, c := CoverRow(f, d, m - 1), RowCol(d, m - 1);
      if c < |g.lists| then CoverFrame(g, c) else g
  }

  /** The frame reached from f by covering, in turn, the whole row of each node of ds: the
      state a solution found by search leaves behind, one picked row after another. */
  ghost function PickedRows(f: Frame, ds: seq<int>): Frame
    requires forall i | 0 <= i < |ds| :: IsData(ds[i])
    decreases |ds|
  {
    if ds == [] then f else PickedRows(CoverRow(f, ds[0], 4), ds[1..])
  }

  /** A listed node of a live column is live. */
  lemma ListedLive(s: Store, lists: seq<seq<int>>, ring: seq<int>, c: int, a: int)
    requires Wf(s, lists, ring) && c in ring && 0 <= a < |lists[c]|
    ensures Live(lists, ring, lists[c][a])
  {
    assert IsColumn(c);
    assert ColumnList(s, lists, c);
  }

  /** The four columns of a live node's row are live and distinct. */
  lemma RowColumnsLive(s: Store, lists: seq<seq<int>>, ring: seq<int>, d: int)
    requires Wf(s, lists, ring) && Live(lists, ring, d)
    ensures forall j | 0 <= j < 4 :: RowCol(d, j) in ring
    ensures forall i, j | 0 <= i < j < 4 :: RowCol(d, i) != RowCol(d, j)
  {
    var c := ColOf(d);
    var a := IndexOf(lists[c], d);
    RowStepFacts(d, 0);
    forall m | 1 <= m <= 3
      ensures RowCol(d, m) in ring
    {
      ClosedAt(lists, ring, c, a, m);
    }
    forall i, j | 0 <= i < j < 4
      ensures RowCol(d, i) != RowCol(d, j)
    {
      RowStepFacts(d, i);
      RowStepFacts(d, j);
      ColumnsOfRowDistinct(RowStep(d, i), RowStep(d, j));
      if RowStep(d, i) == RowStep(d, j) {
        StepsDistinct(d, i, j);
      }
    }
  }

  /** Covering the first m columns of a live node's row, one after the other, keeps the frame
      well formed; each cover takes exactly its column out of the ring, and the columns still
      to come stay live. */
  lemma {:induction false} CoverRowAt(f: Frame, d: int, m: nat)
    requires Wf(f.s, f.lists, f.ring) && Live(f.lists, f.ring, d) && m <= 4
    ensures var g := CoverRow(f, d, m);
      Wf(g.s, g.lists, g.ring) && |g.ring| == |f.ring| - m &&
      (forall x :: x in g.ring <==> x in f.ring && x !in RowCols(d, m)) &&
      (forall j | m <= j < 4 :: RowCol(d, j) in g.ring)
  {
    RowColumnsLive(f.s, f.lists, f.ring, d);
    if m > 0 {
      CoverRowAt(f, d, m - 1);
      var g, c := CoverRow(f, d, m - 1), RowCol(d, m - 1);
      assert c in g.ring;
      CoverWf(g.s, g.lists, g.ring, c);
      RemoveMembers(g.ring, c);
      RemoveLength(g.ring, c);
      assert RowCols(d, m) == RowCols(d, m - 1) + {c};
    }
  }

  /** Covering all four columns of a live row takes exactly those four out of the ring. */
  lemma CoverWholeRow(f: Frame, d: int)
    requires Wf(f.s, f.lists, f.ring) && Live(f.lists, f.ring, d)
    ensures var g := CoverRow(f, d, 4);
      Wf(g.s, g.lists, g.ring) && |g.ring| == |f.ring| - 4 &&
      forall x :: x in g.ring <==> x in f.ring && x !in RowCols(d, 4)
  {
    CoverRowAt(f, d, 4);
  }

  /** What each pass of coverClue's row walk relies on: the m-th node of d's row hangs from
      the live column RowCol(d, m) of the frame reached so far, and covering that column gives
      the next frame. */
  lemma RowWalk(f: Frame, d: int, m: nat)
    requires Wf(f.s, f.lists, f.ring) && Live(f.lists, f.ring, d) && m < 4
    ensures var g, c, x := CoverRow(f, d, m), RowCol(d, m), RowStep(d, m);
      Wf(g.s, g.lists, g.ring) && c in g.ring && IsData(x) && 0 <= x < |g.s.col| &&
      g.s.col[x] == c && Covers(g, c, CoverRow(f, d, m + 1))
  {
    CoverRowAt(f, d, m);
    RowStepFacts(d, m);
  }

  /** The right link of the m-th node of d's row, which covering never changes, leads to the
      next node of the row, or back to d after the fourth. */
  lemma RowNext(s: Store, d: int, m: nat)
    requires Static(s) && IsData(d) && m < 4
    ensures RowStep(d, 0) == d
    ensures var x := RowStep(d, m);
      0 <= x < |s.right| && s.right[x] == (if m < 3 then RowStep(d, m + 1) else d) &&
      (m < 3 ==> RowStep(d, m + 1) != d)
  {
    RowStepFacts(d, m);
    RowStepFacts(d, 0);
    if m < 3 {
      RowStepNotSelf(d, m + 1);
    }
  }

  /** The j-th node of d's row hangs from column RowCol(d, j) in every well-shaped state. */
  lemma RowColAt(s: Store, d: int, j: nat)
    requires Static(s) && IsData(d)
    ensures var x := RowStep(d, j); 0 <= x < |s.col| && s.col[x] == RowCol(d, j)
  {
    RowStepFacts(d, j);
  }

  /** The left link of the j-th node of d's row leads to the node before it: from d to the
      fourth node, and from the second back to d. */
  lemma RowPrev(s: Store, d: int, j: nat)
    requires Static(s) && IsData(d) && j < 4
    ensures RowStep(d, 0) == d && RowStep(d, 3) != d
    ensures var x := RowStep(d, j);
      0 <= x < |s.left| &&
      s.left[x] == (if j == 0 then RowStep(d, 3) else if j > 1 then RowStep(d, j - 1) else d) &&
      (j > 1 ==> RowStep(d, j - 1) != d)
  {
    RowStepFacts(d, j);
    RowStepFacts(d, 0);
    RowStepNotSelf(d, 3);
    if j > 1 {
      RowStepNotSelf(d, j - 1);
    }
  }

  /** search tries the rows of the column c it covers: the a-th node d of c's list is live,
      its row's first column is c, so covering c is the first step of covering d's row, and
      covering the whole row takes four columns out of the ring. */
  lemma ColumnRow(f: Frame, c: int, a: int)
    requires Wf(f.s, f.lists, f.ring) && c in f.ring && 0 <= a < |f.lists[c]|
    ensures var d := f.lists[c][a];
      Live(f.lists, f.ring, d) && RowCol(d, 0) == c && CoverRow(f, d, 1) == CoverFrame(f, c) &&
      |CoverFrame(f, c).ring| == |f.ring| - 1 && |CoverRow(f, d, 4).ring| == |f.ring| - 4
  {
    var d := f.lists[c][a];
    ListedLive(f.s, f.lists, f.ring, c, a);
    assert IsColumn(c) && ColumnList(f.s, f.lists, c);
    RowStepFacts(d, 0);
    CoverRowAt(f, d, 1);
    CoverRowAt(f, d, 4);
  }

  /** Covering c leaves c's own vertical ring alone: search walks down it through c's list,
      from c's down link back to c. */
  lemma ColumnWalk(f: Frame, c: int, a: int)
    requires Wf(f.s, f.lists, f.ring) && c in f.ring && -1 <= a < |f.lists[c]|
    ensures var g, L := CoverFrame(f, c), f.lists[c];
      Wf(g.s, g.lists, g.ring) && IsColumn(c) && |g.s.down| == NodeCount &&
      (a == -1 ==> g.s.down[c] == if L == [] then c else L[0]) &&
      (0 <= a ==> 0 <= L[a] < NodeCount && L[a] != c && g.s.down[L[a]] == After(L, c, a))
  {
    var g, L := CoverFrame(f, c), f.lists[c];
    CoverWf(f.s, f.lists, f.ring, c);
    assert IsColumn(c) && ColumnList(f.s, f.lists, c);
    WfColumns(f.s, f.lists, f.ring);
    CoverListsKeep(f.lists, c);
    assert g.lists[c] == L;
    assert ColumnList(g.s, g.lists, c);
    assert Ring(Vertical(g.s), c, L);
    if 0 <= a {
      assert Vertical(g.s).succ[L[a]] == After(L, c, a);
    }
  }

  /** The walk along the column ring from the header: it starts at the first live column,
      each live column's size is the length of its list, and its right link leads to the next
      live column, or back to the header after the last. */
  lemma RingWalk(s: Store, lists: seq<seq<int>>, ring: seq<int>, k: int)
    requires Wf(s, lists, ring) && -1 <= k < |ring|
    ensures forall j | 0 <= j < |ring| :: IsColumn(ring[j])
    ensures k == -1 ==> s.right[Header] == if ring == [] then Header else ring[0]
    ensures 0 <= k ==>
      s.size[ring[k]] == |lists[ring[k]]| <= MaxRows &&
      s.right[ring[k]] == (if k + 1 < |ring| then ring[k + 1] else Header)
  {
    assert Ring(Horizontal(s), Header, ring);
    if 0 <= k {
      assert ColumnList(s, lists, ring[k]);
      assert s.right[ring[k]] == After(ring, Header, k);
    }
  }

  /** findSmallest's choice: position k of the ring holds a column whose list is no longer
      than that of any live column, and every column before it has a longer list. */
  ghost predicate FirstSmallest(lists: seq<seq<int>>, ring: seq<int>, k: int)
    requires forall j | 0 <= j < |ring| :: 0 <= ring[j] < |lists|
  {
    0 <= k < |ring| &&
    (forall j | 0 <= j < |ring| :: |lists[ring[k]]| <= |lists[ring[j]]|) &&
    (forall j | 0 <= j < k :: |lists[ring[k]]| < |lists[ring[j]]|)
  }
}
