/** The dancing-links state of grid.cpp as a value, and what coverCol and uncoverCol do to it.
    A store is well formed (Wf) for an abstraction made of
      - `lists`: for every column node c, the data nodes currently in c's vertical list, top
        to bottom (index 0 belongs to the header and is unused), and
      - `ring`: the live columns in ring order (the ring through grid.h's `header`);
    the links of every list and of the ring agree with the abstraction, every column's `size`
    counts its list, and the rows of every live column are whole: each of their other three
    nodes is still in its own column's list, and that column is live. */
module Dlx {
  import opened Encoding
  import opened Layout
  import opened Rings

  /** The fields of grid.h's `data` and `column` records, one sequence per field, indexed by
      node; `size` exists for the header and the columns only. */
  datatype Store = Store(left: seq<int>, right: seq<int>, up: seq<int>, down: seq<int>,
                         col: seq<int>, row: seq<int>, size: seq<int>)

  function Vertical(s: Store): Links { Links(s.down, s.up) }
  function Horizontal(s: Store): Links { Links(s.right, s.left) }

  ghost predicate Shaped(s: Store)
  {
    |s.left| == NodeCount && |s.right| == NodeCount && |s.up| == NodeCount && |s.down| == NodeCount &&
    |s.col| == NodeCount && |s.row| == NodeCount && |s.size| == MaxCols + 1
  }

  /** The fields that never change once the matrix is built: the row rings (grid.cpp:73-104),
      the `col` and `row` of every data node (grid.cpp:119, 338-345) and the `col` of every
      column (grid.cpp:60). */
  ghost predicate Static(s: Store)
  {
    Shaped(s) &&
    (forall x | DataBase <= x < NodeCount :: s.right[x] == RowStep(x, 1)) &&
    (forall x | DataBase <= x < NodeCount :: s.left[x] == RowStep(x, 3)) &&
    (forall x | DataBase <= x < NodeCount :: s.col[x] == ColOf(x)) &&
    (forall x | DataBase <= x < NodeCount :: s.row[x] == RowOf(x)) &&
    (forall c | 1 <= c <= MaxCols :: s.col[c] == c)
  }

  /** Column c's vertical ring runs through exactly lists[c], all of whose nodes are data nodes
      of column c, and its size counts them. */
  ghost predicate ColumnList(s: Store, lists: seq<seq<int>>, c: int)
    requires Shaped(s) && |lists| == MaxCols + 1 && IsColumn(c)
  {
    Ring(Vertical(s), c, lists[c]) && s.size[c] == |lists[c]| && |lists[c]| <= MaxRows &&
    forall k | 0 <= k < |lists[c]| :: IsData(lists[c][k]) && s.col[lists[c][k]] == c
  }

  ghost predicate Lists(s: Store, lists: seq<seq<int>>)
  {
    Shaped(s) && |lists| == MaxCols + 1 &&
    forall c | 1 <= c <= MaxCols :: ColumnList(s, lists, c)
  }

  /** The ring through the header holds exactly the columns of `ring`, in order. */
  ghost predicate ColumnRing(s: Store, ring: seq<int>)
  {
    Ring(Horizontal(s), Header, ring) && forall k | 0 <= k < |ring| :: IsColumn(ring[k])
  }

  /** Data node y sits in its own column's list and that column is live. */
  ghost predicate Live(lists: seq<seq<int>>, ring: seq<int>, y: int)
    requires |lists| == MaxCols + 1
  {
    IsData(y) && ColOf(y) in ring && y in lists[ColOf(y)]
  }

  /** The three other nodes of y's row are live. */
  ghost predicate RowWhole(lists: seq<seq<int>>, ring: seq<int>, y: int)
    requires |lists| == MaxCols + 1
  {
    Live(lists, ring, RowStep(y, 1)) && Live(lists, ring, RowStep(y, 2)) && Live(lists, ring, RowStep(y, 3))
  }

  /** Every row met in a live column is whole. */
  ghost predicate Closed(lists: seq<seq<int>>, ring: seq<int>)
  {
    |lists| == MaxCols + 1 &&
    forall c, k {:trigger RowWhole(lists, ring, lists[c][k])} |
      c in ring && 1 <= c <= MaxCols && 0 <= k < |lists[c]| && IsData(lists[c][k]) ::
      RowWhole(lists, ring, lists[c][k])
  }

  ghost predicate Wf(s: Store, lists: seq<seq<int>>, ring: seq<int>)
  {
    Static(s) && Lists(s, lists) && ColumnRing(s, ring) && Closed(lists, ring)
  }

  /** L without any occurrence of x. */
  function Remove(L: seq<int>, x: int): (r: seq<int>)
    ensures |r| <= |L|
  {
    if L == [] then []
    else if L[0] == x then Remove(L[1..], x)
    else [L[0]] + Remove(L[1..], x)
  }

  lemma {:induction false} RemoveMembers(L: seq<int>, x: int)
    ensures forall y :: y in Remove(L, x) <==> y in L && y != x
  {
    if L != [] {
      RemoveMembers(L[1..], x);
      assert forall y :: y in L <==> y == L[0] || y in L[1..];
    }
  }

  lemma {:induction false} RemoveAbsent(L: seq<int>, x: int)
    requires x !in L
    ensures Remove(L, x) == L
  {
    if L != [] {
      RemoveAbsent(L[1..], x);
      assert L == [L[0]] + L[1..];
    }
  }

  lemma {:induction false} RemoveAt(L: seq<int>, k: int)
    requires Distinct(L) && 0 <= k < |L|
    ensures Remove(L, L[k]) == Without(L, k)
  {
    if k == 0 {
      assert L[0] !in L[1..];
      RemoveAbsent(L[1..], L[0]);
      assert Without(L, 0) == L[1..];
    } else {
      RemoveAt(L[1..], k - 1);
      assert Without(L, k) == [L[0]] + Without(L[1..], k - 1);
    }
  }

  /** x leaves whichever column list holds it. */
  function Delete(lists: seq<seq<int>>, x: int): (r: seq<seq<int>>)
    ensures |r| == |lists|
  {
    seq(|lists|, j requires 0 <= j < |lists| => Remove(lists[j], x))
  }

  predicate Linkable(s: Store, x: int)
  {
    |s.up| == |s.down| && 0 <= x < |s.down| && 0 <= s.up[x] < |s.down| && 0 <= s.down[x] < |s.down| &&
    x < |s.col| && 0 <= s.col[x] < |s.size|
  }

  /** One step of coverCol's inner loop (grid.cpp:273-275): take x out of its column's
      vertical ring and decrement that column's size. */
  function Unlink(s: Store, x: int): Store
  {
    if Linkable(s, x) then
      var v := Splice(Vertical(s), x);
      var c := s.col[x];
      s.(down := v.succ, up := v.pred, size := s.size[c := s.size[c] - 1])
    else s
  }

  /** One step of uncoverCol's inner loop (grid.cpp:296-298): put x back between the nodes its
      own up and down links name and increment its column's size. */
  function Relink(s: Store, x: int): Store
  {
    if Linkable(s, x) then
      var v := Restore(Vertical(s), x);
      var c := s.col[x];
      s.(down := v.succ, up := v.pred, size := s.size[c := s.size[c] + 1])
    else s
  }

  /** Only the vertical links and the sizes differ. */
  ghost predicate SameRows(s: Store, t: Store)
  {
    t.left == s.left && t.right == s.right && t.col == s.col && t.row == s.row
  }

  /** What one unlink step writes: x's two vertical neighbours and the size of x's column. */
  lemma UnlinkWrites(s: Store, lists: seq<seq<int>>, c: int, k: int)
    requires Lists(s, lists) && IsColumn(c) && 0 <= k < |lists[c]|
    ensures var x := lists[c][k]; Linkable(s, x) && s.col[x] == c
    ensures var x := lists[c][k]; s.up[x] == Before(lists[c], c, k) && s.down[x] == After(lists[c], c, k)
    ensures var x, u, L := lists[c][k], Unlink(s, lists[c][k]), lists[c];
      SameRows(s, u) &&
      u.down == s.down[Before(L, c, k) := After(L, c, k)] &&
      u.up == s.up[After(L, c, k) := Before(L, c, k)] &&
      u.size == s.size[c := s.size[c] - 1] &&
      Ring(Vertical(u), c, Without(L, k))
    ensures Relink(Unlink(s, lists[c][k]), lists[c][k]) == s
  {
    assert ColumnList(s, lists, c);
    SpliceRing(Vertical(s), c, lists[c], k);
    RestoreSplice(Vertical(s), c, lists[c], k);
  }

  lemma UnlinkOtherColumn(s: Store, lists: seq<seq<int>>, c: int, k: int, c': int)
    requires Lists(s, lists) && IsColumn(c) && 0 <= k < |lists[c]| && IsColumn(c') && c' != c
    ensures ColumnList(Unlink(s, lists[c][k]), Delete(lists, lists[c][k]), c')
  {
    UnlinkWrites(s, lists, c, k);
    var x, u, L := lists[c][k], Unlink(s, lists[c][k]), lists[c];
    assert ColumnList(s, lists, c);
    assert ColumnList(s, lists, c');
    var p, w := Before(L, c, k), After(L, c, k);
    assert p == c || p in L;
    assert w == c || w in L;
    assert x !in lists[c'];
    RemoveAbsent(lists[c'], x);
    assert Delete(lists, x)[c'] == lists[c'];
    forall q | 0 <= q < |lists[c']|
      ensures lists[c'][q] != p && lists[c'][q] != w
    {
      assert s.col[lists[c'][q]] == c';
    }
    RingFrame(Vertical(s), Vertical(u), c', lists[c']);
  }

  /** Unlinking a listed data node removes it from its list, keeps every list a ring with a
      correct size, leaves the horizontal links alone, and relinking it undoes the step. */
  lemma UnlinkStep(s: Store, lists: seq<seq<int>>, c: int, k: int)
    requires Lists(s, lists) && IsColumn(c) && 0 <= k < |lists[c]|
    ensures var x := lists[c][k];
      Linkable(s, x) && s.col[x] == c &&
      Lists(Unlink(s, x), Delete(lists, x)) &&
      SameRows(s, Unlink(s, x)) &&
      Relink(Unlink(s, x), x) == s
  {
    UnlinkWrites(s, lists, c, k);
    var x, u, L := lists[c][k], Unlink(s, lists[c][k]), lists[c];
    assert ColumnList(s, lists, c);
    RemoveAt(L, k);
    WithoutFacts(L, c, k);
    var lists' := Delete(lists, x);
    assert lists'[c] == Without(L, k);
    forall c' | 1 <= c' <= MaxCols
      ensures ColumnList(u, lists', c')
    {
      if c' == c {
        forall q | 0 <= q < |lists'[c]|
          ensures IsData(lists'[c][q]) && u.col[lists'[c][q]] == c
        {
          assert lists'[c][q] == if q < k then L[q] else L[q + 1];
        }
      } else {
        UnlinkOtherColumn(s, lists, c, k, c');
      }
    }
  }

  /** The nodes coverCol unlinks, in its order: the rows of the column top to bottom, and in
      each row the three other nodes from left to right (grid.cpp:267-278). */
  function CoverSeq(L: seq<int>): (r: seq<int>)
    ensures |r| == 3 * |L|
  {
    seq(3 * |L|, p requires 0 <= p < 3 * |L| => RowStep(L[p / 3], p % 3 + 1))
  }

  /** Step 3a + m - 1 of coverCol is the node m steps right of row a's node in the column. */
  lemma CoverSeqAt(L: seq<int>, a: int, m: int)
    requires 0 <= a < |L| && 1 <= m <= 3
    ensures CoverSeq(L)[3 * a + m - 1] == RowStep(L[a], m)
  {
    var p := 3 * a + m - 1;
    assert p / 3 == a && p % 3 == m - 1;
  }

  /** The nodes uncoverCol relinks, in its order: the rows bottom to top, and in each row the
      three other nodes from right to left (grid.cpp:290-301). */
  function UncoverSeq(L: seq<int>): (r: seq<int>)
    ensures |r| == 3 * |L|
  {
    seq(3 * |L|, p requires 0 <= p < 3 * |L| => RowStep(L[|L| - 1 - p / 3], 3 - p % 3))
  }

  function UnlinkAll(s: Store, xs: seq<int>): Store
  {
    if xs == [] then s else Unlink(UnlinkAll(s, xs[..|xs| - 1]), xs[|xs| - 1])
  }

  function RelinkAll(s: Store, xs: seq<int>): Store
  {
    if xs == [] then s else Relink(RelinkAll(s, xs[..|xs| - 1]), xs[|xs| - 1])
  }

  function DeleteAll(lists: seq<seq<int>>, xs: seq<int>): (r: seq<seq<int>>)
    ensures |r| == |lists|
  {
    if xs == [] then lists else Delete(DeleteAll(lists, xs[..|xs| - 1]), xs[|xs| - 1])
  }

  /** coverCol's first two statements (grid.cpp:265-266): take c out of the column ring. */
  function HSplice(s: Store, c: int): Store
  {
    if Spliceable(Horizontal(s), c) then
      var h := Splice(Horizontal(s), c); s.(right := h.succ, left := h.pred)
    else s
  }

  /** uncoverCol's last two statements (grid.cpp:303-304): put c back into the column ring. */
  function HRestore(s: Store, c: int): Store
  {
    if Spliceable(Horizontal(s), c) then
      var h := Restore(Horizontal(s), c); s.(right := h.succ, left := h.pred)
    else s
  }

  /** The store coverCol leaves behind when column c's list is L. */
  function CoverSpec(s: Store, L: seq<int>, c: int): Store
  {
    UnlinkAll(HSplice(s, c), CoverSeq(L))
  }

  /** The store uncoverCol leaves behind when column c's list is L. */
  function UncoverSpec(s: Store, L: seq<int>, c: int): Store
  {
    HRestore(RelinkAll(s, UncoverSeq(L)), c)
  }

  /** The column lists after column c is covered: every other node of every row of c is gone. */
  function CoverLists(lists: seq<seq<int>>, c: int): seq<seq<int>>
    requires 0 <= c < |lists|
  {
    DeleteAll(lists, CoverSeq(lists[c]))
  }

  /** The nodes of a column lie in distinct rows, since a row has one node per column. */
  ghost predicate ColumnOf(L: seq<int>, c: int)
  {
    Distinct(L) && forall a | 0 <= a < |L| :: IsData(L[a]) && ColOf(L[a]) == c
  }

  lemma CoverSeqOutside(L: seq<int>, c: int, p: int)
    requires ColumnOf(L, c) && 0 <= p < 3 * |L|
    ensures var x := CoverSeq(L)[p];
      IsData(x) && ColOf(x) != c && RowOf(x) == RowOf(L[p / 3]) && x != L[p / 3]
  {
    var d, m := L[p / 3], p % 3 + 1;
    RowStepFacts(d, m);
    RowStepFacts(d, 0);
    if RowStep(d, m) == d {
      StepsDistinct(d, m, 0);
    }
    ColumnsOfRowDistinct(d, RowStep(d, m));
  }

  lemma CoverSeqDistinct(L: seq<int>, c: int)
    requires ColumnOf(L, c)
    ensures Distinct(CoverSeq(L))
  {
    var S := CoverSeq(L);
    forall p, q | 0 <= p < q < |S|
      ensures S[p] != S[q]
    {
      var a, b := p / 3, q / 3;
      RowStepFacts(L[a], p % 3 + 1);
      RowStepFacts(L[b], q % 3 + 1);
      if S[p] == S[q] {
        ColumnsOfRowDistinct(L[a], L[b]);
        assert a == b;
        StepsDistinct(L[a], p % 3 + 1, q % 3 + 1);
        assert false;
      }
    }
  }

  /** Every node outside the column that shares a row with one of its nodes is unlinked. */
  lemma CoverSeqCovers(L: seq<int>, c: int, a: int, y: int)
    requires ColumnOf(L, c) && 0 <= a < |L| && IsData(y) && RowOf(y) == RowOf(L[a]) && y != L[a]
    ensures y in CoverSeq(L)
  {
    SameRowIsStep(L[a], y);
    var m := (FamilyOf(y) - FamilyOf(L[a]) + 4) % 4;
    assert CoverSeq(L)[3 * a + m - 1] == y;
  }

  lemma {:induction false} DeleteAllMembers(lists: seq<seq<int>>, xs: seq<int>, j: int)
    requires 0 <= j < |lists|
    ensures forall y :: y in DeleteAll(lists, xs)[j] <==> y in lists[j] && y !in xs
    decreases |xs|
  {
    if xs != [] {
      var ys, x := xs[..|xs| - 1], xs[|xs| - 1];
      DeleteAllMembers(lists, ys, j);
      RemoveMembers(DeleteAll(lists, ys)[j], x);
      assert xs == ys + [x];
    }
  }

  lemma {:induction false} DeleteAllKeeps(lists: seq<seq<int>>, xs: seq<int>, j: int)
    requires 0 <= j < |lists| && forall y | y in xs :: y !in lists[j]
    ensures DeleteAll(lists, xs)[j] == lists[j]
    decreases |xs|
  {
    if xs != [] {
      var ys, x := xs[..|xs| - 1], xs[|xs| - 1];
      assert forall y | y in ys :: y in xs;
      DeleteAllKeeps(lists, ys, j);
      RemoveAbsent(lists[j], x);
    }
  }

  /** The lists depend on the vertical links, the sizes and the columns only. */
  lemma ListsFrame(s: Store, t: Store, lists: seq<seq<int>>)
    requires Lists(s, lists) && Shaped(t)
    requires t.up == s.up && t.down == s.down && t.size == s.size && t.col == s.col
    ensures Lists(t, lists)
  {
    assert Vertical(t) == Vertical(s);
    forall c | 1 <= c <= MaxCols
      ensures ColumnList(t, lists, c)
    {
      assert ColumnList(s, lists, c);
    }
  }

  lemma IndexOf(L: seq<int>, x: int) returns (k: int)
    requires x in L
    ensures 0 <= k < |L| && L[k] == x
  {
    k :| 0 <= k < |L| && L[k] == x;
  }

  /** Taking a live column out of the column ring keeps the ring and touches neither a data
      node nor a vertical link; putting it back undoes it. */
  lemma HSpliceRing(s: Store, ring: seq<int>, c: int)
    requires ColumnRing(s, ring) && c in ring
    ensures var h := HSplice(s, c);
      h.up == s.up && h.down == s.down && h.size == s.size && h.col == s.col && h.row == s.row &&
      |h.right| == |s.right| && |h.left| == |s.left| &&
      Spliceable(Horizontal(s), c) && Spliceable(Horizontal(h), c) &&
      ColumnRing(h, Remove(ring, c)) && HRestore(h, c) == s &&
      (forall x | DataBase <= x < |s.right| :: h.right[x] == s.right[x]) &&
      (forall x | DataBase <= x < |s.left| :: h.left[x] == s.left[x])
  {
    var k := IndexOf(ring, c);
    SpliceRing(Horizontal(s), Header, ring, k);
    RestoreSplice(Horizontal(s), Header, ring, k);
    RemoveAt(ring, k);
    WithoutFacts(ring, Header, k);
    var p, w := Before(ring, Header, k), After(ring, Header, k);
    assert !IsData(p) && !IsData(w);
    var M := Without(ring, k);
    forall q | 0 <= q < |M|
      ensures IsColumn(M[q])
    {
      assert M[q] == if q < k then ring[q] else ring[q + 1];
    }
  }

  /** The static fields are those of the data nodes' row links and of every node's column. */
  lemma StaticFrame(s: Store, t: Store)
    requires Static(s) && Shaped(t) && t.col == s.col && t.row == s.row
    requires forall x | DataBase <= x < NodeCount :: t.right[x] == s.right[x] && t.left[x] == s.left[x]
    ensures Static(t)
  {
  }

  /** Taking a live column out of the column ring keeps the store well formed for the same
      lists, and putting it back undoes it. */
  lemma HSpliceFacts(s: Store, lists: seq<seq<int>>, ring: seq<int>, c: int)
    requires Wf(s, lists, ring) && c in ring
    ensures var h := HSplice(s, c);
      h.up == s.up && h.down == s.down && h.size == s.size && h.col == s.col && h.row == s.row &&
      Static(h) && Lists(h, lists) && ColumnRing(h, Remove(ring, c)) && HRestore(h, c) == s &&
      Spliceable(Horizontal(s), c) && Spliceable(Horizontal(h), c)
  {
    HSpliceRing(s, ring, c);
    var h := HSplice(s, c);
    StaticFrame(s, h);
    ListsFrame(s, h, lists);
  }

  /** Every list holds only data nodes of its own column. */
  ghost predicate ListsOfColumns(lists: seq<seq<int>>)
  {
    |lists| == MaxCols + 1 && forall c | 1 <= c <= MaxCols :: ColumnOf(lists[c], c)
  }

  lemma WfColumns(s: Store, lists: seq<seq<int>>, ring: seq<int>)
    requires Wf(s, lists, ring)
    ensures ListsOfColumns(lists)
  {
    forall c | 1 <= c <= MaxCols
      ensures ColumnOf(lists[c], c)
    {
      assert ColumnList(s, lists, c);
    }
  }

  /** Every node of S sits in its own column's list. */
  ghost predicate RowsLive(S: seq<int>, lists: seq<seq<int>>)
  {
    |lists| == MaxCols + 1 && forall p | 0 <= p < |S| :: IsData(S[p]) && S[p] in lists[ColOf(S[p])]
  }

  lemma ClosedAt(lists: seq<seq<int>>, ring: seq<int>, c: int, a: int, m: nat)
    requires Closed(lists, ring) && c in ring && IsColumn(c) && 0 <= a < |lists[c]| && IsData(lists[c][a])
    requires 1 <= m <= 3
    ensures Live(lists, ring, RowStep(lists[c][a], m))
  {
    assert RowWhole(lists, ring, lists[c][a]);
  }

  lemma ClosedRows(lists: seq<seq<int>>, ring: seq<int>, c: int)
    requires Closed(lists, ring) && c in ring && IsColumn(c) && ColumnOf(lists[c], c)
    ensures RowsLive(CoverSeq(lists[c]), lists)
  {
    var L := lists[c];
    forall p | 0 <= p < 3 * |L|
      ensures IsData(CoverSeq(L)[p]) && CoverSeq(L)[p] in lists[ColOf(CoverSeq(L)[p])]
    {
      RowStepFacts(L[p / 3], p % 3 + 1);
      ClosedAt(lists, ring, c, p / 3, p % 3 + 1);
    }
  }

  /** What coverCol's two loops may assume of the store h it starts them on. */
  ghost predicate Coverable(h: Store, lists: seq<seq<int>>, c: int)
  {
    Lists(h, lists) && IsColumn(c) && ColumnOf(lists[c], c) && RowsLive(CoverSeq(lists[c]), lists)
  }

  /** One more unlink step along S, when the steps before it have been done. */
  lemma UnlinkNext(t: Store, lists: seq<seq<int>>, S: seq<int>, q: int)
    requires 0 <= q < |S| && Lists(t, DeleteAll(lists, S[..q])) && RowsLive(S, lists) && Distinct(S)
    ensures Lists(Unlink(t, S[q]), DeleteAll(lists, S[..q + 1]))
    ensures Linkable(t, S[q]) && SameRows(t, Unlink(t, S[q])) && Relink(Unlink(t, S[q]), S[q]) == t
  {
    var D, x := DeleteAll(lists, S[..q]), S[q];
    var cx := ColOf(x);
    assert x !in S[..q];
    DeleteAllMembers(lists, S[..q], cx);
    var k := IndexOf(D[cx], x);
    UnlinkStep(t, D, cx, k);
    assert S[..q + 1][..q] == S[..q];
  }

  /** Column c's own list is never touched while its rows are unlinked. */
  lemma CoverKeepsColumn(lists: seq<seq<int>>, c: int, p: int)
    requires |lists| == MaxCols + 1 && IsColumn(c) && ColumnOf(lists[c], c) && 0 <= p <= 3 * |lists[c]|
    ensures DeleteAll(lists, CoverSeq(lists[c])[..p])[c] == lists[c]
  {
    var S := CoverSeq(lists[c]);
    forall y | y in S[..p]
      ensures y !in lists[c]
    {
      var q :| 0 <= q < p && S[q] == y;
      CoverSeqOutside(lists[c], c, q);
    }
    DeleteAllKeeps(lists, S[..p], c);
  }

  /** After the first p unlink steps every list is still a ring with a correct size, and the
      unlinked nodes have left their lists. */
  lemma {:induction false} CoverPrefix(h: Store, lists: seq<seq<int>>, c: int, p: int)
    requires Coverable(h, lists, c) && 0 <= p <= 3 * |lists[c]|
    ensures var S := CoverSeq(lists[c]);
      Lists(UnlinkAll(h, S[..p]), DeleteAll(lists, S[..p])) && SameRows(h, UnlinkAll(h, S[..p]))
  {
    var S := CoverSeq(lists[c]);
    if p == 0 {
      assert S[..0] == [];
    } else {
      CoverPrefix(h, lists, c, p - 1);
      CoverSeqDistinct(lists[c], c);
      UnlinkNext(UnlinkAll(h, S[..p - 1]), lists, S, p - 1);
      assert S[..p][..p - 1] == S[..p - 1];
    }
  }

  /** Relinking the node of step q undoes that step. */
  lemma CoverStepBack(h: Store, lists: seq<seq<int>>, c: int, q: int)
    requires Coverable(h, lists, c) && 0 <= q < 3 * |lists[c]|
    ensures var S := CoverSeq(lists[c]);
      Relink(UnlinkAll(h, S[..q + 1]), S[q]) == UnlinkAll(h, S[..q])
  {
    var S := CoverSeq(lists[c]);
    CoverPrefix(h, lists, c, q);
    CoverSeqDistinct(lists[c], c);
    UnlinkNext(UnlinkAll(h, S[..q]), lists, S, q);
    assert S[..q + 1][..q] == S[..q];
  }

  /** uncoverCol visits coverCol's nodes in exactly the reverse order. */
  lemma UncoverSeqReverse(L: seq<int>, j: int)
    requires 0 <= j < 3 * |L|
    ensures UncoverSeq(L)[j] == CoverSeq(L)[3 * |L| - 1 - j]
  {
    var a, b := j / 3, j % 3;
    var q := 3 * |L| - 1 - j;
    assert q == 3 * (|L| - 1 - a) + (2 - b);
    assert q / 3 == |L| - 1 - a && q % 3 == 2 - b;
  }

  /** Relinking S[q] undoes unlink step q along S. */
  ghost predicate StepUndone(h: Store, S: seq<int>, q: int)
    requires 0 <= q < |S|
  {
    Relink(UnlinkAll(h, S[..q + 1]), S[q]) == UnlinkAll(h, S[..q])
  }

  /** Whenever every unlink step along S is undone by relinking its node, relinking the nodes
      in reverse order walks the steps backwards. */
  lemma {:induction false} RelinkBackwards(h: Store, S: seq<int>, U: seq<int>, j: int)
    requires |U| == |S| && 0 <= j <= |S|
    requires forall i | 0 <= i < |U| :: U[i] == S[|S| - 1 - i]
    requires forall q | 0 <= q < |S| :: StepUndone(h, S, q)
    ensures RelinkAll(UnlinkAll(h, S), U[..j]) == UnlinkAll(h, S[..|S| - j])
  {
    var n := |S|;
    if j == 0 {
      assert S[..n] == S;
    } else {
      RelinkBackwards(h, S, U, j - 1);
      var q, t := n - j, UnlinkAll(h, S);
      var prev := RelinkAll(t, U[..j - 1]);
      assert prev == UnlinkAll(h, S[..q + 1]);
      assert U[..j][..j - 1] == U[..j - 1];
      assert U[j - 1] == S[q];
      assert RelinkAll(t, U[..j]) == Relink(prev, S[q]);
      assert StepUndone(h, S, q);
    }
  }

  /** Relinking the nodes in uncoverCol's order undoes all of coverCol's unlink steps. */
  lemma RelinkUndoesUnlink(h: Store, lists: seq<seq<int>>, c: int)
    requires Coverable(h, lists, c)
    ensures RelinkAll(UnlinkAll(h, CoverSeq(lists[c])), UncoverSeq(lists[c])) == h
  {
    var L, S, U := lists[c], CoverSeq(lists[c]), UncoverSeq(lists[c]);
    forall i | 0 <= i < |U|
      ensures U[i] == S[|S| - 1 - i]
    {
      UncoverSeqReverse(L, i);
    }
    forall q | 0 <= q < |S|
      ensures StepUndone(h, S, q)
    {
      CoverStepBack(h, lists, c, q);
    }
    RelinkBackwards(h, S, U, |S|);
    assert U[..|S|] == U;
    assert S[..0] == [];
  }

  /** The store coverCol starts its loops on is ready for them. */
  lemma WfCoverable(s: Store, lists: seq<seq<int>>, ring: seq<int>, c: int)
    requires Wf(s, lists, ring) && c in ring
    ensures IsColumn(c) && Coverable(HSplice(s, c), lists, c)
  {
    HSpliceFacts(s, lists, ring, c);
    WfColumns(s, lists, ring);
    ClosedRows(lists, ring, c);
  }

  /** uncoverCol undoes coverCol: covering a live column of a well-formed store and then
      uncovering it gives back the very same store. */
  lemma RoundTrip(s: Store, lists: seq<seq<int>>, ring: seq<int>, c: int)
    requires Wf(s, lists, ring) && c in ring
    ensures UncoverSpec(CoverSpec(s, lists[c], c), lists[c], c) == s
  {
    WfCoverable(s, lists, ring, c);
    HSpliceFacts(s, lists, ring, c);
    RelinkUndoesUnlink(HSplice(s, c), lists, c);
  }

  /** One node of a row met in a column that is still live after covering c is still live. */
  lemma ClosedAfterCoverAt(lists: seq<seq<int>>, ring: seq<int>, c: int, c': int, k: int, m: nat)
    requires Closed(lists, ring) && ListsOfColumns(lists) && c in ring && IsColumn(c) && 1 <= m <= 3
    requires c' in Remove(ring, c) && IsColumn(c') && 0 <= k < |CoverLists(lists, c)[c']|
    ensures Live(CoverLists(lists, c), Remove(ring, c), RowStep(CoverLists(lists, c)[c'][k], m))
  {
    var L, S, D, R' := lists[c], CoverSeq(lists[c]), CoverLists(lists, c), Remove(ring, c);
    var y := D[c'][k];
    assert y in D[c'];
    DeleteAllMembers(lists, S, c');
    RemoveMembers(ring, c);
    assert ColumnOf(lists[c'], c') && ColumnOf(L, c);
    var k' := IndexOf(lists[c'], y);
    assert ColOf(y) == c' && IsData(y);
    ClosedAt(lists, ring, c', k', m);
    var z := RowStep(y, m);
    RowStepFacts(y, m);
    RowStepFacts(y, 0);
    if z == y {
      StepsDistinct(y, m, 0);
    }
    var cz := ColOf(z);
    if cz == c {
      var a := IndexOf(L, z);
      CoverSeqCovers(L, c, a, y);
    }
    if z in S {
      var p := IndexOf(S, z);
      CoverSeqOutside(L, c, p);
      CoverSeqCovers(L, c, p / 3, y);
    }
    DeleteAllMembers(lists, S, cz);
  }

  /** Covering c keeps every row met in a live column whole. */
  lemma ClosedAfterCover(lists: seq<seq<int>>, ring: seq<int>, c: int)
    requires Closed(lists, ring) && ListsOfColumns(lists) && c in ring && IsColumn(c)
    ensures Closed(CoverLists(lists, c), Remove(ring, c))
  {
    var D, R' := CoverLists(lists, c), Remove(ring, c);
    forall c', k | c' in R' && 1 <= c' <= MaxCols && 0 <= k < |D[c']| && IsData(D[c'][k])
      ensures RowWhole(D, R', D[c'][k])
    {
      ClosedAfterCoverAt(lists, ring, c, c', k, 1);
      ClosedAfterCoverAt(lists, ring, c, c', k, 2);
      ClosedAfterCoverAt(lists, ring, c, c', k, 3);
    }
  }

  /** Covering a live column of a well-formed store gives a well-formed store for the lists
      without the column's rows and the ring without the column. */
  lemma CoverWf(s: Store, lists: seq<seq<int>>, ring: seq<int>, c: int)
    requires Wf(s, lists, ring) && c in ring
    ensures Wf(CoverSpec(s, lists[c], c), CoverLists(lists, c), Remove(ring, c))
  {
    WfCoverable(s, lists, ring, c);
    HSpliceFacts(s, lists, ring, c);
    var h, S := HSplice(s, c), CoverSeq(lists[c]);
    CoverPrefix(h, lists, c, |S|);
    assert S[..|S|] == S;
    var t := CoverSpec(s, lists[c], c);
    StaticFrame(h, t);
    assert Horizontal(t) == Horizontal(h);
    WfColumns(s, lists, ring);
    ClosedAfterCover(lists, ring, c);
  }

  /** Step q of coverCol's loops unlinks node q of CoverSeq from the store the earlier steps
      left, and that node can be unlinked. */
  lemma CoverStepAt(h: Store, lists: seq<seq<int>>, c: int, q: int)
    requires Coverable(h, lists, c) && 0 <= q < 3 * |lists[c]|
    ensures var S := CoverSeq(lists[c]);
      Linkable(UnlinkAll(h, S[..q]), S[q]) &&
      UnlinkAll(h, S[..q + 1]) == Unlink(UnlinkAll(h, S[..q]), S[q])
  {
    var S := CoverSeq(lists[c]);
    CoverPrefix(h, lists, c, q);
    CoverSeqDistinct(lists[c], c);
    UnlinkNext(UnlinkAll(h, S[..q]), lists, S, q);
    assert S[..q + 1][..q] == S[..q];
  }

  /** Between the steps, the row links are those of h and column c's own ring is intact. */
  lemma CoverColumnAt(h: Store, lists: seq<seq<int>>, c: int, p: int)
    requires Coverable(h, lists, c) && 0 <= p <= 3 * |lists[c]|
    ensures var t := UnlinkAll(h, CoverSeq(lists[c])[..p]);
      SameRows(h, t) && Shaped(t) && Ring(Vertical(t), c, lists[c])
  {
    CoverPrefix(h, lists, c, p);
    CoverKeepsColumn(lists, c, p);
    var t, D := UnlinkAll(h, CoverSeq(lists[c])[..p]), DeleteAll(lists, CoverSeq(lists[c])[..p]);
    assert ColumnList(t, D, c);
  }

  /** Node y has the same up and down links in t as in u. */
  ghost predicate SameVertical(t: Store, u: Store, y: int)
  {
    0 <= y < |t.up| && y < |t.down| && y < |u.up| && y < |u.down| &&
    t.up[y] == u.up[y] && t.down[y] == u.down[y]
  }

  /** One unlink step writes only the two vertical neighbours of the node it takes out, so a
      data node that is not among the other members of that node's list keeps both of its
      vertical links; the node taken out is one of them. */
  lemma UnlinkLeaves(s: Store, lists: seq<seq<int>>, c: int, k: int, y: int)
    requires Lists(s, lists) && IsColumn(c) && 0 <= k < |lists[c]| && IsData(y)
    requires y !in Without(lists[c], k)
    ensures SameVertical(Unlink(s, lists[c][k]), s, y)
  {
    UnlinkWrites(s, lists, c, k);
    var L := lists[c];
    if k > 0 {
      assert L[k - 1] == Without(L, k)[k - 1];
    }
    if k + 1 < |L| {
      assert L[k + 1] == Without(L, k)[k];
    }
  }

  /** Unlinking S[r], when the nodes before it are already out of their lists, writes to none
      of S[0], ..., S[r]. */
  lemma UnlinkSpares(t: Store, lists: seq<seq<int>>, S: seq<int>, r: int, q: int)
    requires 0 <= q <= r < |S| && Lists(t, DeleteAll(lists, S[..r])) && RowsLive(S, lists)
    requires Distinct(S)
    ensures SameVertical(Unlink(t, S[r]), t, S[q])
  {
    var D, x := DeleteAll(lists, S[..r]), S[r];
    var cx := ColOf(x);
    DeleteAllMembers(lists, S[..r], cx);
    var k := IndexOf(D[cx], x);
    assert ColumnList(t, D, cx);
    WithoutFacts(D[cx], cx, k);
    if q < r {
      assert S[q] in S[..r];
    }
    UnlinkLeaves(t, D, cx, k, S[q]);
  }

  /** Unlink step r of coverCol writes to none of the nodes of steps 0 to r. */
  lemma CoverStepLeaves(h: Store, lists: seq<seq<int>>, c: int, r: int, q: int)
    requires Coverable(h, lists, c) && 0 <= q <= r < 3 * |lists[c]|
    ensures var S := CoverSeq(lists[c]);
      SameVertical(UnlinkAll(h, S[..r + 1]), UnlinkAll(h, S[..r]), S[q])
  {
    var S := CoverSeq(lists[c]);
    CoverStepAt(h, lists, c, r);
    CoverPrefix(h, lists, c, r);
    CoverSeqDistinct(lists[c], c);
    UnlinkSpares(UnlinkAll(h, S[..r]), lists, S, r, q);
  }

  /** After the first p unlink steps of coverCol, the node of step q < p still holds the
      vertical links it had at the moment it was taken out: later steps never write to it. */
  lemma {:induction false} CoverKeepsUnlinked(h: Store, lists: seq<seq<int>>, c: int, p: int, q: int)
    requires Coverable(h, lists, c) && 0 <= q < p <= 3 * |lists[c]|
    ensures var S := CoverSeq(lists[c]);
      SameVertical(UnlinkAll(h, S[..p]), UnlinkAll(h, S[..q]), S[q])
    decreases p
  {
    CoverStepLeaves(h, lists, c, p - 1, q);
    if q < p - 1 {
      CoverKeepsUnlinked(h, lists, c, p - 1, q);
    }
  }

  /** Taking c out of the column ring rewrites its neighbours' links, never c's own. */
  lemma HSpliceKeepsOwn(s: Store, lists: seq<seq<int>>, ring: seq<int>, c: int)
    requires Wf(s, lists, ring) && c in ring
    ensures var h := HSplice(s, c);
      Shaped(h) && IsColumn(c) && h.left[c] == s.left[c] && h.right[c] == s.right[c]
  {
    HSpliceFacts(s, lists, ring, c);
    var k := IndexOf(ring, c);
    SpliceWrites(Horizontal(s), Header, ring, k);
    if k > 0 {
      assert ring[k - 1] != ring[k];
    }
  }

  /** The unlink steps of coverCol leave every link of c's own vertical ring as it was. */
  lemma CoverKeepsOwnRing(h: Store, lists: seq<seq<int>>, c: int)
    requires Coverable(h, lists, c)
    ensures var t, L := UnlinkAll(h, CoverSeq(lists[c])), lists[c];
      Shaped(t) && SameRows(h, t) && SameVertical(t, h, c) &&
      forall a | 0 <= a < |L| :: SameVertical(t, h, L[a])
  {
    var S := CoverSeq(lists[c]);
    CoverColumnAt(h, lists, c, |S|);
    assert S[..|S|] == S;
    assert ColumnList(h, lists, c);
  }

  /** Once coverCol's unlink steps are all done, each node taken out still holds the vertical
      links it had when it was taken out. */
  lemma CoverKeepsAllUnlinked(h: Store, lists: seq<seq<int>>, c: int)
    requires Coverable(h, lists, c)
    ensures var S := CoverSeq(lists[c]);
      forall q | 0 <= q < |S| :: SameVertical(UnlinkAll(h, S), UnlinkAll(h, S[..q]), S[q])
  {
    var S := CoverSeq(lists[c]);
    assert S[..|S|] == S;
    forall q | 0 <= q < |S|
      ensures SameVertical(UnlinkAll(h, S), UnlinkAll(h, S[..q]), S[q])
    {
      CoverKeepsUnlinked(h, lists, c, |S|, q);
    }
  }

  /** What coverCol leaves behind for uncoverCol (grid.cpp:255-280): c keeps its own left and
      right links, c's vertical ring is untouched, and every node taken out of its column still
      points at the neighbours it had when it was taken out, ready to be put back. */
  lemma CoverKeepsDetached(s: Store, lists: seq<seq<int>>, ring: seq<int>, c: int)
    requires Wf(s, lists, ring) && c in ring
    ensures var t, h, L, S := CoverSpec(s, lists[c], c), HSplice(s, c), lists[c], CoverSeq(lists[c]);
      Shaped(t) && IsColumn(c) && t.left[c] == s.left[c] && t.right[c] == s.right[c] &&
      SameVertical(t, s, c) && (forall a | 0 <= a < |L| :: SameVertical(t, s, L[a])) &&
      forall q | 0 <= q < |S| :: SameVertical(t, UnlinkAll(h, S[..q]), S[q])
  {
    var h, L, S := HSplice(s, c), lists[c], CoverSeq(lists[c]);
    var t := UnlinkAll(h, S);
    assert t == CoverSpec(s, L, c);
    WfCoverable(s, lists, ring, c);
    HSpliceFacts(s, lists, ring, c);
    HSpliceKeepsOwn(s, lists, ring, c);
    CoverKeepsOwnRing(h, lists, c);
    CoverKeepsAllUnlinked(h, lists, c);
    assert h.up == s.up && h.down == s.down;
    forall a | 0 <= a < |L|
      ensures SameVertical(t, s, L[a])
    {
      assert SameVertical(t, h, L[a]);
    }
  }

  lemma CoverListsKeep(lists: seq<seq<int>>, c: int)
    requires |lists| == MaxCols + 1 && IsColumn(c) && ColumnOf(lists[c], c)
    ensures CoverLists(lists, c)[c] == lists[c]
  {
    CoverKeepsColumn(lists, c, 3 * |lists[c]|);
    assert CoverSeq(lists[c])[..3 * |lists[c]|] == CoverSeq(lists[c]);
  }

  lemma {:induction false} RemoveLength(L: seq<int>, x: int)
    requires Distinct(L) && x in L
    ensures |Remove(L, x)| == |L| - 1
  {
    var k := IndexOf(L, x);
    RemoveAt(L, k);
  }

  /** A store with its abstraction, as saved before a cover so that uncover can undo it. */
  datatype Frame = Frame(s: Store, lists: seq<seq<int>>, ring: seq<int>)

  /** The frame covering column c in frame f leads to. */
  ghost function CoverFrame(f: Frame, c: int): Frame
    requires 0 <= c < |f.lists|
  {
    Frame(CoverSpec(f.s, f.lists[c], c), CoverLists(f.lists, c), Remove(f.ring, c))
  }

  /** g is what covering the live column c in the well-formed frame f gives. */
  ghost predicate Covers(f: Frame, c: int, g: Frame)
  {
    Wf(f.s, f.lists, f.ring) && c in f.ring && 0 <= c < |f.lists| && g == CoverFrame(f, c)
  }
}
