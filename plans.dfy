/** The walks of coverCol's and uncoverCol's loops (grid.cpp:267-279, 290-302) laid out in
    advance: the row nodes they meet, row by row, and the store after every single step. The
    loops of module Sudoku follow such a plan; the lemmas here show that the plan of a column is
    the one the cover and uncover specifications of module Dlx step through. */
module Plans {
  import opened Encoding
  import opened Layout
  import opened Rings
  import opened Dlx

  /** Row a of the walk starts at L[a]; `next` (right or left links) leads from L[a] through
      R[a][0], R[a][1], R[a][2] back to L[a]. */
  ghost predicate RowsPlan(next: seq<int>, L: seq<int>, R: seq<seq<int>>)
  {
    |R| == |L| && |next| == NodeCount &&
    (forall a {:trigger L[a]} | 0 <= a < |L| ::
      IsData(L[a]) && |R[a]| == 3 && next[L[a]] == R[a][0] &&
      R[a][0] != L[a] && R[a][1] != L[a] && R[a][2] != L[a]) &&
    (forall a, k {:trigger R[a][k]} | 0 <= a < |L| && 0 <= k < |R[a]| :: IsData(R[a][k])) &&
    (forall a, k {:trigger next[R[a][k]]} | 0 <= a < |L| && |R[a]| == 3 && 0 <= k < 3 && IsData(R[a][k]) ::
      next[R[a][k]] == (if k == 2 then L[a] else R[a][k + 1]))
  }

  /** P[a][k] is the store before step k of row a, B[a] the store before row a; step k of row
      a unlinks R[a][k]. */
  ghost predicate UnlinkPlan(L: seq<int>, R: seq<seq<int>>, B: seq<Store>, P: seq<seq<Store>>)
  {
    |R| == |L| && |P| == |L| && |B| == |L| + 1 &&
    (forall a {:trigger P[a]} | 0 <= a < |L| :: |P[a]| == 4 && P[a][0] == B[a] && P[a][3] == B[a + 1]) &&
    (forall a, k {:trigger P[a][k]} | 0 <= a < |L| && 0 <= k < 3 && |P[a]| == 4 && |R[a]| == 3 ::
      Linkable(P[a][k], R[a][k])) &&
    (forall a, k {:trigger Unlink(P[a][k], R[a][k])} | 0 <= a < |L| && 0 <= k < 3 && |P[a]| == 4 && |R[a]| == 3 ::
      P[a][k + 1] == Unlink(P[a][k], R[a][k]))
  }

  /** The same for relinking steps. */
  ghost predicate RelinkPlan(L: seq<int>, R: seq<seq<int>>, B: seq<Store>, P: seq<seq<Store>>)
  {
    |R| == |L| && |P| == |L| && |B| == |L| + 1 &&
    (forall a {:trigger P[a]} | 0 <= a < |L| :: |P[a]| == 4 && P[a][0] == B[a] && P[a][3] == B[a + 1]) &&
    (forall a, k {:trigger P[a][k]} | 0 <= a < |L| && 0 <= k < 3 && |P[a]| == 4 && |R[a]| == 3 ::
      Linkable(P[a][k], R[a][k])) &&
    (forall a, k {:trigger Relink(P[a][k], R[a][k])} | 0 <= a < |L| && 0 <= k < 3 && |P[a]| == 4 && |R[a]| == 3 ::
      P[a][k + 1] == Relink(P[a][k], R[a][k]))
  }

  /** The walk down column c: c's down link in B[0] leads to L[0] (or back to c), and once row
      a is done, L[a]'s down link leads to the next row (or back to c). */
  ghost predicate DownPlan(L: seq<int>, c: int, B: seq<Store>)
  {
    |B| == |L| + 1 && IsColumn(c) && c !in L &&
    |B[0].down| == NodeCount && B[0].down[c] == (if L == [] then c else L[0]) &&
    forall a {:trigger After(L, c, a)} | 0 <= a < |L| ::
      0 <= L[a] < NodeCount && |B[a + 1].down| == NodeCount && B[a + 1].down[L[a]] == After(L, c, a)
  }

  /** The walk up column c, with L the column's list bottom to top. */
  ghost predicate UpPlan(L: seq<int>, c: int, B: seq<Store>)
  {
    |B| == |L| + 1 && IsColumn(c) && c !in L &&
    |B[0].up| == NodeCount && B[0].up[c] == (if L == [] then c else L[0]) &&
    forall a {:trigger After(L, c, a)} | 0 <= a < |L| ::
      0 <= L[a] < NodeCount && |B[a + 1].up| == NodeCount && B[a + 1].up[L[a]] == After(L, c, a)
  }

  /** What coverCol's loops on column c with list L do, starting from store h. */
  ghost predicate CoverPlan(h: Store, L: seq<int>, c: int, R: seq<seq<int>>, B: seq<Store>, P: seq<seq<Store>>)
  {
    RowsPlan(h.right, L, R) && UnlinkPlan(L, R, B, P) && DownPlan(L, c, B) && B[0] == h
  }

  /** What uncoverCol's loops on column c do, starting from store t; M is the column's list
      bottom to top. */
  ghost predicate UncoverPlan(t: Store, M: seq<int>, c: int, R: seq<seq<int>>, B: seq<Store>, P: seq<seq<Store>>)
  {
    RowsPlan(t.left, M, R) && RelinkPlan(M, R, B, P) && UpPlan(M, c, B) && B[0] == t
  }

  /** The facts about a column list L, its unlink sequence S and a store h that the plans rest
      on, each stated on its own so that the plan lemmas need nothing else. */
  ghost predicate DataList(L: seq<int>)
  {
    forall a | 0 <= a < |L| :: IsData(L[a])
  }

  ghost predicate RightSteps(s: Store)
  {
    |s.right| == NodeCount && forall x | DataBase <= x < NodeCount :: s.right[x] == RowStep(x, 1)
  }

  ghost predicate LeftSteps(s: Store)
  {
    |s.left| == NodeCount && forall x | DataBase <= x < NodeCount :: s.left[x] == RowStep(x, 3)
  }

  /** S lists the other nodes of the rows of L, row after row, left to right. */
  ghost predicate RowOrder(L: seq<int>, S: seq<int>)
  {
    |S| == 3 * |L| &&
    forall a, m {:trigger RowStep(L[a], m)} | 0 <= a < |L| && 1 <= m <= 3 :: S[3 * a + m - 1] == RowStep(L[a], m)
  }

  /** Step q of S can be taken from the store the steps before it leave, and taking it gives
      the store after the first q + 1 steps. */
  ghost predicate UnlinkedAt(h: Store, S: seq<int>, q: int)
    requires 0 <= q < |S|
  {
    Linkable(UnlinkAll(h, S[..q]), S[q]) && UnlinkAll(h, S[..q + 1]) == Unlink(UnlinkAll(h, S[..q]), S[q])
  }

  ghost predicate Unlinks(h: Store, S: seq<int>)
  {
    forall q | 0 <= q < |S| :: UnlinkedAt(h, S, q)
  }

  /** Relinking node q of S after the first q + 1 steps undoes step q. */
  ghost predicate RelinkedAt(h: Store, S: seq<int>, q: int)
    requires 0 <= q < |S|
  {
    Linkable(UnlinkAll(h, S[..q + 1]), S[q]) && Relink(UnlinkAll(h, S[..q + 1]), S[q]) == UnlinkAll(h, S[..q])
  }

  ghost predicate Relinks(h: Store, S: seq<int>)
  {
    forall q | 0 <= q < |S| :: RelinkedAt(h, S, q)
  }

  /** After the first p steps column c keeps its list L, and the row links are those of h. */
  ghost predicate StaysAt(h: Store, S: seq<int>, c: int, L: seq<int>, p: int)
    requires 0 <= p <= |S|
  {
    var t := UnlinkAll(h, S[..p]);
    Ring(Vertical(t), c, L) && Shaped(t) && t.left == h.left && t.right == h.right
  }

  ghost predicate ColumnStays(h: Store, S: seq<int>, c: int, L: seq<int>)
  {
    forall p | 0 <= p <= |S| :: StaysAt(h, S, c, L, p)
  }

  /** The cover plan of a column list L from store h, S being L's unlink sequence. */
  ghost function CoverRows(L: seq<int>): (R: seq<seq<int>>)
    ensures |R| == |L|
  {
    seq(|L|, a requires 0 <= a < |L| => [RowStep(L[a], 1), RowStep(L[a], 2), RowStep(L[a], 3)])
  }

  ghost function CoverStores(h: Store, S: seq<int>, n: nat): (B: seq<Store>)
    requires 3 * n <= |S|
    ensures |B| == n + 1
  {
    seq(n + 1, a requires 0 <= a <= n => UnlinkAll(h, S[..3 * a]))
  }

  ghost function CoverSteps(h: Store, S: seq<int>, n: nat): (P: seq<seq<Store>>)
    requires 3 * n <= |S|
    ensures |P| == n
  {
    seq(n, a requires 0 <= a < n => seq(4, k requires 0 <= k < 4 => UnlinkAll(h, S[..3 * a + k])))
  }

  /** The uncover plan of the same column: the list read bottom to top, each row right to
      left, and the cover stores in reverse order. */
  ghost function Reversed(L: seq<int>): (M: seq<int>)
    ensures |M| == |L|
  {
    seq(|L|, b requires 0 <= b < |L| => L[|L| - 1 - b])
  }

  ghost function UncoverRows(L: seq<int>): (R: seq<seq<int>>)
    ensures |R| == |L|
  {
    var n := |L|;
    seq(n, b requires 0 <= b < n => [RowStep(L[n - 1 - b], 3), RowStep(L[n - 1 - b], 2), RowStep(L[n - 1 - b], 1)])
  }

  ghost function UncoverStores(h: Store, S: seq<int>, n: nat): (B: seq<Store>)
    requires 3 * n <= |S|
    ensures |B| == n + 1
  {
    seq(n + 1, b requires 0 <= b <= n => UnlinkAll(h, S[..3 * (n - b)]))
  }

  ghost function UncoverSteps(h: Store, S: seq<int>, n: nat): (P: seq<seq<Store>>)
    requires 3 * n <= |S|
    ensures |P| == n
  {
    seq(n, b requires 0 <= b < n => seq(4, k requires 0 <= k < 4 => UnlinkAll(h, S[..3 * (n - 1 - b) + 3 - k])))
  }

  /** The first node of every row of the cover plan and the three nodes after it. */
  lemma CoverRowHeads(h: Store, L: seq<int>)
    requires DataList(L) && RightSteps(h)
    ensures var R := CoverRows(L); forall a | 0 <= a < |L| ::
      IsData(L[a]) && |R[a]| == 3 && h.right[L[a]] == R[a][0] &&
      R[a][0] != L[a] && R[a][1] != L[a] && R[a][2] != L[a]
  {
    var R := CoverRows(L);
    forall a | 0 <= a < |L|
      ensures IsData(L[a]) && |R[a]| == 3 && h.right[L[a]] == R[a][0]
      ensures R[a][0] != L[a] && R[a][1] != L[a] && R[a][2] != L[a]
    {
      RowStepNotSelf(L[a], 1);
      RowStepNotSelf(L[a], 2);
      RowStepNotSelf(L[a], 3);
    }
  }

  /** Following right from each planned node leads to the next planned node of its row. */
  lemma CoverRowLinks(h: Store, L: seq<int>)
    requires DataList(L) && RightSteps(h)
    ensures var R := CoverRows(L); forall a, k | 0 <= a < |L| && 0 <= k < |R[a]| ::
      IsData(R[a][k]) && h.right[R[a][k]] == (if k == 2 then L[a] else R[a][k + 1])
  {
    var R := CoverRows(L);
    forall a, k | 0 <= a < |L| && 0 <= k < |R[a]|
      ensures IsData(R[a][k]) && h.right[R[a][k]] == (if k == 2 then L[a] else R[a][k + 1])
    {
      RowStepFacts(L[a], k + 1);
    }
  }

  lemma CoverRowsOk(h: Store, L: seq<int>)
    requires DataList(L) && RightSteps(h)
    ensures RowsPlan(h.right, L, CoverRows(L))
  {
    CoverRowHeads(h, L);
    CoverRowLinks(h, L);
  }

  /** Rows of the cover plan begin and end at the stores CoverStores lists. */
  lemma CoverStepBounds(h: Store, L: seq<int>, S: seq<int>)
    requires |S| == 3 * |L|
    ensures var B, P := CoverStores(h, S, |L|), CoverSteps(h, S, |L|); forall a | 0 <= a < |L| ::
      |P[a]| == 4 && P[a][0] == B[a] && P[a][3] == B[a + 1]
  {
    var B, P := CoverStores(h, S, |L|), CoverSteps(h, S, |L|);
    forall a | 0 <= a < |L|
      ensures |P[a]| == 4 && P[a][0] == B[a] && P[a][3] == B[a + 1]
    {
      assert 3 * a + 3 == 3 * (a + 1);
    }
  }

  /** Step k of row a of the cover plan is step 3a + k of the unlink sequence. */
  lemma CoverStepAtPlan(h: Store, L: seq<int>, S: seq<int>, a: int, k: int)
    requires RowOrder(L, S) && Unlinks(h, S) && 0 <= a < |L| && 0 <= k < 3
    ensures var R, P := CoverRows(L), CoverSteps(h, S, |L|);
      Linkable(P[a][k], R[a][k]) && P[a][k + 1] == Unlink(P[a][k], R[a][k])
  {
    var R, P := CoverRows(L), CoverSteps(h, S, |L|);
    var q := 3 * a + k;
    assert R[a][k] == RowStep(L[a], k + 1) == S[q];
    assert UnlinkedAt(h, S, q);
    assert P[a][k] == UnlinkAll(h, S[..q]) && P[a][k + 1] == UnlinkAll(h, S[..q + 1]);
  }

  lemma CoverStepsOk(h: Store, L: seq<int>, S: seq<int>)
    requires RowOrder(L, S) && Unlinks(h, S)
    ensures UnlinkPlan(L, CoverRows(L), CoverStores(h, S, |L|), CoverSteps(h, S, |L|))
  {
    var R, P := CoverRows(L), CoverSteps(h, S, |L|);
    CoverStepBounds(h, L, S);
    forall a, k | 0 <= a < |L| && 0 <= k < 3
      ensures Linkable(P[a][k], R[a][k]) && P[a][k + 1] == Unlink(P[a][k], R[a][k])
    {
      CoverStepAtPlan(h, L, S, a, k);
    }
  }

  /** Once row a is done, the column's ring is as before, so L[a] still points down at the
      next row. */
  lemma CoverDownAt(h: Store, L: seq<int>, S: seq<int>, c: int, a: int)
    requires |S| == 3 * |L| && ColumnStays(h, S, c, L) && 0 <= a < |L|
    ensures var B := CoverStores(h, S, |L|);
      0 <= L[a] < NodeCount && |B[a + 1].down| == NodeCount && B[a + 1].down[L[a]] == After(L, c, a)
  {
    var B := CoverStores(h, S, |L|);
    var s := UnlinkAll(h, S[..3 * (a + 1)]);
    assert B[a + 1] == s;
    assert StaysAt(h, S, c, L, 3 * (a + 1));
    assert s.down[L[a]] == Vertical(s).succ[L[a]];
  }

  lemma CoverDownOk(h: Store, L: seq<int>, S: seq<int>, c: int)
    requires |S| == 3 * |L| && IsColumn(c) && ColumnStays(h, S, c, L)
    ensures DownPlan(L, c, CoverStores(h, S, |L|))
  {
    var B := CoverStores(h, S, |L|);
    assert S[..0] == [];
    assert B[0] == UnlinkAll(h, S[..0]);
    assert StaysAt(h, S, c, L, 0);
    forall a | 0 <= a < |L|
      ensures 0 <= L[a] < NodeCount && |B[a + 1].down| == NodeCount && B[a + 1].down[L[a]] == After(L, c, a)
    {
      CoverDownAt(h, L, S, c, a);
    }
  }

  lemma UncoverRowHeads(t: Store, L: seq<int>)
    requires DataList(L) && LeftSteps(t)
    ensures var M, R := Reversed(L), UncoverRows(L); forall b | 0 <= b < |L| ::
      IsData(M[b]) && |R[b]| == 3 && t.left[M[b]] == R[b][0] &&
      R[b][0] != M[b] && R[b][1] != M[b] && R[b][2] != M[b]
  {
    var n, M, R := |L|, Reversed(L), UncoverRows(L);
    forall b | 0 <= b < n
      ensures IsData(M[b]) && |R[b]| == 3 && t.left[M[b]] == R[b][0]
      ensures R[b][0] != M[b] && R[b][1] != M[b] && R[b][2] != M[b]
    {
      assert IsData(L[n - 1 - b]);
      RowStepNotSelf(M[b], 1);
      RowStepNotSelf(M[b], 2);
      RowStepNotSelf(M[b], 3);
    }
  }

  lemma UncoverRowLinks(t: Store, L: seq<int>)
    requires DataList(L) && LeftSteps(t)
    ensures var M, R := Reversed(L), UncoverRows(L); forall b, k {:trigger R[b][k]} | 0 <= b < |L| && 0 <= k < 3 ::
      IsData(R[b][k]) && t.left[R[b][k]] == (if k == 2 then M[b] else R[b][k + 1])
  {
    var M, R := Reversed(L), UncoverRows(L);
    forall b, k {:trigger R[b][k]} | 0 <= b < |L| && 0 <= k < 3
      ensures IsData(R[b][k]) && t.left[R[b][k]] == (if k == 2 then M[b] else R[b][k + 1])
    {
      UncoverRowLinkAt(t, L, b, k);
    }
  }

  lemma UncoverRowLinkAt(t: Store, L: seq<int>, b: int, k: int)
    requires DataList(L) && LeftSteps(t) && 0 <= b < |L| && 0 <= k < 3
    ensures var M, R := Reversed(L), UncoverRows(L);
      IsData(R[b][k]) && t.left[R[b][k]] == (if k == 2 then M[b] else R[b][k + 1])
  {
    var n, M, R := |L|, Reversed(L), UncoverRows(L);
    var x := L[n - 1 - b];
    assert IsData(x) && M[b] == x;
    assert R[b] == [RowStep(x, 3), RowStep(x, 2), RowStep(x, 1)];
    RowStepFacts(x, 3 - k);
    RowStepFacts(x, 0);
    if k == 0 {
      assert R[b][k] == RowStep(x, 3) && R[b][k + 1] == RowStep(x, 2);
    } else if k == 1 {
      assert R[b][k] == RowStep(x, 2) && R[b][k + 1] == RowStep(x, 1);
    } else {
      assert R[b][k] == RowStep(x, 1);
    }
  }

  lemma UncoverRowsOk(t: Store, L: seq<int>)
    requires DataList(L) && LeftSteps(t)
    ensures RowsPlan(t.left, Reversed(L), UncoverRows(L))
  {
    UncoverRowHeads(t, L);
    UncoverRowLinks(t, L);
  }

  lemma UncoverStepBounds(h: Store, L: seq<int>, S: seq<int>)
    requires |S| == 3 * |L|
    ensures var B, P := UncoverStores(h, S, |L|), UncoverSteps(h, S, |L|); forall b | 0 <= b < |L| ::
      |P[b]| == 4 && P[b][0] == B[b] && P[b][3] == B[b + 1]
  {
    var n, B, P := |L|, UncoverStores(h, S, |L|), UncoverSteps(h, S, |L|);
    forall b | 0 <= b < n
      ensures |P[b]| == 4 && P[b][0] == B[b] && P[b][3] == B[b + 1]
    {
      assert 3 * (n - 1 - b) + 3 == 3 * (n - b);
      assert 3 * (n - 1 - b) == 3 * (n - (b + 1));
    }
  }

  lemma UncoverStepAtPlan(h: Store, L: seq<int>, S: seq<int>, b: int, k: int)
    requires RowOrder(L, S) && Relinks(h, S) && 0 <= b < |L| && 0 <= k < 3
    ensures var R, P := UncoverRows(L), UncoverSteps(h, S, |L|);
      Linkable(P[b][k], R[b][k]) && P[b][k + 1] == Relink(P[b][k], R[b][k])
  {
    var n, R, P := |L|, UncoverRows(L), UncoverSteps(h, S, |L|);
    var a := n - 1 - b;
    var q := 3 * a + 2 - k;
    assert R[b][k] == RowStep(L[a], 3 - k) == S[q];
    assert RelinkedAt(h, S, q);
    assert P[b][k] == UnlinkAll(h, S[..q + 1]) && P[b][k + 1] == UnlinkAll(h, S[..q]);
  }

  lemma UncoverStepsOk(h: Store, L: seq<int>, S: seq<int>)
    requires RowOrder(L, S) && Relinks(h, S)
    ensures RelinkPlan(Reversed(L), UncoverRows(L), UncoverStores(h, S, |L|), UncoverSteps(h, S, |L|))
  {
    var R, P := UncoverRows(L), UncoverSteps(h, S, |L|);
    UncoverStepBounds(h, L, S);
    forall b, k | 0 <= b < |L| && 0 <= k < 3
      ensures Linkable(P[b][k], R[b][k]) && P[b][k + 1] == Relink(P[b][k], R[b][k])
    {
      UncoverStepAtPlan(h, L, S, b, k);
    }
  }

  lemma UncoverUpAt(h: Store, L: seq<int>, S: seq<int>, c: int, b: int)
    requires |S| == 3 * |L| && ColumnStays(h, S, c, L) && 0 <= b < |L|
    ensures var M, B := Reversed(L), UncoverStores(h, S, |L|);
      0 <= M[b] < NodeCount && |B[b + 1].up| == NodeCount && B[b + 1].up[M[b]] == After(M, c, b)
  {
    var n, M, B := |L|, Reversed(L), UncoverStores(h, S, |L|);
    var a := n - 1 - b;
    var s := UnlinkAll(h, S[..3 * a]);
    assert B[b + 1] == s;
    assert StaysAt(h, S, c, L, 3 * a);
    assert s.up[L[a]] == Vertical(s).pred[L[a]];
    assert M[b] == L[a];
    if b + 1 < n {
      assert M[b + 1] == L[a - 1];
    }
  }

  lemma UncoverUpOk(h: Store, L: seq<int>, S: seq<int>, c: int)
    requires |S| == 3 * |L| && IsColumn(c) && ColumnStays(h, S, c, L)
    ensures UpPlan(Reversed(L), c, UncoverStores(h, S, |L|))
  {
    var n, M, B := |L|, Reversed(L), UncoverStores(h, S, |L|);
    assert B[0] == UnlinkAll(h, S[..3 * n]);
    assert StaysAt(h, S, c, L, 3 * n);
    assert n > 0 ==> M[0] == L[n - 1];
    forall b | 0 <= b < n
      ensures 0 <= M[b] < NodeCount && |B[b + 1].up| == NodeCount && B[b + 1].up[M[b]] == After(M, c, b)
    {
      UncoverUpAt(h, L, S, c, b);
    }
  }

  /** The facts above, for the store h that coverCol's loops start from. */
  lemma CoverableFacts(h: Store, lists: seq<seq<int>>, c: int)
    requires Coverable(h, lists, c)
    ensures var L, S := lists[c], CoverSeq(lists[c]);
      DataList(L) && RowOrder(L, S) && Unlinks(h, S) && Relinks(h, S) && ColumnStays(h, S, c, L)
  {
    var L, S := lists[c], CoverSeq(lists[c]);
    forall a, m | 0 <= a < |L| && 1 <= m <= 3
      ensures S[3 * a + m - 1] == RowStep(L[a], m)
    {
      CoverSeqAt(L, a, m);
    }
    forall q | 0 <= q < |S|
      ensures UnlinkedAt(h, S, q) && RelinkedAt(h, S, q)
    {
      CoverStepAt(h, lists, c, q);
      CoverStepBack(h, lists, c, q);
      UnlinkLinkable(UnlinkAll(h, S[..q]), S[q]);
    }
    forall p | 0 <= p <= |S|
      ensures StaysAt(h, S, c, L, p)
    {
      CoverColumnAt(h, lists, c, p);
    }
  }

  /** Unlinking x keeps it linkable, so relinking it is a well-defined step. */
  lemma UnlinkLinkable(s: Store, x: int)
    requires Linkable(s, x)
    ensures Linkable(Unlink(s, x), x)
  {
  }

  /** The row rings of a built matrix, one step right and three steps (one back) left. */
  lemma StaticSteps(s: Store)
    requires Static(s)
    ensures RightSteps(s) && LeftSteps(s)
  {
  }

  /** The plan of coverCol's loops for column c exists, and its last store is the one the
      cover specification reaches after the horizontal splice. */
  lemma CoverPlanFor(h: Store, lists: seq<seq<int>>, c: int)
    requires Coverable(h, lists, c) && Static(h)
    ensures var L, S := lists[c], CoverSeq(lists[c]);
      CoverPlan(h, L, c, CoverRows(L), CoverStores(h, S, |L|), CoverSteps(h, S, |L|)) &&
      CoverStores(h, S, |L|)[|L|] == UnlinkAll(h, S)
  {
    var L, S := lists[c], CoverSeq(lists[c]);
    CoverableFacts(h, lists, c);
    StaticSteps(h);
    CoverRowsOk(h, L);
    CoverStepsOk(h, L, S);
    CoverDownOk(h, L, S, c);
    assert S[..0] == [];
    assert S[..3 * |L|] == S;
  }

  /** The plan of uncoverCol's loops for column c exists; it starts from the store coverCol's
      loops leave and ends at the store they started from. */
  lemma UncoverPlanFor(h: Store, lists: seq<seq<int>>, c: int)
    requires Coverable(h, lists, c) && Static(h)
    ensures var L, S := lists[c], CoverSeq(lists[c]);
      UncoverPlan(UnlinkAll(h, S), Reversed(L), c, UncoverRows(L), UncoverStores(h, S, |L|), UncoverSteps(h, S, |L|)) &&
      UncoverStores(h, S, |L|)[|L|] == h
  {
    var L, S := lists[c], CoverSeq(lists[c]);
    CoverableFacts(h, lists, c);
    assert S[..3 * |L|] == S;
    assert S[..0] == [];
    StaticSteps(h);
    assert StaysAt(h, S, c, L, |S|);
    assert UnlinkAll(h, S).left == h.left;
    UncoverRowsOk(UnlinkAll(h, S), L);
    UncoverStepsOk(h, L, S);
    UncoverUpOk(h, L, S, c);
    assert UncoverStores(h, S, |L|)[|L|] == UnlinkAll(h, S[..0]);
    assert UnlinkAll(h, []) == h;
  }

  /** Everything coverCol needs on a live column c of a well-formed store s: the splice of c
      out of the column ring is possible, a plan of the loops exists and ends at the cover
      specification's store, and that store is well formed for the covered abstraction. */
  lemma CoverReady(s: Store, lists: seq<seq<int>>, ring: seq<int>, c: int)
      returns (R: seq<seq<int>>, B: seq<Store>, P: seq<seq<Store>>)
    requires Wf(s, lists, ring) && c in ring
    ensures Spliceable(Horizontal(s), c)
    ensures CoverPlan(HSplice(s, c), lists[c], c, R, B, P) && B[|lists[c]|] == CoverSpec(s, lists[c], c)
    ensures Wf(CoverSpec(s, lists[c], c), CoverLists(lists, c), Remove(ring, c))
  {
    var h, L, S := HSplice(s, c), lists[c], CoverSeq(lists[c]);
    WfCoverable(s, lists, ring, c);
    HSpliceFacts(s, lists, ring, c);
    CoverPlanFor(h, lists, c);
    CoverWf(s, lists, ring, c);
    R, B, P := CoverRows(L), CoverStores(h, S, |L|), CoverSteps(h, S, |L|);
  }

  /** Everything uncoverCol needs after c was covered in frame f: a plan of its loops leads
      from the covered store back to the spliced one, putting c back into the column ring
      gives f's store, and so does the uncover specification. */
  lemma UncoverReady(f: Frame, c: int)
      returns (M: seq<int>, R: seq<seq<int>>, B: seq<Store>, P: seq<seq<Store>>)
    requires Wf(f.s, f.lists, f.ring) && c in f.ring
    ensures Spliceable(Horizontal(HSplice(f.s, c)), c) && HRestore(HSplice(f.s, c), c) == f.s
    ensures UncoverPlan(CoverSpec(f.s, f.lists[c], c), M, c, R, B, P) && B[|M|] == HSplice(f.s, c)
    ensures UncoverSpec(CoverSpec(f.s, f.lists[c], c), f.lists[c], c) == f.s
  {
    var h, L, S := HSplice(f.s, c), f.lists[c], CoverSeq(f.lists[c]);
    WfCoverable(f.s, f.lists, f.ring, c);
    HSpliceFacts(f.s, f.lists, f.ring, c);
    UncoverPlanFor(h, f.lists, c);
    RoundTrip(f.s, f.lists, f.ring, c);
    M, R, B, P := Reversed(L), UncoverRows(L), UncoverStores(h, S, |L|), UncoverSteps(h, S, |L|);
  }
}
