/** Circular doubly linked lists ("rings") over a node store whose links are indices. One
    direction of links is a pair of sequences `succ`/`pred` indexed by node: right/left for
    the column ring and the row rings, down/up for the column lists. */
module Rings {

  /** One direction of links of every node: succ[x] and pred[x]. */
  datatype Links = Links(succ: seq<int>, pred: seq<int>)

  /** Successor and predecessor of L[k] in the ring h, L[0], ..., L[|L| - 1], h. */
  function After(L: seq<int>, h: int, k: int): int
    requires 0 <= k < |L|
  {
    if k + 1 < |L| then L[k + 1] else h
  }
  function Before(L: seq<int>, h: int, k: int): int
    requires 0 <= k < |L|
  {
    if k > 0 then L[k - 1] else h
  }

  ghost predicate Distinct(L: seq<int>)
  {
    forall a, b | 0 <= a < b < |L| :: L[a] != L[b]
  }

  /** Following succ from head h visits exactly the nodes of L in order and comes back to h,
      and pred retraces the same ring backwards. */
  ghost predicate Ring(g: Links, h: int, L: seq<int>)
  {
    |g.pred| == |g.succ| && 0 <= h < |g.succ| && h !in L && Distinct(L) &&
    (forall k | 0 <= k < |L| :: 0 <= L[k] < |g.succ|) &&
    g.succ[h] == (if L == [] then h else L[0]) &&
    g.pred[h] == (if L == [] then h else L[|L| - 1]) &&
    (forall k {:trigger g.succ[L[k]]} | 0 <= k < |L| :: g.succ[L[k]] == After(L, h, k)) &&
    (forall k {:trigger g.pred[L[k]]} | 0 <= k < |L| :: g.pred[L[k]] == Before(L, h, k))
  }

  /** L with its k-th element taken out. */
  function Without(L: seq<int>, k: int): seq<int>
    requires 0 <= k < |L|
  {
    L[..k] + L[k + 1..]
  }

  predicate Spliceable(g: Links, x: int)
  {
    |g.pred| == |g.succ| && 0 <= x < |g.succ| && 0 <= g.pred[x] < |g.succ| && 0 <= g.succ[x] < |g.succ|
  }

  /** `x->pred->succ = x->succ; x->succ->pred = x->pred;` (grid.cpp:265-266, 273-274): the
      second statement reads x's links after the first one has been done. */
  function Splice(g: Links, x: int): (r: Links)
    requires Spliceable(g, x)
  {
    var succ1 := g.succ[g.pred[x] := g.succ[x]];
    Links(succ1, g.pred[succ1[x] := g.pred[x]])
  }

  /** `x->pred->succ = x; x->succ->pred = x;` (grid.cpp:296-297, 303-304). */
  function Restore(g: Links, x: int): (r: Links)
    requires Spliceable(g, x)
  {
    var succ1 := g.succ[g.pred[x] := x];
    Links(succ1, g.pred[succ1[x] := x])
  }

  lemma WithoutFacts(L: seq<int>, h: int, k: int)
    requires Distinct(L) && h !in L && 0 <= k < |L|
    ensures var M := Without(L, k);
      |M| == |L| - 1 && Distinct(M) && h !in M &&
      (forall q | 0 <= q < |M| :: M[q] == if q < k then L[q] else L[q + 1])
  {
    var M := Without(L, k);
    assert forall q | 0 <= q < |M| :: M[q] == if q < k then L[q] else L[q + 1];
    forall a, b | 0 <= a < b < |M| ensures M[a] != M[b] {
      assert M[a] == if a < k then L[a] else L[a + 1];
      assert M[b] == if b < k then L[b] else L[b + 1];
    }
  }

  /** Taking a member out of a ring's list keeps it duplicate-free, in bounds and without h. */
  lemma WithoutShape(L: seq<int>, h: int, k: int, n: int)
    requires Distinct(L) && h !in L && 0 <= k < |L| && forall q | 0 <= q < |L| :: 0 <= L[q] < n
    ensures var M := Without(L, k);
      |M| == |L| - 1 && Distinct(M) && h !in M && forall q | 0 <= q < |M| :: 0 <= M[q] < n
  {
    WithoutFacts(L, h, k);
  }

  lemma SpliceWrites(g: Links, h: int, L: seq<int>, k: int)
    requires Ring(g, h, L) && 0 <= k < |L|
    ensures Spliceable(g, L[k])
    ensures var r, p, w := Splice(g, L[k]), Before(L, h, k), After(L, h, k);
      r.succ == g.succ[p := w] && r.pred == g.pred[w := p]
  {
    var x, p, w := L[k], Before(L, h, k), After(L, h, k);
    assert x != p && x != w;
  }

  /** After the splice, one member of the shortened ring points at its new neighbours. */
  lemma SpliceRingAt(g: Links, h: int, L: seq<int>, k: int, q: int)
    requires Ring(g, h, L) && 0 <= k < |L| && 0 <= q < |L| - 1
    ensures var r, M := Splice(g, L[k]), Without(L, k);
      r.succ[M[q]] == After(M, h, q) && r.pred[M[q]] == Before(M, h, q)
  {
    SpliceWrites(g, h, L, k);
    WithoutFacts(L, h, k);
    var M := Without(L, k);
    if q < k {
      if q + 1 < k { assert M[q + 1] == L[q + 1]; }
      if q > 0 { assert M[q - 1] == L[q - 1]; }
    } else {
      if q + 1 < |M| { assert M[q + 1] == L[q + 2]; }
      if q > k { assert M[q - 1] == L[q]; }
      if q == k && k > 0 { assert M[q - 1] == L[k - 1]; }
    }
  }

  /** After the splice, the head points at its new neighbours. */
  lemma SpliceRingHead(g: Links, h: int, L: seq<int>, k: int)
    requires Ring(g, h, L) && 0 <= k < |L|
    ensures var r, M := Splice(g, L[k]), Without(L, k);
      r.succ[h] == (if M == [] then h else M[0]) && r.pred[h] == (if M == [] then h else M[|M| - 1])
  {
    SpliceWrites(g, h, L, k);
    WithoutFacts(L, h, k);
    var M := Without(L, k);
    if |M| > 0 {
      if k == 0 { assert M[0] == L[1]; } else { assert M[0] == L[0]; }
      if k == |L| - 1 { assert M[|M| - 1] == L[|L| - 2]; } else { assert M[|M| - 1] == L[|L| - 1]; }
    }
  }

  /** Splicing L[k] out of its ring leaves a ring without it, changes only the successor of its
      predecessor and the predecessor of its successor, and leaves L[k]'s own links alone. */
  lemma SpliceRing(g: Links, h: int, L: seq<int>, k: int)
    requires Ring(g, h, L) && 0 <= k < |L|
    ensures Spliceable(g, L[k])
    ensures var r, p, w := Splice(g, L[k]), Before(L, h, k), After(L, h, k);
      Ring(r, h, Without(L, k)) &&
      r.succ == g.succ[p := w] && r.pred == g.pred[w := p]
  {
    SpliceWrites(g, h, L, k);
    WithoutShape(L, h, k, |g.succ|);
    SpliceRingHead(g, h, L, k);
    var r, M := Splice(g, L[k]), Without(L, k);
    forall q | 0 <= q < |M|
      ensures r.succ[M[q]] == After(M, h, q) && r.pred[M[q]] == Before(M, h, q)
    {
      SpliceRingAt(g, h, L, k, q);
    }
  }

  /** Splicing a ring member out and restoring it at once gives back the very same links. */
  lemma RestoreSplice(g: Links, h: int, L: seq<int>, k: int)
    requires Ring(g, h, L) && 0 <= k < |L|
    ensures Spliceable(g, L[k]) && Spliceable(Splice(g, L[k]), L[k])
    ensures Restore(Splice(g, L[k]), L[k]) == g
  {
    var x, p, w := L[k], Before(L, h, k), After(L, h, k);
    assert x != p && x != w;
    var r := Restore(Splice(g, x), x);
    assert r.succ == g.succ[p := w][p := x];
    assert r.succ == g.succ;
    assert r.pred == g.pred;
  }

  /** A ring whose head's and members' links are unchanged is still a ring. */
  lemma RingFrame(g: Links, g': Links, h: int, L: seq<int>)
    requires Ring(g, h, L) && |g'.succ| == |g.succ| && |g'.pred| == |g.pred|
    requires g'.succ[h] == g.succ[h] && g'.pred[h] == g.pred[h]
    requires forall k | 0 <= k < |L| :: g'.succ[L[k]] == g.succ[L[k]] && g'.pred[L[k]] == g.pred[L[k]]
    ensures Ring(g', h, L)
  {
  }

  /** Linking a buffer of distinct nodes cyclically, each to its neighbours, makes a ring from
      the first node through the others. */
  lemma LinkedRing(g: Links, B: seq<int>)
    requires |B| >= 2 && Distinct(B) && |g.pred| == |g.succ|
    requires forall t | 0 <= t < |B| :: 0 <= B[t] < |g.succ|
    requires forall t {:trigger g.succ[B[t]]} | 0 <= t < |B| ::
      g.succ[B[t]] == (if t == |B| - 1 then B[0] else B[t + 1])
    requires forall t {:trigger g.pred[B[t]]} | 0 <= t < |B| ::
      g.pred[B[t]] == (if t == 0 then B[|B| - 1] else B[t - 1])
    ensures Ring(g, B[0], B[1..])
  {
    var L := B[1..];
    assert forall k | 0 <= k < |L| :: L[k] == B[k + 1];
    assert g.succ[B[0]] == B[1] && g.pred[B[0]] == B[|B| - 1];
    forall k | 0 <= k < |L|
      ensures g.succ[L[k]] == After(L, B[0], k) && g.pred[L[k]] == Before(L, B[0], k)
    {
      assert L[k] == B[k + 1];
    }
  }
}
