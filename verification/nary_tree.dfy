/** The edge list `N_ary_tree` builds: vertices are given in level order, so
    vertex `e + 1` hangs under vertex `e // num_child`. */
module NaryTrees {

  /** A parent→child pair of vertex indices. */
  datatype Edge = Edge(parent: nat, child: nat)

  /** The comprehension `[(e // k, e + 1) for e in range(n - 1)]` for `n` vertices
      and arity `k`. For `n == 0` the range is empty. Both operands are
      non-negative, so Python's floor division agrees with Dafny's `/`. */
  function Edges(n: nat, k: nat): (es: seq<Edge>)
    requires k >= 1
    ensures |es| == if n == 0 then 0 else n - 1
  {
    seq(if n == 0 then 0 else n - 1, (e: int) requires 0 <= e => Edge(e / k, e + 1))
  }

  /** The vertices `lo .. hi-1`. */
  function RangeSet(lo: int, hi: int): (r: set<int>)
    ensures forall j :: j in r <==> lo <= j < hi
    ensures |r| == if lo <= hi then hi - lo else 0
    decreases hi - lo
  {
    if hi <= lo then {} else {lo} + RangeSet(lo + 1, hi)
  }

  /** The vertices that appear as the child of some edge. */
  function Children(es: seq<Edge>): set<int>
  {
    set e | e in es :: e.child as int
  }

  /** The children of vertex `p`. */
  function ChildrenOfVertex(es: seq<Edge>, p: nat): set<int>
  {
    set e | e in es && e.parent == p :: e.child as int
  }

  /** Vertex 0 is the only vertex with no incoming edge: the children are exactly
      the vertices `1..n-1`, and no vertex is the child of two edges. */
  lemma ChildrenAreNonRootVertices(n: nat, k: nat)
    requires k >= 1
    ensures Children(Edges(n, k)) == RangeSet(1, n)
    ensures forall i, i' :: 0 <= i < i' < |Edges(n, k)| ==> Edges(n, k)[i].child != Edges(n, k)[i'].child
  {
    var es := Edges(n, k);
    forall j | j in RangeSet(1, n)
      ensures j in Children(es)
    {
      assert es[j - 1] in es;
    }
  }

  /** Every edge points from a vertex to a later vertex of the tree, so following
      edges can never return to where it started. */
  lemma ParentPrecedesChild(n: nat, k: nat)
    requires k >= 1
    ensures forall e :: e in Edges(n, k) ==> e.parent < e.child < n
  {
    var es := Edges(n, k);
    forall e | e in es
      ensures e.parent < e.child < n
    {
      var i :| 0 <= i < |es| && es[i] == e;
      DivBounds(i, k);
    }
  }

  /** The parent of vertex `j >= 1` is `(j - 1) // k`, and it is its only parent. */
  lemma ParentOf(n: nat, k: nat, j: nat)
    requires k >= 1
    requires 1 <= j < n
    ensures Edge((j - 1) / k, j) in Edges(n, k)
    ensures forall e :: e in Edges(n, k) && e.child == j ==> e.parent == (j - 1) / k
  {
    assert Edges(n, k)[j - 1] == Edge((j - 1) / k, j);
  }

  /** The children of vertex `p` are `p*k+1 .. p*k+k`, cut off at the last
      vertex `n - 1`. */
  lemma ChildrenOf(n: nat, k: nat, p: nat)
    requires k >= 1
    ensures ChildrenOfVertex(Edges(n, k), p) == RangeSet(p * k + 1, Min(n, p * k + k + 1))
  {
    var lo := p * k + 1;
    var hi := Min(n, lo + k);
    var kids := ChildrenOfVertex(Edges(n, k), p);
    var slots := RangeSet(lo, hi);
    forall j
      ensures j in kids <==> j in slots
    {
      ChildSlot(n, k, p, j);
    }
    assert kids == slots;
  }

  /** No vertex has more than `k` children. */
  lemma AtMostKChildren(n: nat, k: nat, p: nat)
    requires k >= 1
    ensures |ChildrenOfVertex(Edges(n, k), p)| <= k
  {
    ChildrenOf(n, k, p);
  }

  function Min(a: int, b: int): int
  {
    if a < b then a else b
  }

  /** Membership of one vertex `j` among the children of `p`. */
  lemma ChildSlot(n: nat, k: nat, p: nat, j: int)
    requires k >= 1
    ensures j in ChildrenOfVertex(Edges(n, k), p) <==> 1 <= j < n && p * k + 1 <= j <= p * k + k
  {
    var es := Edges(n, k);
    if j in ChildrenOfVertex(es, p) {
      var e :| e in es && e.parent == p && e.child == j;
      var i :| 0 <= i < |es| && es[i] == e;
      DivBounds(i, k);
    }
    if 1 <= j < n && p * k + 1 <= j <= p * k + k {
      DivExact(j - 1, k, p);
      assert es[j - 1] in es;
    }
  }

  /** Euclidean division of a natural number by a positive arity. */
  lemma DivBounds(i: nat, k: nat)
    requires k >= 1
    ensures (i / k) * k <= i < (i / k) * k + k
    ensures i / k <= i
  {
    var q := i / k;
    assert i == k * q + i % k;
    MulMonotone(k, q);
  }

  lemma DivExact(i: nat, k: nat, p: nat)
    requires k >= 1 && p * k <= i < p * k + k
    ensures i / k == p
  {
    var q := i / k;
    assert i == k * q + i % k;
    var d := q - p;
    assert k * d == k * q - k * p;
    MulMonotone(k, d);
    MulMonotone(k, -d);
  }

  lemma MulMonotone(k: nat, d: int)
    requires k >= 1
    ensures d >= 1 ==> k * d >= k
    ensures d >= 0 ==> k * d >= d
  {
  }

  /** The chain of parents from vertex `v` up to the root 0. */
  function PathToRoot(v: nat, k: nat): (path: seq<nat>)
    requires k >= 1
    ensures |path| >= 1 && path[0] == v && path[|path| - 1] == 0
    ensures forall i :: 0 <= i < |path| - 1 ==> path[i + 1] < path[i]
    decreases v
  {
    if v == 0 then [0] else [v] + PathToRoot((v - 1) / k, k)
  }

  /** Every vertex is joined to the root 0 by edges of the list. Together with
      the edge count `n - 1`, this makes the edges a tree rooted at 0. */
  lemma {:induction false} EveryVertexReachesRoot(n: nat, k: nat, v: nat)
    requires k >= 1
    requires v < n
    ensures forall i :: 0 <= i < |PathToRoot(v, k)| - 1 ==>
      Edge(PathToRoot(v, k)[i + 1], PathToRoot(v, k)[i]) in Edges(n, k)
    decreases v
  {
    if v > 0 {
      var path := PathToRoot(v, k);
      var u := (v - 1) / k;
      EveryVertexReachesRoot(n, k, u);
      ParentOf(n, k, v);
      assert path == [v] + PathToRoot(u, k);
      forall i | 0 <= i < |path| - 1
        ensures Edge(path[i + 1], path[i]) in Edges(n, k)
      {
        if i > 0 {
          assert path[i] == PathToRoot(u, k)[i - 1];
          assert path[i + 1] == PathToRoot(u, k)[i];
        }
      }
    }
  }
}
