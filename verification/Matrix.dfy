/** Matrices as flat row-major sequences of elements (scalars or quantized blocks), and the two ways
    src/nn/nn-core.cpp slices a matmul weight over the nodes. */
module Matrix {
  import opened Arith
  import opened Vectors

  /** `count` entries of `v` from the `k`-th group of `count`. */
  function Slice<T>(v: seq<T>, count: nat, k: nat): (s: seq<T>)
    requires Mul(k, count) + count <= |v|
    ensures |s| == count
  {
    v[Mul(k, count)..Mul(k, count) + count]
  }

  lemma SliceInside(k: nat, groups: nat, count: nat)
    requires k < groups
    ensures Mul(k, count) + count <= Mul(groups, count)
  {
    hide Mul;
    MulMonotone(k + 1, groups, count);
    MulNext(k, count);
  }

  /** Slicing a slice. */
  lemma SliceOfSlice<T>(v: seq<T>, count: nat, groups: nat, node: nat, i: nat)
    requires Mul(node, Mul(groups, count)) + Mul(groups, count) <= |v| && i < groups
    ensures Mul(i, count) + count <= Mul(groups, count) && Mul(Mul(node, groups) + i, count) + count <= |v|
    ensures Slice(Slice(v, Mul(groups, count), node), count, i) == Slice(v, count, Mul(node, groups) + i)
  {
    MulAssociative(node, groups, count);
    hide Mul;
    SliceInside(i, groups, count);
    MulDistributes(Mul(node, groups), i, count);
    PartOfPart(v, Mul(node, Mul(groups, count)), Mul(groups, count), Mul(i, count), count);
  }

  lemma PartOfPart<T>(v: seq<T>, a: nat, b: nat, c: nat, d: nat)
    requires a + b <= |v| && c + d <= b
    ensures v[a..a + b][c..c + d] == v[a + c..a + c + d]
  {
    var x, y := v[a..a + b][c..c + d], v[a + c..a + c + d];
    assert |x| == |y| && forall i | 0 <= i < d :: x[i] == v[a + (c + i)] == y[i];
  }

  /** The slices of `v`, one after the other, are `v`. */
  lemma {:induction false} SlicesRebuild<T>(v: seq<T>, count: nat, groups: nat, parts: seq<seq<T>>)
    requires |v| == Mul(groups, count) && |parts| == groups
    requires forall k: nat | k < groups :: Mul(k, count) + count <= |v| && parts[k] == Slice(v, count, k)
    ensures Concat(parts) == v
    decreases groups
  {
    hide Mul;
    if groups == 0 {
      MulNext(0, count);
    } else {
      var g := groups - 1;
      MulNext(g, count);
      SliceInside(g, groups, count);
      var w := v[..Mul(g, count)];
      forall k: nat | k < g
        ensures Mul(k, count) + count <= |w| && parts[..g][k] == Slice(w, count, k)
      {
        SliceInside(k, g, count);
        assert parts[k] == Slice(v, count, k);
      }
      SlicesRebuild(w, count, g, parts[..g]);
      assert parts[g] == Slice(v, count, g);
      assert v == w + Slice(v, count, g);
    }
  }

  /** The weight slice of splitRowMatmulWeight: `d0` consecutive rows of `n` elements. */
  function RowSlice<T>(w: seq<T>, n: nat, d0: nat, node: nat): (s: seq<T>)
    requires Mul(node, Mul(d0, n)) + Mul(d0, n) <= |w|
    ensures |s| == Mul(d0, n)
  {
    Slice(w, Mul(d0, n), node)
  }

  /** The weight slice of splitColMatmulWeight: `n0` consecutive elements of each of `d` rows. */
  function ColSlice<T>(w: seq<T>, n: nat, d: nat, n0: nat, node: nat): (s: seq<T>)
    requires |w| == Mul(d, n) && Mul(node, n0) + n0 <= n
    ensures |s| == Mul(d, n0)
  {
    if d == 0 then MulNext(0, n0); []
    else
      MulNext(d - 1, n);
      MulNext(d - 1, n0);
      ColSlice(w[..Mul(d - 1, n)], n, d - 1, n0, node) + Slice(Slice(w, n, d - 1), n0, node)
  }

  /** Row `i` of a column slice is the node's part of row `i`. */
  lemma {:induction false} ColSliceRow<T>(w: seq<T>, n: nat, d: nat, n0: nat, node: nat, i: nat)
    requires |w| == Mul(d, n) && Mul(node, n0) + n0 <= n && i < d
    ensures Mul(i, n) + n <= |w| && Mul(i, n0) + n0 <= Mul(d, n0)
    ensures Slice(ColSlice(w, n, d, n0, node), n0, i) == Slice(Slice(w, n, i), n0, node)
    decreases d
  {
    hide Mul;
    SliceInside(i, d, n);
    SliceInside(i, d, n0);
    MulNext(d - 1, n);
    MulNext(d - 1, n0);
    if i < d - 1 {
      var v := w[..Mul(d - 1, n)];
      ColSliceRow(v, n, d - 1, n0, node, i);
      assert Slice(v, n, i) == Slice(w, n, i);
      assert Slice(ColSlice(w, n, d, n0, node), n0, i) == Slice(ColSlice(v, n, d - 1, n0, node), n0, i);
    }
  }

  /** The matrix-vector product: one dot product a row. */
  function MatVec<TW, TX>(term: (TW, TX) -> real, w: seq<TW>, n: nat, d: nat, x: seq<TX>): (y: seq<real>)
    requires |w| == Mul(d, n) && |x| == n
    ensures |y| == d
  {
    if d == 0 then []
    else
      MulNext(d - 1, n);
      MatVec(term, w[..Mul(d - 1, n)], n, d - 1, x) + [Dot(term, Slice(w, n, d - 1), x)]
  }

  lemma {:induction false} MatVecAt<TW, TX>(term: (TW, TX) -> real, w: seq<TW>, n: nat, d: nat, x: seq<TX>, i: nat)
    requires |w| == Mul(d, n) && |x| == n && i < d
    ensures Mul(i, n) + n <= |w| && MatVec(term, w, n, d, x)[i] == Dot(term, Slice(w, n, i), x)
    decreases d
  {
    hide Mul, Dot;
    SliceInside(i, d, n);
    MulNext(d - 1, n);
    if i < d - 1 {
      var v := w[..Mul(d - 1, n)];
      MatVecAt(term, v, n, d - 1, x, i);
      assert Slice(v, n, i) == Slice(w, n, i);
    }
  }

  /** A row-sliced product is the node's part of the whole product. */
  lemma RowShard<TW, TX>(term: (TW, TX) -> real, w: seq<TW>, n: nat, d0: nat, nNodes: nat, x: seq<TX>, node: nat)
    requires |w| == Mul(Mul(nNodes, d0), n) && |x| == n && node < nNodes
    ensures Mul(node, Mul(d0, n)) + Mul(d0, n) <= |w| && Mul(node, d0) + d0 <= Mul(nNodes, d0)
    ensures MatVec(term, RowSlice(w, n, d0, node), n, d0, x)
         == Slice(MatVec(term, w, n, Mul(nNodes, d0), x), d0, node)
  {
    MulAssociative(node, d0, n);
    MulAssociative(nNodes, d0, n);
    hide Mul, Dot, MatVec;
    SliceInside(node, nNodes, Mul(d0, n));
    SliceInside(node, nNodes, d0);
    var part, whole := MatVec(term, RowSlice(w, n, d0, node), n, d0, x), MatVec(term, w, n, Mul(nNodes, d0), x);
    forall i | 0 <= i < d0
      ensures part[i] == Slice(whole, d0, node)[i]
    {
      var s := RowSlice(w, n, d0, node);
      MatVecAt(term, s, n, d0, x, i);
      MatVecAt(term, w, n, Mul(nNodes, d0), x, Mul(node, d0) + i);
      SliceOfSlice(w, n, d0, node, i);
    }
  }

  /** The sum of `f` over the first `n` nodes, added in node order. */
  function SumNodes(f: nat -> real, n: nat): real {
    if n == 0 then 0.0 else SumNodes(f, n - 1) + f(n - 1)
  }

  lemma {:induction false} SumNodesEqual(f: nat -> real, g: nat -> real, n: nat)
    requires forall k: nat | k < n :: f(k) == g(k)
    ensures SumNodes(f, n) == SumNodes(g, n)
  {
    if n > 0 {
      SumNodesEqual(f, g, n - 1);
    }
  }

  /** The dot product over a node's part of both sides. */
  function DotParts<TW, TX>(term: (TW, TX) -> real, r: seq<TW>, x: seq<TX>, n0: nat): nat -> real {
    (node: nat) => if Mul(node, n0) + n0 <= |r| == |x| then Dot(term, Slice(r, n0, node), Slice(x, n0, node)) else 0.0
  }

  lemma {:induction false} DotShard<TW, TX>(term: (TW, TX) -> real, r: seq<TW>, x: seq<TX>, n0: nat, nNodes: nat)
    requires Mul(nNodes, n0) <= |r| == |x|
    ensures Dot(term, r[..Mul(nNodes, n0)], x[..Mul(nNodes, n0)]) == SumNodes(DotParts(term, r, x, n0), nNodes)
    decreases nNodes
  {
    if nNodes == 0 {
      assert r[..Mul(nNodes, n0)] == [] && x[..Mul(nNodes, n0)] == [];
    } else {
      DotShardStep(term, r, x, n0, nNodes - 1);
    }
  }

  lemma DotShardStep<TW, TX>(term: (TW, TX) -> real, r: seq<TW>, x: seq<TX>, n0: nat, k: nat)
    requires Mul(k + 1, n0) <= |r| == |x|
    ensures Dot(term, r[..Mul(k + 1, n0)], x[..Mul(k + 1, n0)]) == SumNodes(DotParts(term, r, x, n0), k + 1)
    decreases k + 1, 0
  {
    hide Mul, Dot;
    MulNext(k, n0);
    DotShard(term, r, x, n0, k);
    var m := Mul(k, n0);
    var u, v := Slice(r, n0, k), Slice(x, n0, k);
    DotConcat(term, r[..m], x[..m], u, v);
    assert r[..m + n0] == r[..m] + u;
    assert x[..m + n0] == x[..m] + v;
  }

  /** Entry `i` of the partial product of one node. */
  function Partials<TW, TX>(term: (TW, TX) -> real, w: seq<TW>, n: nat, d: nat, n0: nat, x: seq<TX>, i: nat): nat -> real {
    (node: nat) =>
      if |w| == Mul(d, n) && |x| == n && Mul(node, n0) + n0 <= n && i < d
      then MatVec(term, ColSlice(w, n, d, n0, node), n0, d, Slice(x, n0, node))[i] else 0.0
  }

  /** The partial products of the column slices add up to the whole product. */
  lemma ColShard<TW, TX>(term: (TW, TX) -> real, w: seq<TW>, n: nat, d: nat, n0: nat, nNodes: nat, x: seq<TX>, i: nat)
    requires n == Mul(nNodes, n0) && |w| == Mul(d, n) && |x| == n && i < d
    ensures SumNodes(Partials(term, w, n, d, n0, x, i), nNodes) == MatVec(term, w, n, d, x)[i]
  {
    hide Mul, Dot, MatVec, ColSlice;
    MatVecAt(term, w, n, d, x, i);
    var r := Slice(w, n, i);
    var f, g := Partials(term, w, n, d, n0, x, i), DotParts(term, r, x, n0);
    forall k: nat | k < nNodes
      ensures f(k) == g(k)
    {
      SliceInside(k, nNodes, n0);
      MatVecAt(term, ColSlice(w, n, d, n0, k), n0, d, Slice(x, n0, k), i);
      ColSliceRow(w, n, d, n0, k, i);
    }
    SumNodesEqual(f, g, nNodes);
    DotShard(term, r, x, n0, nNodes);
    assert r[..n] == r && x[..n] == x;
  }
}
