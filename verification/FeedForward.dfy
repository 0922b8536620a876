/** The feed-forward block of src/llm.cpp over any number of nodes: row-sliced W1 and W3, the gate,
    column-sliced W2, the slice exchange and the merge-add. */
module FeedForward {
  import opened Arith
  import opened Vectors
  import opened Matrix

  /** Block-wise conversion of `nb` blocks of `B` values to the activation type of the next matmul. */
  function Cast<TX>(castBlock: seq<real> -> TX, B: nat, v: seq<real>, nb: nat): (c: seq<TX>)
    requires |v| == Mul(nb, B)
    ensures |c| == nb
  {
    if nb == 0 then []
    else
      MulNext(nb - 1, B);
      Cast(castBlock, B, v[..Mul(nb - 1, B)], nb - 1) + [castBlock(Slice(v, B, nb - 1))]
  }

  lemma {:induction false} CastAt<TX>(castBlock: seq<real> -> TX, B: nat, v: seq<real>, nb: nat, i: nat)
    requires |v| == Mul(nb, B) && i < nb
    ensures Mul(i, B) + B <= |v| && Cast(castBlock, B, v, nb)[i] == castBlock(Slice(v, B, i))
    decreases nb
  {
    hide Mul;
    SliceInside(i, nb, B);
    MulNext(nb - 1, B);
    if i < nb - 1 {
      var u := v[..Mul(nb - 1, B)];
      CastAt(castBlock, B, u, nb - 1, i);
      assert Slice(u, B, i) == Slice(v, B, i);
    }
  }

  /** Converting a node's part is the node's part of the conversion, when parts are whole blocks. */
  lemma CastShard<TX>(castBlock: seq<real> -> TX, B: nat, v: seq<real>, m: nat, nNodes: nat, node: nat)
    requires |v| == Mul(Mul(nNodes, m), B) && node < nNodes
    ensures Mul(node, Mul(m, B)) + Mul(m, B) <= |v| && Mul(node, m) + m <= Mul(nNodes, m)
    ensures Cast(castBlock, B, Slice(v, Mul(m, B), node), m) == Slice(Cast(castBlock, B, v, Mul(nNodes, m)), m, node)
  {
    MulAssociative(nNodes, m, B);
    hide Mul, Cast;
    SliceInside(node, nNodes, Mul(m, B));
    SliceInside(node, nNodes, m);
    var part, whole := Slice(v, Mul(m, B), node), Cast(castBlock, B, v, Mul(nNodes, m));
    forall i | 0 <= i < m
      ensures Cast(castBlock, B, part, m)[i] == Slice(whole, m, node)[i]
    {
      CastAt(castBlock, B, part, m, i);
      CastAt(castBlock, B, v, Mul(nNodes, m), Mul(node, m) + i);
      SliceOfSlice(v, B, m, node, i);
    }
  }

  /** The activation of one vector times another, entry by entry. */
  function Gate(act: real -> real, a: seq<real>, b: seq<real>): (g: seq<real>)
    requires |a| == |b|
    ensures |g| == |a| && forall i | 0 <= i < |g| :: g[i] == act(a[i]) * b[i]
  {
    seq(|a|, i requires 0 <= i < |a| => act(a[i]) * b[i])
  }

  lemma GateShard(act: real -> real, a: seq<real>, b: seq<real>, count: nat, node: nat)
    requires |a| == |b| && Mul(node, count) + count <= |a|
    ensures Gate(act, Slice(a, count, node), Slice(b, count, node)) == Slice(Gate(act, a, b), count, node)
  {
    hide Gate, Mul;
    var part, whole := Gate(act, Slice(a, count, node), Slice(b, count, node)), Slice(Gate(act, a, b), count, node);
    forall i | 0 <= i < count
      ensures part[i] == whole[i]
    {
      var j := Mul(node, count) + i;
      assert Slice(a, count, node)[i] == a[j] && Slice(b, count, node)[i] == b[j];
    }
    assert part == whole;
  }

  /** merge_add: the partial outputs of all nodes on top of `x`, entry by entry. */
  function MergeAdd(x: seq<real>, partial: nat -> seq<real>, nNodes: nat): (y: seq<real>)
    ensures |y| == |x| && forall i | 0 <= i < |x| :: y[i] == x[i] + SumNodes(Entry(partial, i), nNodes)
  {
    seq(|x|, i requires 0 <= i < |x| => x[i] + SumNodes(Entry(partial, i), nNodes))
  }

  function Entry(partial: nat -> seq<real>, i: nat): nat -> real {
    (node: nat) => if i < |partial(node)| then partial(node)[i] else 0.0
  }

  /** Partial outputs whose sums are the entries of `z` merge to x + z. */
  lemma MergesTo(x: seq<real>, partial: nat -> seq<real>, nNodes: nat, z: seq<real>, term: nat -> (nat -> real))
    requires |z| == |x|
    requires forall i: nat, k: nat | i < |x| && k < nNodes :: Entry(partial, i)(k) == term(i)(k)
    requires forall i: nat | i < |x| :: SumNodes(term(i), nNodes) == z[i]
    ensures forall i | 0 <= i < |x| :: MergeAdd(x, partial, nNodes)[i] == x[i] + z[i]
  {
    forall i: nat | i < |x|
      ensures MergeAdd(x, partial, nNodes)[i] == x[i] + z[i]
    {
      SumNodesEqual(Entry(partial, i), term(i), nNodes);
    }
  }

  /** W1 and W3 have `hiddenBlocks * B` rows of `n` elements, W2 has `dim` rows of `hiddenBlocks`. */
  datatype FeedForward<!TW, !TX> = FeedForward(
    term: (TW, TX) -> real, castBlock: seq<real> -> TX, B: nat, act: real -> real,
    dim: nat, n: nat, hiddenBlocks: nat, w1: seq<TW>, w2: seq<TW>, w3: seq<TW>)
  {
    ghost predicate Fits() {
      |w1| == |w3| == Mul(Mul(hiddenBlocks, B), n) && |w2| == Mul(dim, hiddenBlocks)
    }

    /** The block on one node, unsharded: x + W2 (act(W1 y) * (W3 y)). */
    function OneNode(x: seq<real>, y: seq<TX>): (r: seq<real>)
      requires Fits() && |x| == dim && |y| == n
      ensures |r| == dim
    {
      var h := Gate(act, MatVec(term, w1, n, Mul(hiddenBlocks, B), y), MatVec(term, w3, n, Mul(hiddenBlocks, B), y));
      var z := MatVec(term, w2, hiddenBlocks, dim, Cast(castBlock, B, h, hiddenBlocks));
      seq(dim, i requires 0 <= i < dim => x[i] + z[i])
    }

    /** The block, op by op: the activation of W1 y times W3 y, converted, goes through W2 on top of `x`. */
    lemma BlockIs(x: seq<real>, y: seq<TX>, h: seq<real>, i: nat)
      requires Fits() && |x| == dim && |y| == n && i < dim && |h| == Mul(hiddenBlocks, B)
      requires forall j: nat | j < |h| ::
                 && Mul(j, n) + n <= |w1|
                 && h[j] == act(Dot(term, Slice(w1, n, j), y)) * Dot(term, Slice(w3, n, j), y)
      ensures Mul(i, hiddenBlocks) + hiddenBlocks <= |w2|
      ensures OneNode(x, y)[i] == x[i] + Dot(term, Slice(w2, hiddenBlocks, i), Cast(castBlock, B, h, hiddenBlocks))
    {
      hide Mul, MatVec, Cast, Slice, Dot;
      var a, b := MatVec(term, w1, n, Mul(hiddenBlocks, B), y), MatVec(term, w3, n, Mul(hiddenBlocks, B), y);
      forall j: nat | j < |h|
        ensures h[j] == Gate(act, a, b)[j]
      {
        MatVecAt(term, w1, n, Mul(hiddenBlocks, B), y, j);
        MatVecAt(term, w3, n, Mul(hiddenBlocks, B), y, j);
      }
      assert h == Gate(act, a, b);
      MatVecAt(term, w2, hiddenBlocks, dim, Cast(castBlock, B, h, hiddenBlocks), i);
    }

    /** What node `node` of `nNodes` computes from its weight slices: `m` blocks of the hidden vector. */
    function NodeHidden(m: nat, node: nat, y: seq<TX>): (h: seq<real>)
      requires Fits() && |y| == n && Mul(node, Mul(Mul(m, B), n)) + Mul(Mul(m, B), n) <= |w1|
      ensures |h| == Mul(m, B)
    {
      var d0 := Mul(m, B);
      Gate(act, MatVec(term, RowSlice(w1, n, d0, node), n, d0, y), MatVec(term, RowSlice(w3, n, d0, node), n, d0, y))
    }

    function NodeOutput(m: nat, node: nat, y: seq<TX>): (z: seq<real>)
      requires Fits() && |y| == n && Mul(node, Mul(Mul(m, B), n)) + Mul(Mul(m, B), n) <= |w1|
      requires Mul(node, m) + m <= hiddenBlocks
      ensures |z| == dim
    {
      MatVec(term, ColSlice(w2, hiddenBlocks, dim, m, node), m, dim, Cast(castBlock, B, NodeHidden(m, node, y), m))
    }

    lemma Inside(m: nat, nNodes: nat, node: nat)
      requires Fits() && hiddenBlocks == Mul(nNodes, m) && node < nNodes
      ensures Mul(node, Mul(Mul(m, B), n)) + Mul(Mul(m, B), n) <= |w1| && Mul(node, m) + m <= hiddenBlocks
      ensures Mul(hiddenBlocks, B) == Mul(nNodes, Mul(m, B)) && |w1| == Mul(Mul(nNodes, Mul(m, B)), n)
    {
      MulAssociative(nNodes, m, B);
      MulAssociative(nNodes, Mul(m, B), n);
      hide Mul;
      SliceInside(node, nNodes, m);
      SliceInside(node, nNodes, Mul(Mul(m, B), n));
    }

    /** What every node holds after exchanging slices and merging. */
    function Sharded(m: nat, nNodes: nat, x: seq<real>, y: seq<TX>): (r: seq<real>)
      requires Fits() && |x| == dim && |y| == n && hiddenBlocks == Mul(nNodes, m)
      ensures |r| == dim
    {
      MergeAdd(x, (node: nat) => if node < nNodes then Inside(m, nNodes, node); NodeOutput(m, node, y) else [], nNodes)
    }

    /** The hidden vector of a node is its part of the whole hidden vector. */
    lemma HiddenShard(m: nat, nNodes: nat, node: nat, y: seq<TX>)
      requires Fits() && |y| == n && hiddenBlocks == Mul(nNodes, m) && node < nNodes
      ensures Mul(node, Mul(m, B)) + Mul(m, B) <= Mul(hiddenBlocks, B)
      ensures Mul(node, Mul(Mul(m, B), n)) + Mul(Mul(m, B), n) <= |w1|
      ensures NodeHidden(m, node, y)
           == Slice(Gate(act, MatVec(term, w1, n, Mul(hiddenBlocks, B), y), MatVec(term, w3, n, Mul(hiddenBlocks, B), y)),
                    Mul(m, B), node)
    {
      hide Mul, MatVec, Gate, Slice, RowSlice;
      var d0 := Mul(m, B);
      Inside(m, nNodes, node);
      SliceInside(node, nNodes, d0);
      RowShard(term, w1, n, d0, nNodes, y, node);
      RowShard(term, w3, n, d0, nNodes, y, node);
      var a, b := MatVec(term, w1, n, Mul(hiddenBlocks, B), y), MatVec(term, w3, n, Mul(hiddenBlocks, B), y);
      GateShard(act, a, b, d0, node);
    }

    /** The sharded block gives what one node gives, for every number of nodes that divides the blocks
        of the hidden vector. */
    lemma ShardedEqualsOneNode(m: nat, nNodes: nat, x: seq<real>, y: seq<TX>)
      requires Fits() && |x| == dim && |y| == n && hiddenBlocks == Mul(nNodes, m)
      ensures Sharded(m, nNodes, x, y) == OneNode(x, y)
    {
      hide Mul, MatVec, Cast, Gate, ColSlice, RowSlice;
      var h := Gate(act, MatVec(term, w1, n, Mul(hiddenBlocks, B), y), MatVec(term, w3, n, Mul(hiddenBlocks, B), y));
      var hq := Cast(castBlock, B, h, hiddenBlocks);
      var z := MatVec(term, w2, hiddenBlocks, dim, hq);
      var partial := (node: nat) => if node < nNodes then Inside(m, nNodes, node); NodeOutput(m, node, y) else [];
      var sums := (i: nat) => Partials(term, w2, hiddenBlocks, dim, m, hq, i);
      forall node: nat | node < nNodes
        ensures Mul(node, m) + m <= hiddenBlocks
        ensures partial(node) == MatVec(term, ColSlice(w2, hiddenBlocks, dim, m, node), m, dim, Slice(hq, m, node))
      {
        Inside(m, nNodes, node);
        HiddenShard(m, nNodes, node, y);
        CastShard(castBlock, B, h, m, nNodes, node);
      }
      forall i: nat | i < dim
        ensures SumNodes(sums(i), nNodes) == z[i]
      {
        ColShard(term, w2, hiddenBlocks, dim, m, nNodes, hq, i);
      }
      MergesTo(x, partial, nNodes, z, sums);
      assert Sharded(m, nNodes, x, y) == MergeAdd(x, partial, nNodes);
    }
  }
}
