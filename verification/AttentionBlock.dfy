/** The attention block of src/llm.cpp on one node and on any number of nodes that divides the
    key-value heads. */
module AttentionBlock {
  import opened Arith
  import opened Vectors
  import opened Matrix
  import opened Rope
  import opened Attention
  import opened FeedForward

  /** The activations `ys[t]` of the positions in order; the last one is the position computed. */
  datatype AttentionBlock<!TW, !TX> = AttentionBlock(
    term: (TW, TX) -> real, castBlock: seq<real> -> TX, B: nat, kn: Kernel, angles: Angles,
    dim: nat, n: nat, nKvHeads: nat, kvMul: nat, headSize: nat, outBlocks: nat,
    wq: seq<TW>, wk: seq<TW>, wv: seq<TW>, wo: seq<TW>)
  {
    function NHeads(kvHeads: nat): nat {
      Mul(kvHeads, kvMul)
    }

    /** Query and key-value widths of `kvHeads` key-value heads. */
    function QDim(kvHeads: nat): nat {
      Mul(NHeads(kvHeads), headSize)
    }

    function KvDim(kvHeads: nat): nat {
      Mul(kvHeads, headSize)
    }

    ghost predicate Fits() {
      && kn.Valid() && headSize > 0 && kvMul > 0 && QDim(nKvHeads) % 2 == 0 && KvDim(nKvHeads) % 2 == 0
      && |wq| == Mul(QDim(nKvHeads), n) && |wk| == |wv| == Mul(KvDim(nKvHeads), n)
      && Mul(outBlocks, B) == QDim(nKvHeads) && |wo| == Mul(dim, outBlocks)
    }

    ghost predicate Inputs(x: seq<real>, ys: seq<seq<TX>>) {
      |x| == dim && ys != [] && forall t | 0 <= t < |ys| :: |ys[t]| == n
    }

    /** A rotated projection: the rows of `w` from global dimension `start` on. */
    function Projected(w: seq<TW>, d: nat, start: nat, pos: nat, y: seq<TX>): (v: seq<real>)
      requires |w| == Mul(d, n) && |y| == n && headSize > 0 && d % 2 == 0 && start % 2 == 0
      ensures |v| == d
    {
      Rotate(angles, headSize, pos, start, MatVec(term, w, n, d, y))
    }

    ghost function Query(ys: seq<seq<TX>>): (q: seq<real>)
      requires Fits() && ys != [] && forall t | 0 <= t < |ys| :: |ys[t]| == n
      ensures |q| == QDim(nKvHeads)
    {
      Projected(wq, QDim(nKvHeads), 0, |ys| - 1, ys[|ys| - 1])
    }

    ghost function Keys(ys: seq<seq<TX>>): (rows: seq<seq<real>>)
      requires Fits() && forall t | 0 <= t < |ys| :: |ys[t]| == n
      ensures |rows| == |ys| && Width(rows, KvDim(nKvHeads))
    {
      seq(|ys|, t requires 0 <= t < |ys| => Projected(wk, KvDim(nKvHeads), 0, t, ys[t]))
    }

    ghost function Values(ys: seq<seq<TX>>): (rows: seq<seq<real>>)
      requires Fits() && forall t | 0 <= t < |ys| :: |ys[t]| == n
      ensures |rows| == |ys| && Width(rows, KvDim(nKvHeads))
    {
      seq(|ys|, t requires 0 <= t < |ys| => MatVec(term, wv, n, KvDim(nKvHeads), ys[t]))
    }

    lemma Whole(ys: seq<seq<TX>>)
      requires Fits() && ys != [] && forall t | 0 <= t < |ys| :: |ys[t]| == n
      ensures Attention.Fits(Query(ys), Keys(ys), Values(ys), NHeads(nKvHeads), kvMul, headSize)
    {
      var q, d := QDim(nKvHeads), KvDim(nKvHeads);
      assert Mul(1, q) == q && Mul(1, d) == d && Mul(1, NHeads(nKvHeads)) == NHeads(nKvHeads);
      hide Mul, MatVec, Rotate;
      GlobalFits(Query(ys), Keys(ys), Values(ys), nKvHeads, kvMul, headSize, 1);
    }

    ghost function HeadsOut(ys: seq<seq<TX>>): (o: seq<real>)
      requires Fits() && ys != [] && forall t | 0 <= t < |ys| :: |ys[t]| == n
      ensures |o| == QDim(nKvHeads)
    {
      Whole(ys);
      Heads(kn, Query(ys), Keys(ys), Values(ys), NHeads(nKvHeads), kvMul, headSize)
    }

    /** The block on one node. */
    ghost function OneNode(x: seq<real>, ys: seq<seq<TX>>): (r: seq<real>)
      requires Fits() && Inputs(x, ys)
      ensures |r| == dim
    {
      var z := MatVec(term, wo, outBlocks, dim, Cast(castBlock, B, HeadsOut(ys), outBlocks));
      seq(dim, i requires 0 <= i < dim => x[i] + z[i])
    }

    /** The block, op by op: query and keys are rotated projections of the activations with the angles of their
        positions, values are projections, and the heads over them, converted, go through Wo on top of `x`. */
    lemma BlockIs(x: seq<real>, ys: seq<seq<TX>>, q: seq<real>, ks: seq<seq<real>>, vs: seq<seq<real>>, i: nat)
      requires Fits() && Inputs(x, ys) && i < dim && |ks| == |vs| == |ys|
      requires q == Rotate(angles, headSize, |ys| - 1, 0, MatVec(term, wq, n, QDim(nKvHeads), ys[|ys| - 1]))
      requires forall t | 0 <= t < |ys| :: ks[t] == Rotate(angles, headSize, t, 0, MatVec(term, wk, n, KvDim(nKvHeads), ys[t]))
      requires forall t | 0 <= t < |ys| :: vs[t] == MatVec(term, wv, n, KvDim(nKvHeads), ys[t])
      ensures Attention.Fits(q, ks, vs, NHeads(nKvHeads), kvMul, headSize)
      ensures Mul(i, outBlocks) + outBlocks <= |wo|
      ensures OneNode(x, ys)[i]
           == x[i] + Dot(term, Slice(wo, outBlocks, i),
                         Cast(castBlock, B, Heads(kn, q, ks, vs, NHeads(nKvHeads), kvMul, headSize), outBlocks))
    {
      Whole(ys);
      hide Mul, MatVec, Rotate, Heads, Cast, Attention.Fits, Slice;
      assert q == Query(ys);
      assert ks == Keys(ys);
      assert vs == Values(ys);
      MatVecAt(term, wo, outBlocks, dim, Cast(castBlock, B, HeadsOut(ys), outBlocks), i);
    }

    /** The block on one node, from its input at `pos` and cached rows. */
    ghost function FromRows(x: seq<real>, pos: nat, y: seq<TX>, keys: seq<seq<real>>, values: seq<seq<real>>): (r: seq<real>)
      requires Fits() && |x| == dim && |y| == n
      requires Attention.Fits(Projected(wq, QDim(nKvHeads), 0, pos, y), keys, values, NHeads(nKvHeads), kvMul, headSize)
      ensures |r| == dim
    {
      var o := Heads(kn, Projected(wq, QDim(nKvHeads), 0, pos, y), keys, values, NHeads(nKvHeads), kvMul, headSize);
      var z := MatVec(term, wo, outBlocks, dim, Cast(castBlock, B, o, outBlocks));
      seq(dim, i requires 0 <= i < dim => x[i] + z[i])
    }

    lemma OneNodeFromRows(x: seq<real>, ys: seq<seq<TX>>)
      requires Fits() && Inputs(x, ys)
      ensures Attention.Fits(Query(ys), Keys(ys), Values(ys), NHeads(nKvHeads), kvMul, headSize)
      ensures OneNode(x, ys) == FromRows(x, |ys| - 1, ys[|ys| - 1], Keys(ys), Values(ys))
    {
      Whole(ys);
      hide Mul, MatVec, Rotate, Heads, Cast;
    }

    /** `groups` key-value heads and `m` output blocks a node. */
    ghost predicate Divides(groups: nat, m: nat, nNodes: nat) {
      && nNodes > 0 && nKvHeads == Mul(nNodes, groups) && outBlocks == Mul(nNodes, m)
      && QDim(groups) % 2 == 0 && KvDim(groups) % 2 == 0
    }

    lemma Shares(groups: nat, m: nat, nNodes: nat, node: nat)
      requires Fits() && Divides(groups, m, nNodes) && node < nNodes
      ensures QDim(nKvHeads) == Mul(nNodes, QDim(groups)) && KvDim(nKvHeads) == Mul(nNodes, KvDim(groups))
      ensures NHeads(nKvHeads) == Mul(nNodes, NHeads(groups)) && QDim(groups) == Mul(m, B)
      ensures Mul(node, Mul(QDim(groups), n)) + Mul(QDim(groups), n) <= |wq|
      ensures Mul(node, Mul(KvDim(groups), n)) + Mul(KvDim(groups), n) <= |wk|
      ensures Mul(node, m) + m <= outBlocks
      ensures Mul(node, QDim(groups)) % 2 == 0 && Mul(node, KvDim(groups)) % 2 == 0
    {
      MulAssociative(nNodes, groups, kvMul);
      MulAssociative(nNodes, groups, headSize);
      MulAssociative(nNodes, NHeads(groups), headSize);
      MulAssociative(nNodes, m, B);
      MulAssociative(nNodes, QDim(groups), n);
      MulAssociative(nNodes, KvDim(groups), n);
      EvenTimes(QDim(groups), node);
      EvenTimes(KvDim(groups), node);
      MulNext(QDim(groups), node);
      MulNext(KvDim(groups), node);
      hide Mul;
      MulCancels(nNodes, QDim(groups), Mul(m, B));
      SliceInside(node, nNodes, Mul(QDim(groups), n));
      SliceInside(node, nNodes, Mul(KvDim(groups), n));
      SliceInside(node, nNodes, m);
    }

    /** What a node computes from its weight slices: its query, and the rows of its cache. */
    ghost function NodeQuery(groups: nat, node: nat, ys: seq<seq<TX>>): (q: seq<real>)
      requires Fits() && ys != [] && (forall t | 0 <= t < |ys| :: |ys[t]| == n) && QDim(groups) % 2 == 0
      requires Mul(node, Mul(QDim(groups), n)) + Mul(QDim(groups), n) <= |wq| && Mul(node, QDim(groups)) % 2 == 0
      ensures |q| == QDim(groups)
    {
      Projected(RowSlice(wq, n, QDim(groups), node), QDim(groups), Mul(node, QDim(groups)), |ys| - 1, ys[|ys| - 1])
    }

    ghost function NodeKeys(groups: nat, node: nat, ys: seq<seq<TX>>): (rows: seq<seq<real>>)
      requires Fits() && (forall t | 0 <= t < |ys| :: |ys[t]| == n) && KvDim(groups) % 2 == 0
      requires Mul(node, Mul(KvDim(groups), n)) + Mul(KvDim(groups), n) <= |wk| && Mul(node, KvDim(groups)) % 2 == 0
      ensures |rows| == |ys|
    {
      seq(|ys|, t requires 0 <= t < |ys| =>
        Projected(RowSlice(wk, n, KvDim(groups), node), KvDim(groups), Mul(node, KvDim(groups)), t, ys[t]))
    }

    ghost function NodeValues(groups: nat, node: nat, ys: seq<seq<TX>>): (rows: seq<seq<real>>)
      requires Fits() && forall t | 0 <= t < |ys| :: |ys[t]| == n
      requires Mul(node, Mul(KvDim(groups), n)) + Mul(KvDim(groups), n) <= |wv|
      ensures |rows| == |ys|
    {
      seq(|ys|, t requires 0 <= t < |ys| => MatVec(term, RowSlice(wv, n, KvDim(groups), node), n, KvDim(groups), ys[t]))
    }

    lemma ProjectedShard(w: seq<TW>, d0: nat, nNodes: nat, node: nat, pos: nat, y: seq<TX>)
      requires |w| == Mul(Mul(nNodes, d0), n) && |y| == n && headSize > 0 && d0 % 2 == 0 && Mul(nNodes, d0) % 2 == 0 && node < nNodes
      requires Mul(node, Mul(d0, n)) + Mul(d0, n) <= |w| && Mul(node, d0) % 2 == 0
      ensures Mul(node, d0) + d0 <= Mul(nNodes, d0)
      ensures Projected(RowSlice(w, n, d0, node), d0, Mul(node, d0), pos, y)
           == Slice(Projected(w, Mul(nNodes, d0), 0, pos, y), d0, node)
    {
      hide Mul, MatVec, Rotate, RowSlice, Slice;
      RowShard(term, w, n, d0, nNodes, y, node);
      RotateShard(angles, headSize, pos, MatVec(term, w, n, Mul(nNodes, d0), y), d0, node);
    }

    /** A node's query and cache rows are its part of the whole query and of every row. */
    lemma ProjectionsShard(groups: nat, m: nat, nNodes: nat, node: nat, ys: seq<seq<TX>>)
      requires Fits() && Divides(groups, m, nNodes) && node < nNodes && ys != [] && forall t | 0 <= t < |ys| :: |ys[t]| == n
      ensures Mul(node, Mul(QDim(groups), n)) + Mul(QDim(groups), n) <= |wq| && Mul(node, QDim(groups)) % 2 == 0
      ensures Mul(node, Mul(KvDim(groups), n)) + Mul(KvDim(groups), n) <= |wk| && Mul(node, KvDim(groups)) % 2 == 0
      ensures Mul(node, QDim(groups)) + QDim(groups) <= QDim(nKvHeads)
      ensures Mul(node, KvDim(groups)) + KvDim(groups) <= KvDim(nKvHeads)
      ensures NodeQuery(groups, node, ys) == Slice(Query(ys), QDim(groups), node)
      ensures NodeKeys(groups, node, ys) == PartOfRows(Keys(ys), KvDim(groups), node)
      ensures NodeValues(groups, node, ys) == PartOfRows(Values(ys), KvDim(groups), node)
    {
      Shares(groups, m, nNodes, node);
      hide Mul, MatVec, Projected, RowSlice, Slice;
      SliceInside(node, nNodes, QDim(groups));
      SliceInside(node, nNodes, KvDim(groups));
      ProjectedShard(wq, QDim(groups), nNodes, node, |ys| - 1, ys[|ys| - 1]);
      forall t: nat | t < |ys|
        ensures NodeKeys(groups, node, ys)[t] == PartOfRows(Keys(ys), KvDim(groups), node)[t]
        ensures NodeValues(groups, node, ys)[t] == PartOfRows(Values(ys), KvDim(groups), node)[t]
      {
        ProjectedShard(wk, KvDim(groups), nNodes, node, t, ys[t]);
        RowShard(term, wv, n, KvDim(groups), nNodes, ys[t], node);
      }
    }

    /** The local heads of a node are its part of all heads. */
    lemma NodeHeads(groups: nat, m: nat, nNodes: nat, node: nat, ys: seq<seq<TX>>)
      requires Fits() && Divides(groups, m, nNodes) && node < nNodes && ys != [] && forall t | 0 <= t < |ys| :: |ys[t]| == n
      ensures Mul(node, Mul(QDim(groups), n)) + Mul(QDim(groups), n) <= |wq| && Mul(node, QDim(groups)) % 2 == 0
      ensures Mul(node, Mul(KvDim(groups), n)) + Mul(KvDim(groups), n) <= |wk| && Mul(node, KvDim(groups)) % 2 == 0
      ensures Mul(node, QDim(groups)) + QDim(groups) <= QDim(nKvHeads)
      ensures Attention.Fits(NodeQuery(groups, node, ys), NodeKeys(groups, node, ys), NodeValues(groups, node, ys), NHeads(groups),
                             kvMul, headSize)
      ensures Heads(kn, NodeQuery(groups, node, ys), NodeKeys(groups, node, ys), NodeValues(groups, node, ys), NHeads(groups),
                    kvMul, headSize)
           == Slice(HeadsOut(ys), QDim(groups), node)
    {
      Shares(groups, m, nNodes, node);
      ProjectionsShard(groups, m, nNodes, node, ys);
      HeadsOutIs(ys);
      hide Mul, Div, Query, Keys, Values, Heads, NodeQuery, NodeKeys, NodeValues, HeadsOut, Slice, PartOfRows, Attention.Fits,
           Kernel.Valid;
      HeadsShard(kn, Query(ys), Keys(ys), Values(ys), groups, kvMul, headSize, nNodes, node);
    }

    lemma HeadsOutIs(ys: seq<seq<TX>>)
      requires Fits() && ys != [] && forall t | 0 <= t < |ys| :: |ys[t]| == n
      ensures Attention.Fits(Query(ys), Keys(ys), Values(ys), NHeads(nKvHeads), kvMul, headSize)
      ensures HeadsOut(ys) == Heads(kn, Query(ys), Keys(ys), Values(ys), NHeads(nKvHeads), kvMul, headSize)
    {
      Whole(ys);
    }

    /** The partial output of a node. */
    ghost function NodeOutput(groups: nat, m: nat, nNodes: nat, node: nat, ys: seq<seq<TX>>): (z: seq<real>)
      requires Fits() && Divides(groups, m, nNodes) && node < nNodes && ys != [] && forall t | 0 <= t < |ys| :: |ys[t]| == n
      ensures |z| == dim
    {
      Shares(groups, m, nNodes, node);
      NodeHeads(groups, m, nNodes, node, ys);
      var o := Heads(kn, NodeQuery(groups, node, ys), NodeKeys(groups, node, ys), NodeValues(groups, node, ys), NHeads(groups),
                     kvMul, headSize);
      MatVec(term, ColSlice(wo, outBlocks, dim, m, node), m, dim, Cast(castBlock, B, o, m))
    }

    ghost function Partial(groups: nat, m: nat, nNodes: nat, ys: seq<seq<TX>>): nat -> seq<real>
      requires Fits() && Divides(groups, m, nNodes) && ys != [] && forall t | 0 <= t < |ys| :: |ys[t]| == n
    {
      (node: nat) => if node < nNodes then NodeOutput(groups, m, nNodes, node, ys) else []
    }

    /** What every node holds after exchanging slices and merging. */
    ghost function Sharded(groups: nat, m: nat, nNodes: nat, x: seq<real>, ys: seq<seq<TX>>): (r: seq<real>)
      requires Fits() && Inputs(x, ys) && Divides(groups, m, nNodes)
      ensures |r| == dim
    {
      MergeAdd(x, Partial(groups, m, nNodes, ys), nNodes)
    }

    lemma NodeOutputIs(groups: nat, m: nat, nNodes: nat, node: nat, ys: seq<seq<TX>>)
      requires Fits() && Divides(groups, m, nNodes) && node < nNodes && ys != [] && forall t | 0 <= t < |ys| :: |ys[t]| == n
      ensures Mul(node, m) + m <= outBlocks
      ensures NodeOutput(groups, m, nNodes, node, ys)
           == MatVec(term, ColSlice(wo, outBlocks, dim, m, node), m, dim,
                     Slice(Cast(castBlock, B, HeadsOut(ys), outBlocks), m, node))
    {
      Shares(groups, m, nNodes, node);
      NodeHeads(groups, m, nNodes, node, ys);
      hide Mul, Heads, NodeQuery, NodeKeys, NodeValues, HeadsOut, MatVec, ColSlice, Cast;
      CastShard(castBlock, B, HeadsOut(ys), m, nNodes, node);
    }

    /** The sharded block gives what one node gives, for every number of nodes that divides the
        key-value heads and the output blocks. */
    lemma ShardedEqualsOneNode(groups: nat, m: nat, nNodes: nat, x: seq<real>, ys: seq<seq<TX>>)
      requires Fits() && Inputs(x, ys) && Divides(groups, m, nNodes)
      ensures Sharded(groups, m, nNodes, x, ys) == OneNode(x, ys)
    {
      hide Mul, MatVec, Cast, ColSlice, HeadsOut, NodeOutput, Slice;
      var hq := Cast(castBlock, B, HeadsOut(ys), outBlocks);
      var z := MatVec(term, wo, outBlocks, dim, hq);
      var partial := Partial(groups, m, nNodes, ys);
      var sums := (i: nat) => Partials(term, wo, outBlocks, dim, m, hq, i);
      forall node: nat | node < nNodes
        ensures Mul(node, m) + m <= outBlocks
        ensures partial(node) == MatVec(term, ColSlice(wo, outBlocks, dim, m, node), m, dim, Slice(hq, m, node))
      {
        NodeOutputIs(groups, m, nNodes, node, ys);
      }
      forall i: nat | i < dim
        ensures SumNodes(sums(i), nNodes) == z[i]
      {
        ColShard(term, wo, outBlocks, dim, m, nNodes, hq, i);
      }
      MergesTo(x, partial, nNodes, z, sums);
    }
  }
}
