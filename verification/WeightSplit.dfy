/** splitRowMatmulWeight and splitColMatmulWeight of src/nn/nn-core.cpp. Weights are arrays of blocks;
    a block is what one memcpy of the row splitter moves. */
module WeightSplit {
  import opened Arith
  import opened Vectors
  import opened Matrix

  method Copy<T>(dst: array<T>, at: nat, src: seq<T>, from: nat, count: nat)
    requires at + count <= dst.Length && from + count <= |src|
    modifies dst
    ensures dst[..] == old(dst[..at]) + src[from..from + count] + old(dst[at + count..])
  {
    for i := 0 to count
      invariant forall k | 0 <= k < dst.Length :: dst[k] == if at <= k < at + i then src[from + (k - at)] else old(dst[k])
    {
      dst[at + i] := src[from + i];
    }
  }

  /** The loops over the rows of the node and the blocks of a row. */
  method SplitRow<T>(n: nat, d0: nat, nodeIndex: nat, blockBytes: nat, weight: seq<T>, weight0: array<T>) returns (copiedBytes: nat)
    requires Mul(nodeIndex, Mul(d0, n)) + Mul(d0, n) <= |weight| && Mul(d0, n) <= weight0.Length
    modifies weight0
    ensures weight0[..] == RowSlice(weight, n, d0, nodeIndex) + old(weight0[Mul(d0, n)..])
    ensures copiedBytes == Mul(Mul(d0, n), blockBytes)
  {
    hide Mul;
    var offset := Mul(Mul(d0, nodeIndex), n);
    MulNext(d0, nodeIndex);
    MulAssociative(nodeIndex, d0, n);
    ghost var before := weight0[..];
    copiedBytes := 0;
    MulNext(0, n);
    MulNext(0, blockBytes);
    for d := 0 to d0
      invariant Mul(d, n) <= Mul(d0, n) && copiedBytes == Mul(Mul(d, n), blockBytes)
      invariant forall k | 0 <= k < weight0.Length :: weight0[k] == if k < Mul(d, n) then weight[offset + k] else old(weight0[k])
    {
      SliceInside(d, d0, n);
      MulNext(d, n);
      for j := 0 to n
        invariant copiedBytes == Mul(Mul(d, n) + j, blockBytes)
        invariant forall k | 0 <= k < weight0.Length ::
                    weight0[k] == if k < Mul(d, n) + j then weight[offset + k] else old(weight0[k])
      {
        var o := Mul(d, n) + j;
        weight0[o] := weight[offset + o];
        MulNext(o, blockBytes);
        copiedBytes := copiedBytes + blockBytes;
      }
    }
    Copied(weight, offset, before, weight0[..], Mul(d0, n));
  }

  lemma Copied<T>(w: seq<T>, offset: nat, before: seq<T>, after: seq<T>, m: nat)
    requires offset + m <= |w| && m <= |before| == |after|
    requires forall k | 0 <= k < |after| :: after[k] == if k < m then w[offset + k] else before[k]
    ensures after == w[offset..offset + m] + before[m..]
  {
  }

  /** One memcpy per row. */
  method SplitCol<T>(n: nat, n0: nat, d: nat, nodeIndex: nat, blockBytes: nat, weight: seq<T>, weight0: array<T>)
    returns (copiedBytes: nat)
    requires |weight| == Mul(d, n) && Mul(nodeIndex, n0) + n0 <= n && Mul(d, n0) <= weight0.Length
    modifies weight0
    ensures weight0[..] == ColSlice(weight, n, d, n0, nodeIndex) + old(weight0[Mul(d, n0)..])
    ensures copiedBytes == Mul(Mul(d, n0), blockBytes)
  {
    hide Mul, ColSlice, Slice;
    var rowOffset := Mul(nodeIndex, n0);
    copiedBytes := 0;
    MulNext(0, n0);
    MulNext(0, blockBytes);
    ColSliceNone(weight, n, n0, nodeIndex);
    for i := 0 to d
      invariant Mul(i, n0) <= Mul(d, n0) && Mul(i, n) <= |weight| && copiedBytes == Mul(Mul(i, n0), blockBytes)
      invariant weight0[..Mul(i, n0)] == ColSlice(weight[..Mul(i, n)], n, i, n0, nodeIndex)
      invariant weight0[Mul(i, n0)..] == old(weight0[Mul(i, n0)..])
    {
      SliceInside(i, d, n0);
      SliceInside(i, d, n);
      MulNext(i, n0);
      MulNext(i, n);
      ghost var before := weight0[..];
      Copy(weight0, Mul(n0, i), weight, Mul(n, i) + rowOffset, n0);
      Inserted(before, weight[Mul(n, i) + rowOffset..Mul(n, i) + rowOffset + n0], weight0[..], Mul(i, n0), old(weight0[..]));
      ColSliceStep(weight, n, n0, i, nodeIndex);
      MulDistributes(Mul(i, n0), n0, blockBytes);
      copiedBytes := copiedBytes + Mul(n0, blockBytes);
    }
    assert weight[..Mul(d, n)] == weight;
    assert weight0[..] == weight0[..Mul(d, n0)] + weight0[Mul(d, n0)..];
  }

  lemma Inserted<T>(before: seq<T>, x: seq<T>, after: seq<T>, at: nat, orig: seq<T>)
    requires at + |x| <= |before| == |orig| && after == before[..at] + x + before[at + |x|..] && before[at..] == orig[at..]
    ensures after[..at + |x|] == before[..at] + x && after[at + |x|..] == orig[at + |x|..]
  {
    assert before[at..][|x|..] == orig[at..][|x|..];
    assert before[at + |x|..] == before[at..][|x|..] && orig[at + |x|..] == orig[at..][|x|..];
  }

  lemma ColSliceNone<T>(w: seq<T>, n: nat, n0: nat, node: nat)
    requires Mul(node, n0) + n0 <= n
    ensures Mul(0, n) == 0 && ColSlice(w[..Mul(0, n)], n, 0, n0, node) == []
  {
  }

  lemma ColSliceStep<T>(w: seq<T>, n: nat, n0: nat, i: nat, node: nat)
    requires Mul(node, n0) + n0 <= n && Mul(i + 1, n) <= |w|
    ensures Mul(i, n) + n == Mul(i + 1, n) == Mul(n, i) + n
    ensures ColSlice(w[..Mul(i + 1, n)], n, i + 1, n0, node)
         == ColSlice(w[..Mul(i, n)], n, i, n0, node) + w[Mul(n, i) + Mul(node, n0)..Mul(n, i) + Mul(node, n0) + n0]
  {
    hide Mul, Slice;
    MulNext(i, n);
    assert w[..Mul(i + 1, n)][..Mul(i, n)] == w[..Mul(i, n)];
    PartOfRow(w, n, n0, i, node);
  }

  lemma PartOfRow<T>(w: seq<T>, n: nat, n0: nat, i: nat, node: nat)
    requires Mul(node, n0) + n0 <= n && Mul(i, n) + n == Mul(i + 1, n) <= |w|
    ensures var at := Mul(i, n) + Mul(node, n0); Slice(Slice(w[..Mul(i + 1, n)], n, i), n0, node) == w[at..at + n0]
  {
    hide Mul;
    var v, at := w[..Mul(i + 1, n)], Mul(i, n) + Mul(node, n0);
    PartOfPart(v, Mul(i, n), n, Mul(node, n0), n0);
    assert v[at..at + n0] == w[at..at + n0];
  }

  /** The row slices of all nodes, one after the other, are the weight. */
  lemma RowSlicesRebuild<T>(w: seq<T>, n: nat, d0: nat, nNodes: nat, slices: seq<seq<T>>)
    requires |w| == Mul(nNodes, Mul(d0, n)) && |slices| == nNodes
    requires forall k: nat | k < nNodes :: Mul(k, Mul(d0, n)) + Mul(d0, n) <= |w| && slices[k] == RowSlice(w, n, d0, k)
    ensures Concat(slices) == w
  {
    hide Mul, Slice;
    SlicesRebuild(w, Mul(d0, n), nNodes, slices);
  }

  /** The column slices of all nodes give back every row of the weight. */
  lemma ColSlicesRebuild<T>(w: seq<T>, n: nat, d: nat, n0: nat, nNodes: nat, slices: seq<seq<T>>, i: nat, rows: seq<seq<T>>)
    requires |w| == Mul(d, n) && n == Mul(nNodes, n0) && |slices| == |rows| == nNodes && i < d
    requires forall k: nat | k < nNodes :: Mul(k, n0) + n0 <= n && slices[k] == ColSlice(w, n, d, n0, k)
    requires forall k: nat | k < nNodes :: Mul(i, n0) + n0 <= |slices[k]| && rows[k] == Slice(slices[k], n0, i)
    ensures Mul(i, n) + n <= |w| && Concat(rows) == Slice(w, n, i)
  {
    hide Mul, Slice, ColSlice;
    SliceInside(i, d, n);
    forall k: nat | k < nNodes
      ensures rows[k] == Slice(Slice(w, n, i), n0, k)
    {
      ColSliceRow(w, n, d, n0, k, i);
    }
    SlicesRebuild(Slice(w, n, i), n0, nNodes, rows);
  }
}
