/** Two ops of src/nn/nn-cpu-ops.cpp as steps of all threads: the scalar matmul and merge_add. */
module CpuOps {
  import opened Arith
  import opened Vectors
  import opened Matrix
  import opened Threads
  import FF = FeedForward

  /** Row `i` of the product. */
  ghost function RowDot<TW, TX>(term: (TW, TX) -> real, w: seq<TW>, n: nat, x: seq<TX>): nat -> real {
    (i: nat) => if Mul(i, n) + n <= |w| && |x| == n then Dot(term, Slice(w, n, i), x) else 0.0
  }

  /** matmul: the rows of one thread, each accumulated from the first element on. */
  method MatmulThread<TW, TX>(term: (TW, TX) -> real, output: array<real>, x: seq<TX>, w: seq<TW>, n: nat, d: nat,
                              nThreads: nat, threadIndex: nat)
    requires threadIndex < nThreads && d <= output.Length && |x| == n && |w| == Mul(d, n)
    modifies output
    ensures SplitEnd(d, nThreads, threadIndex) <= d
    ensures Updated(old(output[..]), output[..], SplitStart(d, nThreads, threadIndex), SplitEnd(d, nThreads, threadIndex),
                    RowDot(term, w, n, x))
  {
    hide Mul, SplitStart, SplitEnd, Updated;
    SplitEdges(d, nThreads, threadIndex);
    SplitUpTo(d, nThreads, threadIndex + 1, nThreads);
    var start, end := SplitStart(d, nThreads, threadIndex), SplitEnd(d, nThreads, threadIndex);
    ghost var f := RowDot(term, w, n, x);
    UpdatedNone(output[..], start, f);
    for i := start to end
      invariant Updated(old(output[..]), output[..], start, i, f)
    {
      SliceInside(i, d, n);
      ghost var row := Slice(w, n, i);
      var val := 0.0;
      for j := 0 to n
        invariant val == Dot(term, row[..j], x[..j])
      {
        assert row[..j + 1][..j] == row[..j] && x[..j + 1][..j] == x[..j];
        val := val + term(w[Mul(i, n) + j], x[j]);
      }
      assert row[..n] == row && x[..n] == x;
      UpdatedNext(old(output[..]), output[..], start, i, f);
      output[i] := val;
    }
  }

  /** matmul over all threads, in any order. */
  method Matmul<TW, TX>(term: (TW, TX) -> real, output: array<real>, x: seq<TX>, w: seq<TW>, n: nat, d: nat,
                        nThreads: nat, order: seq<nat>)
    requires nThreads > 0 && Order(order, nThreads) && d <= output.Length && |x| == n && |w| == Mul(d, n)
    modifies output
    ensures output[..] == MatVec(term, w, n, d, x) + old(output[d..])
  {
    hide Mul, SplitStart, SplitEnd, Updated, Order;
    ghost var before, f := output[..], RowDot(term, w, n, x);
    NoneDone(before, d, nThreads, order, f);
    for k := 0 to |order|
      invariant DoneBy(before, output[..], d, nThreads, order[..k], f)
    {
      NextThread(order, nThreads, k);
      ghost var mid := output[..];
      MatmulThread(term, output, x, w, n, d, nThreads, order[k]);
      ThreadDone(before, mid, output[..], d, nThreads, order, k, f);
    }
    assert order[..|order|] == order;
    AllDone(before, output[..], d, nThreads, order, f);
    RowsAreProduct(term, before, output[..], w, n, d, x);
  }

  lemma RowsAreProduct<TW, TX>(term: (TW, TX) -> real, before: seq<real>, after: seq<real>, w: seq<TW>, n: nat, d: nat, x: seq<TX>)
    requires |w| == Mul(d, n) && |x| == n && d <= |before| && Updated(before, after, 0, d, RowDot(term, w, n, x))
    ensures after == MatVec(term, w, n, d, x) + before[d..]
  {
    hide Mul, MatVec;
    forall i: nat | i < d
      ensures after[i] == MatVec(term, w, n, d, x)[i]
    {
      MatVecAt(term, w, n, d, x, i);
    }
  }

  /** The slices of the input as the nodes' partial outputs. */
  ghost function Parts(input: seq<real>, dim: nat): nat -> seq<real> {
    (node: nat) => if Mul(node, dim) + dim <= |input| then Slice(input, dim, node) else []
  }

  ghost function Merged(x: seq<real>, input: seq<real>, dim: nat, nSlices: nat): nat -> real {
    (i: nat) => if i < |x| then x[i] + SumNodes(FF.Entry(Parts(input, dim), i), nSlices) else 0.0
  }

  /** merge_add of one thread: its range of every slice in turn is added to the output. */
  method MergeAddThread(output: array<real>, input: seq<real>, nSlices: nat, nThreads: nat, threadIndex: nat)
    requires threadIndex < nThreads && |input| == Mul(nSlices, output.Length)
    modifies output
    ensures SplitEnd(output.Length, nThreads, threadIndex) <= output.Length
    ensures Updated(old(output[..]), output[..], SplitStart(output.Length, nThreads, threadIndex),
                    SplitEnd(output.Length, nThreads, threadIndex), Merged(old(output[..]), input, output.Length, nSlices))
  {
    hide Mul, SplitStart, SplitEnd, Merged;
    var dim := output.Length;
    SplitEdges(dim, nThreads, threadIndex);
    SplitUpTo(dim, nThreads, threadIndex + 1, nThreads);
    var start, end := SplitStart(dim, nThreads, threadIndex), SplitEnd(dim, nThreads, threadIndex);
    ghost var before := output[..];
    MergedNone(before, input, dim);
    for sliceIndex := 0 to nSlices
      invariant Updated(before, output[..], start, end, Merged(before, input, dim, sliceIndex))
    {
      SliceInside(sliceIndex, nSlices, dim);
      ghost var mid := output[..];
      for i := start to end
        invariant forall k | 0 <= k < dim :: output[k] == if start <= k < i then mid[k] + input[Mul(sliceIndex, dim) + k] else mid[k]
      {
        output[i] := output[i] + input[Mul(sliceIndex, dim) + i];
      }
      MergedNext(before, input, dim, sliceIndex);
    }
  }

  lemma MergedNone(x: seq<real>, input: seq<real>, dim: nat)
    ensures forall i: nat | i < |x| :: Merged(x, input, dim, 0)(i) == x[i]
  {
  }

  lemma MergedNext(x: seq<real>, input: seq<real>, dim: nat, s: nat)
    requires |x| == dim && Mul(s, dim) + dim <= |input|
    ensures forall i: nat | i < dim :: Merged(x, input, dim, s + 1)(i) == Merged(x, input, dim, s)(i) + input[Mul(s, dim) + i]
  {
    hide Mul;
    forall i: nat | i < dim
      ensures FF.Entry(Parts(input, dim), i)(s) == input[Mul(s, dim) + i]
    {
      assert Parts(input, dim)(s) == Slice(input, dim, s);
    }
  }

  /** merge_add over all threads, in any order. */
  method MergeAdd(output: array<real>, input: seq<real>, nSlices: nat, nThreads: nat, order: seq<nat>)
    requires nThreads > 0 && Order(order, nThreads) && |input| == Mul(nSlices, output.Length)
    modifies output
    ensures output[..] == FF.MergeAdd(old(output[..]), Parts(input, output.Length), nSlices)
  {
    hide Mul, SplitStart, SplitEnd, Updated, Order, Merged, DoneBy;
    var dim := output.Length;
    ghost var before := output[..];
    ghost var f := Merged(before, input, dim, nSlices);
    NoneDone(before, dim, nThreads, order, f);
    for k := 0 to |order|
      invariant DoneBy(before, output[..], dim, nThreads, order[..k], f)
    {
      NextThread(order, nThreads, k);
      ghost var mid := output[..];
      Untouched(before, mid, dim, nThreads, order, k, f);
      MergeAddThread(output, input, nSlices, nThreads, order[k]);
      SameMerge(before, mid, output[..], input, dim, nSlices, SplitStart(dim, nThreads, order[k]), SplitEnd(dim, nThreads, order[k]));
      ThreadDone(before, mid, output[..], dim, nThreads, order, k, f);
    }
    assert order[..|order|] == order;
    AllDone(before, output[..], dim, nThreads, order, f);
    MergedAll(before, output[..], input, dim, nSlices);
  }

  lemma SameMerge(before: seq<real>, mid: seq<real>, after: seq<real>, input: seq<real>, dim: nat, nSlices: nat, lo: nat, hi: nat)
    requires |before| == |mid| == dim && lo <= hi <= dim && forall i: nat | lo <= i < hi :: mid[i] == before[i]
    requires Updated(mid, after, lo, hi, Merged(mid, input, dim, nSlices))
    ensures Updated(mid, after, lo, hi, Merged(before, input, dim, nSlices))
  {
  }

  lemma MergedAll(before: seq<real>, after: seq<real>, input: seq<real>, dim: nat, nSlices: nat)
    requires |before| == dim && Updated(before, after, 0, dim, Merged(before, input, dim, nSlices))
    ensures after == FF.MergeAdd(before, Parts(input, dim), nSlices)
  {
  }
}
