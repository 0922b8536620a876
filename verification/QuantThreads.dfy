/** The Q80 loops of src/nn/nn-quants.cpp as steps of all threads: quantize, then dequantize. */
module QuantThreads {
  import opened Arith
  import opened Vectors
  import opened Matrix
  import opened Threads
  import opened QuantBlocks

  /** The blocks of the input. */
  ghost function BlockOf(input: seq<real>): nat -> Block {
    (i: nat) => if Mul(i, BLOCK_SIZE) + BLOCK_SIZE <= |input| then QuantizeQ80(Slice(input, BLOCK_SIZE, i)) else Block(0.0, [])
  }

  /** One block of quantizeF32toQ80. */
  method QuantizeBlock(x: seq<real>) returns (y: Block)
    ensures y == QuantizeQ80(x)
  {
    var amax := 0.0;
    for j := 0 to |x|
      invariant amax == Peak(x[..j]).0
    {
      assert x[..j + 1][..j] == x[..j];
      var v := Abs(x[j]);
      amax := if amax > v then amax else v;
    }
    assert x[..|x|] == x;
    var d := Scale80(amax);
    var qs: seq<int> := [];
    for j := 0 to |x|
      invariant |qs| == j && forall k | 0 <= k < j :: qs[k] == Q80(x[k], amax)
    {
      qs := qs + [Round(InScales(x[j], d))];
    }
    y := Block(d, qs);
    assert qs == QuantizeQ80(x).qs;
  }

  /** quantizeF32toQ80: the blocks of one thread. */
  method QuantizeThread(input: seq<real>, output: array<Block>, nBlocks: nat, nThreads: nat, threadIndex: nat)
    requires threadIndex < nThreads && nBlocks <= output.Length && |input| == Mul(nBlocks, BLOCK_SIZE)
    modifies output
    ensures SplitEnd(nBlocks, nThreads, threadIndex) <= nBlocks
    ensures Updated(old(output[..]), output[..], SplitStart(nBlocks, nThreads, threadIndex), SplitEnd(nBlocks, nThreads, threadIndex),
                    BlockOf(input))
  {
    hide Mul, SplitStart, SplitEnd, Updated, QuantizeQ80;
    SplitEdges(nBlocks, nThreads, threadIndex);
    SplitUpTo(nBlocks, nThreads, threadIndex + 1, nThreads);
    var start, end := SplitStart(nBlocks, nThreads, threadIndex), SplitEnd(nBlocks, nThreads, threadIndex);
    UpdatedNone(output[..], start, BlockOf(input));
    for i := start to end
      invariant Updated(old(output[..]), output[..], start, i, BlockOf(input))
    {
      SliceInside(i, nBlocks, BLOCK_SIZE);
      var y := QuantizeBlock(input[Mul(i, BLOCK_SIZE)..Mul(i, BLOCK_SIZE) + BLOCK_SIZE]);
      UpdatedNext(old(output[..]), output[..], start, i, BlockOf(input));
      output[i] := y;
    }
  }

  /** quantizeF32toQ80 over all threads, in any order. */
  method Quantize(input: seq<real>, output: array<Block>, nBlocks: nat, nThreads: nat, order: seq<nat>)
    requires nThreads > 0 && Order(order, nThreads) && nBlocks <= output.Length && |input| == Mul(nBlocks, BLOCK_SIZE)
    modifies output
    ensures Updated(old(output[..]), output[..], 0, nBlocks, BlockOf(input))
  {
    hide Mul, SplitStart, SplitEnd, Updated, Order, DoneBy;
    ghost var before, f := output[..], BlockOf(input);
    NoneDone(before, nBlocks, nThreads, order, f);
    for k := 0 to |order|
      invariant DoneBy(before, output[..], nBlocks, nThreads, order[..k], f)
    {
      NextThread(order, nThreads, k);
      ghost var mid := output[..];
      QuantizeThread(input, output, nBlocks, nThreads, order[k]);
      ThreadDone(before, mid, output[..], nBlocks, nThreads, order, k, f);
    }
    assert order[..|order|] == order;
    AllDone(before, output[..], nBlocks, nThreads, order, f);
  }

  /** The stretch of block `i` in a flat buffer. */
  ghost predicate Restores(buffer: seq<real>, i: nat, b: Block) {
    Mul(i, BLOCK_SIZE) + BLOCK_SIZE <= |buffer| && buffer[Mul(i, BLOCK_SIZE)..Mul(i, BLOCK_SIZE) + BLOCK_SIZE] == Dequantize(b)
  }

  /** dequantizeQ80toF32: the share of one thread. */
  method DequantizeThread(input: seq<Block>, output: array<real>, nThreads: nat, threadIndex: nat)
    requires threadIndex < nThreads && output.Length == Mul(|input|, BLOCK_SIZE) && forall i | 0 <= i < |input| :: |input[i].qs| == BLOCK_SIZE
    modifies output
    ensures ShareStart(|input|, nThreads, threadIndex) + ShareSize(|input|, nThreads, threadIndex) <= |input|
    ensures var first, count := ShareStart(|input|, nThreads, threadIndex), ShareSize(|input|, nThreads, threadIndex);
            forall k | 0 <= k < output.Length && !(Mul(first, BLOCK_SIZE) <= k < Mul(first + count, BLOCK_SIZE)) ::
              output[k] == old(output[k])
    ensures forall i: nat | i < |input| ::
              Restores(output[..], i, input[i]) || (old(!Restores(output[..], i, input[i])) &&
                !(ShareStart(|input|, nThreads, threadIndex) <= i < ShareStart(|input|, nThreads, threadIndex) + ShareSize(|input|, nThreads, threadIndex)))
  {
    hide Mul, ShareStart, ShareSize, Dequantize, Restores;
    SharesInside(|input|, nThreads, threadIndex);
    var first, count := ShareStart(|input|, nThreads, threadIndex), ShareSize(|input|, nThreads, threadIndex);
    for i := 0 to count
      invariant forall k | 0 <= k < output.Length && !(Mul(first, BLOCK_SIZE) <= k < Mul(first + i, BLOCK_SIZE)) ::
                  output[k] == old(output[k])
      invariant forall k: nat | k < |input| ::
                  Restores(output[..], k, input[k]) || (old(!Restores(output[..], k, input[k])) && !(first <= k < first + i))
    {
      ghost var before := output[..];
      DequantizeBlock(input[first + i], output, first + i, |input|);
      MulMonotone(first, first + i, BLOCK_SIZE);
      MulNext(first + i, BLOCK_SIZE);
      forall k: nat | k < |input|
        ensures Restores(output[..], k, input[k]) || (old(!Restores(output[..], k, input[k])) && !(first <= k < first + i + 1))
      {
        OtherBlock(before, output[..], first + i, k, input[k], |input|);
      }
    }
  }

  lemma SharesInside(nBlocks: nat, nThreads: nat, t: nat)
    requires t < nThreads
    ensures ShareStart(nBlocks, nThreads, t) + ShareSize(nBlocks, nThreads, t) <= nBlocks
  {
    SharesCover(nBlocks, nThreads, t);
    if t < nThreads - 1 {
      hide Mul, Div, Rem;
      var b := Div(nBlocks, nThreads);
      Division(nBlocks, nThreads);
      MulMonotone(t + 1, nThreads, b);
      MulNext(b, t + 1);
      MulNext(nThreads, b);
    }
  }

  /** One block: its values in the given place, nothing else changed. */
  method DequantizeBlock(b: Block, output: array<real>, at: nat, nBlocks: nat)
    requires at < nBlocks && output.Length == Mul(nBlocks, BLOCK_SIZE) && |b.qs| == BLOCK_SIZE
    modifies output
    ensures Restores(output[..], at, b)
    ensures forall k | 0 <= k < output.Length && !(Mul(at, BLOCK_SIZE) <= k < Mul(at, BLOCK_SIZE) + BLOCK_SIZE) :: output[k] == old(output[k])
  {
    hide Mul, Times;
    SliceInside(at, nBlocks, BLOCK_SIZE);
    var base := Mul(at, BLOCK_SIZE);
    for j := 0 to BLOCK_SIZE
      invariant forall k | 0 <= k < output.Length ::
                  output[k] == if base <= k < base + j then Times(b.qs[k - base] as real, b.d) else old(output[k])
    {
      output[base + j] := Times(b.qs[j] as real, b.d);
    }
  }

  lemma OtherBlock(before: seq<real>, after: seq<real>, at: nat, k: nat, b: Block, nBlocks: nat)
    requires at < nBlocks && k < nBlocks && |before| == |after| == Mul(nBlocks, BLOCK_SIZE) && |b.qs| == BLOCK_SIZE
    requires forall j | 0 <= j < |after| && !(Mul(at, BLOCK_SIZE) <= j < Mul(at, BLOCK_SIZE) + BLOCK_SIZE) :: after[j] == before[j]
    ensures k != at && Restores(before, k, b) ==> Restores(after, k, b)
    ensures k != at && Restores(after, k, b) ==> Restores(before, k, b)
  {
    hide Mul, Dequantize;
    SliceInside(k, nBlocks, BLOCK_SIZE);
    SliceInside(at, nBlocks, BLOCK_SIZE);
    if k != at {
      MulNext(k, BLOCK_SIZE);
      MulNext(at, BLOCK_SIZE);
      if k < at {
        MulMonotone(k + 1, at, BLOCK_SIZE);
      } else {
        MulMonotone(at + 1, k, BLOCK_SIZE);
      }
      var p := Mul(k, BLOCK_SIZE);
      assert forall j | p <= j < p + BLOCK_SIZE :: after[j] == before[j];
      assert after[p..p + BLOCK_SIZE] == before[p..p + BLOCK_SIZE];
    }
  }

  /** Value `j` of block `i` is within amax / 254 of the original. */
  ghost predicate Close(input: seq<real>, output: seq<real>, i: nat, j: nat) {
    && j < BLOCK_SIZE && Mul(i, BLOCK_SIZE) + BLOCK_SIZE <= |input| == |output|
    && Abs(input[Mul(i, BLOCK_SIZE) + j] - output[Mul(i, BLOCK_SIZE) + j]) <= Peak(Slice(input, BLOCK_SIZE, i)).0 / 254.0
  }

  /** The whole round trip: quantize on any threads in any order, dequantize on any threads in any
      order; every value comes back within its block's amax / 254. */
  method RoundTrip(input: seq<real>, nBlocks: nat, nThreads: nat, order: seq<nat>, order': seq<nat>) returns (output: array<real>)
    requires nThreads > 0 && Order(order, nThreads) && Order(order', nThreads) && |input| == Mul(nBlocks, BLOCK_SIZE)
    ensures output.Length == |input|
    ensures forall i: nat, j: nat | i < nBlocks && j < BLOCK_SIZE :: Close(input, output[..], i, j)
  {
    hide Mul, Close, Restores, ShareStart, ShareSize, ShareTaker, Order, QuantizeQ80, Dequantize, Peak, Abs;
    var blocks := new Block[nBlocks](_ => Block(0.0, []));
    Quantize(input, blocks, nBlocks, nThreads, order);
    ghost var bs := blocks[..];
    BlockSizes(input, nBlocks);
    assert forall i: nat | i < nBlocks :: bs[i] == BlockOf(input)(i);
    output := new real[|input|](_ => 0.0);
    for k := 0 to |order'|
      invariant forall i: nat | i < nBlocks && ShareTaker(nBlocks, nThreads, i) in order'[..k] :: Restores(output[..], i, bs[i])
      invariant blocks[..] == bs
    {
      NextThread(order', nThreads, k);
      label L:
      DequantizeThread(blocks[..], output, nThreads, order'[k]);
      forall i: nat | i < nBlocks && ShareTaker(nBlocks, nThreads, i) in order'[..k + 1]
        ensures Restores(output[..], i, bs[i])
      {
        ShareOnce(nBlocks, nThreads, i, order'[k]);
        if ShareTaker(nBlocks, nThreads, i) in order'[..k] {
          assert old@L(Restores(output[..], i, bs[i]));
        }
      }
    }
    forall i: nat, j: nat | i < nBlocks && j < BLOCK_SIZE
      ensures Close(input, output[..], i, j)
    {
      EveryThread(order', nThreads, ShareTaker(nBlocks, nThreads, i));
      WithinBlock(input, output[..], bs[i], nBlocks, i, j);
    }
  }

  lemma BlockSizes(input: seq<real>, nBlocks: nat)
    requires |input| == Mul(nBlocks, BLOCK_SIZE)
    ensures forall i: nat | i < nBlocks :: |BlockOf(input)(i).qs| == BLOCK_SIZE
  {
    hide Mul, QuantizeQ80;
    forall i: nat | i < nBlocks
      ensures |BlockOf(input)(i).qs| == BLOCK_SIZE
    {
      SliceInside(i, nBlocks, BLOCK_SIZE);
    }
  }

  lemma WithinBlock(input: seq<real>, output: seq<real>, b: Block, nBlocks: nat, i: nat, j: nat)
    requires |input| == |output| == Mul(nBlocks, BLOCK_SIZE) && i < nBlocks && j < BLOCK_SIZE
    requires b == BlockOf(input)(i) && Restores(output, i, b)
    ensures Close(input, output, i, j)
  {
    hide Mul, QuantizeQ80, Dequantize, Peak, Abs;
    SliceInside(i, nBlocks, BLOCK_SIZE);
    var at, v := Mul(i, BLOCK_SIZE), Slice(input, BLOCK_SIZE, i);
    BlockErrors(v, j);
    assert v[j] == input[at + j] && output[at..at + BLOCK_SIZE][j] == output[at + j];
  }
}
