/** multiheadAtt_F32 of src/nn/nn-cpu-ops.cpp: the loops of one thread over its heads, and the step of
    all threads. */
module AttentionOp {
  import opened Arith
  import opened Vectors
  import opened Matrix
  import opened Threads
  import opened Attention

  /** The op's view of its operands: local heads, the width of a cache row, and the positions in reach. */
  datatype Shape = Shape(nHeads0: nat, kvMul: nat, headSize: nat, kvDim0: nat, pos: nat, seqLen: nat) {
    /** The column of the cache row where the key-value head of `h0` starts. */
    function Column(h0: nat): nat
      requires kvMul > 0
    {
      Mul(Div(h0, kvMul), headSize)
    }

    ghost predicate Valid(q: seq<real>, keyCache: seq<real>, valueCache: seq<real>) {
      && kvMul > 0 && pos < seqLen && |q| == Mul(nHeads0, headSize)
      && Mul(pos + 1, kvDim0) <= |keyCache| && Mul(pos + 1, kvDim0) <= |valueCache|
      && forall h0: nat | h0 < nHeads0 :: Column(h0) + headSize <= kvDim0
    }

    ghost function Rows(cache: seq<real>): (rows: seq<seq<real>>)
      requires Mul(pos + 1, kvDim0) <= |cache|
      ensures |rows| == pos + 1 && Width(rows, kvDim0)
    {
      CacheRows(cache, kvDim0, pos + 1)
    }

    lemma RowsFit(q: seq<real>, keyCache: seq<real>, valueCache: seq<real>, n: nat)
      requires Valid(q, keyCache, valueCache) && n <= nHeads0
      ensures Fits(q, Rows(keyCache), Rows(valueCache), n, kvMul, headSize)
    {
      hide Mul, Div, Rows;
      MulMonotone(n, nHeads0, headSize);
      forall h: nat | h < n
        ensures Mul(Div(h, kvMul), headSize) + headSize <= kvDim0
      {
        assert Column(h) + headSize <= kvDim0;
      }
    }

    /** What head `h0` puts out. */
    ghost function Output(kn: Kernel, q: seq<real>, keyCache: seq<real>, valueCache: seq<real>, h0: nat): (r: seq<real>)
      requires kn.Valid() && Valid(q, keyCache, valueCache) && h0 < nHeads0
      ensures |r| == headSize
    {
      RowsFit(q, keyCache, valueCache, h0 + 1);
      HeadAt(kn, q, Rows(keyCache), Rows(valueCache), kvMul, headSize, h0)
    }
  }

  /** Nothing outside [lo, hi) has changed. */
  ghost predicate Within(before: seq<real>, after: seq<real>, lo: nat, hi: nat) {
    |before| == |after| && forall i | 0 <= i < |after| && !(lo <= i < hi) :: after[i] == before[i]
  }

  /** Index `i` is in the stretch of the scratch buffer that head `h` uses. */
  predicate InStretch(sh: Shape, h: nat, i: nat) {
    Mul(h, sh.seqLen) <= i < Mul(h, sh.seqLen) + sh.pos + 1
  }

  /** Two heads, and so two threads, never share a cell of the scratch buffer. */
  lemma StretchesApart(sh: Shape, h: nat, g: nat, i: nat)
    requires sh.pos < sh.seqLen && InStretch(sh, h, i) && InStretch(sh, g, i)
    ensures h == g
  {
    hide Mul;
    MulNext(h, sh.seqLen);
    MulNext(g, sh.seqLen);
    if h < g {
      MulMonotone(h + 1, g, sh.seqLen);
    } else if g < h {
      MulMonotone(g + 1, h, sh.seqLen);
    }
  }

  /** The scores of one head, into its stretch of the scratch buffer. */
  method ScoreHead(kn: Kernel, att: array<real>, base: nat, hQ: seq<real>, keyCache: seq<real>, g: nat, headSize: nat,
                   kvDim0: nat, n: nat)
    requires kn.Valid() && base + n <= att.Length && |hQ| == headSize
    requires Mul(n, kvDim0) <= |keyCache| && Mul(g, headSize) + headSize <= kvDim0
    modifies att
    ensures Wide(CacheRows(keyCache, kvDim0, n), Mul(g, headSize) + headSize)
    ensures att[base..base + n] == Scores(kn, hQ, PartOfRows(CacheRows(keyCache, kvDim0, n), headSize, g))
    ensures Within(old(att[..]), att[..], base, base + n)
  {
    hide Mul, Dot, CacheRows, PartOfRows;
    WidthWide(CacheRows(keyCache, kvDim0, n), kvDim0, Mul(g, headSize) + headSize);
    ghost var keys := PartOfRows(CacheRows(keyCache, kvDim0, n), headSize, g);
    for t := 0 to n
      invariant forall u | 0 <= u < t :: att[base + u] == Scores(kn, hQ, keys)[u]
      invariant Within(old(att[..]), att[..], base, base + n)
    {
      CacheCell(keyCache, kvDim0, headSize, n, t, g);
      var at := Mul(g, headSize) + Mul(t, kvDim0);
      var score := DotProduct(hQ, keyCache[at..at + headSize]);
      att[base + t] := score / kn.root;
    }
  }

  method SoftmaxInPlace(kn: Kernel, att: array<real>, base: nat, n: nat)
    requires kn.Valid() && base + n <= att.Length
    modifies att
    ensures att[base..base + n] == kn.softmax(old(att[base..base + n]))
    ensures Within(old(att[..]), att[..], base, base + n)
  {
    var a := kn.softmax(att[base..base + n]);
    for t := 0 to n
      invariant forall u | 0 <= u < t :: att[base + u] == a[u]
      invariant Within(old(att[..]), att[..], base, base + n)
    {
      att[base + t] := a[t];
    }
  }

  /** `hX[i] += posA * posV[i]` over a head. */
  method AddScaled(x: array<real>, off: nat, posA: real, posV: seq<real>)
    requires off + |posV| <= x.Length
    modifies x
    ensures Updated(old(x[..]), x[..], off, off + |posV|, Scaled(old(x[..]), off, posA, posV))
  {
    ghost var before := x[..];
    for i := 0 to |posV|
      invariant Updated(before, x[..], off, off + i, Scaled(before, off, posA, posV))
    {
      x[off + i] := x[off + i] + Times(posA, posV[i]);
    }
  }

  ghost function Scaled(before: seq<real>, off: nat, posA: real, posV: seq<real>): nat -> real {
    (i: nat) => if i < |before| && off <= i < off + |posV| then before[i] + Times(posA, posV[i - off]) else 0.0
  }

  /** The output of one head as a function of the index in the whole output. */
  ghost function WeightedFrom(a: seq<real>, values: seq<seq<real>>, off: nat, headSize: nat): nat -> real
    requires |a| == |values| && Wide(values, headSize)
  {
    (i: nat) => WeightedAt(a, values, off, headSize, i)
  }

  ghost function WeightedAt(a: seq<real>, values: seq<seq<real>>, off: nat, headSize: nat, i: nat): real {
    if |a| == |values| && Wide(values, headSize) && off <= i < off + headSize then Weighted(a, values, i - off) else 0.0
  }

  lemma WeightedStep(before: seq<real>, mid: seq<real>, after: seq<real>, a: seq<real>, values: seq<seq<real>>, off: nat,
                     headSize: nat, t: nat)
    requires t < |a| == |values| && Width(values, headSize) && off + headSize <= |before|
    requires Updated(before, mid, off, off + headSize, WeightedFrom(a[..t], values[..t], off, headSize))
    requires Updated(mid, after, off, off + headSize, Scaled(mid, off, a[t], values[t]))
    ensures Updated(before, after, off, off + headSize, WeightedFrom(a[..t + 1], values[..t + 1], off, headSize))
  {
    hide Times;
    assert a[..t + 1][..t] == a[..t] && values[..t + 1][..t] == values[..t];
    forall i: nat | off <= i < off + headSize
      ensures after[i] == WeightedAt(a[..t + 1], values[..t + 1], off, headSize, i)
    {
      assert Scaled(mid, off, a[t], values[t])(i) == mid[i] + Times(a[t], values[t][i - off]);
      assert mid[i] == WeightedAt(a[..t], values[..t], off, headSize, i) == Weighted(a[..t], values[..t], i - off);
    }
  }

  method WeightedSum(x: array<real>, off: nat, a: seq<real>, valueCache: seq<real>, g: nat, headSize: nat, kvDim0: nat)
    requires off + headSize <= x.Length
    requires Mul(|a|, kvDim0) <= |valueCache| && Mul(g, headSize) + headSize <= kvDim0
    modifies x
    ensures Wide(CacheRows(valueCache, kvDim0, |a|), Mul(g, headSize) + headSize)
    ensures Updated(old(x[..]), x[..], off, off + headSize,
                    WeightedFrom(a, PartOfRows(CacheRows(valueCache, kvDim0, |a|), headSize, g), off, headSize))
  {
    hide Mul, CacheRows, PartOfRows, Updated, WeightedFrom, Scaled;
    WidthWide(CacheRows(valueCache, kvDim0, |a|), kvDim0, Mul(g, headSize) + headSize);
    ghost var values := PartOfRows(CacheRows(valueCache, kvDim0, |a|), headSize, g);
    ghost var before := x[..];
    Clear(x, off, headSize);
    assert a[..0] == [] && values[..0] == [];
    for t := 0 to |a|
      invariant Updated(before, x[..], off, off + headSize, WeightedFrom(a[..t], values[..t], off, headSize))
    {
      CacheCell(valueCache, kvDim0, headSize, |a|, t, g);
      var at := Mul(g, headSize) + Mul(t, kvDim0);
      ghost var mid := x[..];
      AddScaled(x, off, a[t], valueCache[at..at + headSize]);
      UpdatedLength(before, mid, off, off + headSize, WeightedFrom(a[..t], values[..t], off, headSize));
      WeightedStep(before, mid, x[..], a, values, off, headSize, t);
    }
    assert a[..|a|] == a && values[..|a|] == values;
  }

  lemma UpdatedLength<T>(before: seq<T>, after: seq<T>, lo: nat, hi: nat, f: nat -> T)
    requires Updated(before, after, lo, hi, f)
    ensures |before| == |after|
  {
  }

  method Clear(x: array<real>, off: nat, headSize: nat)
    requires off + headSize <= x.Length
    modifies x
    ensures Updated(old(x[..]), x[..], off, off + headSize, WeightedFrom([], [], off, headSize))
  {
    for i := 0 to headSize
      invariant forall k | 0 <= k < x.Length :: x[k] == if off <= k < off + i then 0.0 else old(x[k])
    {
      x[off + i] := 0.0;
    }
    assert forall k: nat :: WeightedAt([], [], off, headSize, k) == 0.0;
  }

  /** One head: scores, softmax, weighted sum. */
  method AttendHead(kn: Kernel, sh: Shape, x: array<real>, q: seq<real>, att: array<real>, keyCache: seq<real>,
                    valueCache: seq<real>, h0: nat)
    requires kn.Valid() && sh.Valid(q, keyCache, valueCache) && h0 < sh.nHeads0
    requires x.Length == Mul(sh.nHeads0, sh.headSize) && att.Length >= Mul(sh.nHeads0, sh.seqLen) && x != att
    modifies x, att
    ensures Mul(h0, sh.headSize) + sh.headSize <= x.Length
    ensures x[Mul(h0, sh.headSize)..Mul(h0, sh.headSize) + sh.headSize] == sh.Output(kn, q, keyCache, valueCache, h0)
    ensures Within(old(x[..]), x[..], Mul(h0, sh.headSize), Mul(h0, sh.headSize) + sh.headSize)
    ensures Within(old(att[..]), att[..], Mul(h0, sh.seqLen), Mul(h0, sh.seqLen) + sh.pos + 1)
  {
    hide Mul, Div, CacheRows, PartOfRows, Scores, Weighted, Kernel.Valid;
    SliceInside(h0, sh.nHeads0, sh.headSize);
    SliceInside(h0, sh.nHeads0, sh.seqLen);
    sh.RowsFit(q, keyCache, valueCache, h0 + 1);
    var off, base, g, n := Mul(h0, sh.headSize), Mul(h0, sh.seqLen), Div(h0, sh.kvMul), sh.pos + 1;
    assert sh.Column(h0) + sh.headSize <= sh.kvDim0;
    var hQ := q[off..off + sh.headSize];
    ScoreHead(kn, att, base, hQ, keyCache, g, sh.headSize, sh.kvDim0, n);
    SoftmaxInPlace(kn, att, base, n);
    var a := att[base..base + n];
    WeightedSum(x, off, a, valueCache, g, sh.headSize, sh.kvDim0);
    HeadEntries(kn, sh, q, keyCache, valueCache, h0, a);
  }

  /** The weighted sums over the softmax of the scores are the head's output. */
  lemma HeadEntries(kn: Kernel, sh: Shape, q: seq<real>, keyCache: seq<real>, valueCache: seq<real>, h0: nat, a: seq<real>)
    requires kn.Valid() && sh.Valid(q, keyCache, valueCache) && h0 < sh.nHeads0
    requires Fits(q, sh.Rows(keyCache), sh.Rows(valueCache), h0 + 1, sh.kvMul, sh.headSize)
    requires Mul(h0, sh.headSize) + sh.headSize <= |q|
    requires a == kn.softmax(Scores(kn, Slice(q, sh.headSize, h0), PartOfRows(sh.Rows(keyCache), sh.headSize, Div(h0, sh.kvMul))))
    ensures |a| == sh.pos + 1
    ensures var off, values := Mul(h0, sh.headSize), PartOfRows(sh.Rows(valueCache), sh.headSize, Div(h0, sh.kvMul));
            forall i: nat | i < sh.headSize ::
              WeightedAt(a, values, off, sh.headSize, off + i) == sh.Output(kn, q, keyCache, valueCache, h0)[i]
  {
    hide Mul, Div, CacheRows, PartOfRows, Scores, Weighted;
  }

  /** multiheadAtt_F32: the heads of one thread. */
  method MultiheadAttThread(kn: Kernel, sh: Shape, x: array<real>, q: seq<real>, att: array<real>, keyCache: seq<real>,
                            valueCache: seq<real>, nThreads: nat, threadIndex: nat)
    requires kn.Valid() && sh.Valid(q, keyCache, valueCache) && threadIndex < nThreads
    requires x.Length == Mul(sh.nHeads0, sh.headSize) && att.Length >= Mul(sh.nHeads0, sh.seqLen) && x != att
    modifies x, att
    ensures SplitEnd(sh.nHeads0, nThreads, threadIndex) <= sh.nHeads0
    ensures forall h: nat | SplitStart(sh.nHeads0, nThreads, threadIndex) <= h < SplitEnd(sh.nHeads0, nThreads, threadIndex) ::
              HeadIs(x[..], sh, h, sh.Output(kn, q, keyCache, valueCache, h))
    ensures forall h: nat, out: seq<real> | h < sh.nHeads0 && old(HeadIs(x[..], sh, h, out)) &&
              !(SplitStart(sh.nHeads0, nThreads, threadIndex) <= h < SplitEnd(sh.nHeads0, nThreads, threadIndex)) ::
              HeadIs(x[..], sh, h, out)
    ensures Within(old(x[..]), x[..], Mul(SplitStart(sh.nHeads0, nThreads, threadIndex), sh.headSize),
                   Mul(SplitEnd(sh.nHeads0, nThreads, threadIndex), sh.headSize))
    ensures OwnStretches(sh, old(att[..]), att[..], SplitStart(sh.nHeads0, nThreads, threadIndex),
                         SplitEnd(sh.nHeads0, nThreads, threadIndex))
  {
    hide Mul, Div, SplitStart, SplitEnd, Shape.Output, HeadIs, Kernel.Valid, Shape.Valid, Within, OwnStretches;
    SplitEdges(sh.nHeads0, nThreads, threadIndex);
    SplitUpTo(sh.nHeads0, nThreads, threadIndex + 1, nThreads);
    var h0Start, h0End := SplitStart(sh.nHeads0, nThreads, threadIndex), SplitEnd(sh.nHeads0, nThreads, threadIndex);
    WithinNothing(x[..], Mul(h0Start, sh.headSize));
    OwnNothing(sh, att[..], h0Start);
    for h0 := h0Start to h0End
      invariant Within(old(x[..]), x[..], Mul(h0Start, sh.headSize), Mul(h0, sh.headSize))
      invariant OwnStretches(sh, old(att[..]), att[..], h0Start, h0)
      invariant forall h: nat | h0Start <= h < h0 :: HeadIs(x[..], sh, h, sh.Output(kn, q, keyCache, valueCache, h))
      invariant forall h: nat, out: seq<real> | h < sh.nHeads0 && old(HeadIs(x[..], sh, h, out)) && !(h0Start <= h < h0) ::
                  HeadIs(x[..], sh, h, out)
    {
      ghost var before, scratch := x[..], att[..];
      AttendHead(kn, sh, x, q, att, keyCache, valueCache, h0);
      MulMonotone(h0Start, h0, sh.headSize);
      MulNext(h0, sh.headSize);
      WithinNext(old(x[..]), before, x[..], Mul(h0Start, sh.headSize), Mul(h0, sh.headSize), sh.headSize);
      OwnNext(sh, old(att[..]), scratch, att[..], h0Start, h0);
      OtherHeads(sh, before, x[..], h0, sh.Output(kn, q, keyCache, valueCache, h0));
    }
  }

  /** Only cells in the stretches of heads [lo, hi) have changed. */
  ghost predicate OwnStretches(sh: Shape, before: seq<real>, after: seq<real>, lo: nat, hi: nat) {
    && |before| == |after|
    && forall i: nat | i < |after| && (forall h: nat | lo <= h < hi :: !InStretch(sh, h, i)) :: after[i] == before[i]
  }

  lemma OwnNothing(sh: Shape, att: seq<real>, lo: nat)
    ensures OwnStretches(sh, att, att, lo, lo)
  {
  }

  lemma OwnNext(sh: Shape, before: seq<real>, mid: seq<real>, after: seq<real>, lo: nat, h0: nat)
    requires lo <= h0 && OwnStretches(sh, before, mid, lo, h0)
    requires Within(mid, after, Mul(h0, sh.seqLen), Mul(h0, sh.seqLen) + sh.pos + 1)
    ensures OwnStretches(sh, before, after, lo, h0 + 1)
  {
    hide Mul;
    forall i: nat | i < |after| && forall h: nat | lo <= h < h0 + 1 :: !InStretch(sh, h, i)
      ensures after[i] == before[i]
    {
      assert !InStretch(sh, h0, i);
    }
  }

  lemma WithinNothing(x: seq<real>, lo: nat)
    ensures Within(x, x, lo, lo)
  {
  }

  lemma WithinNext(before: seq<real>, mid: seq<real>, after: seq<real>, lo: nat, at: nat, count: nat)
    requires lo <= at && Within(before, mid, lo, at) && Within(mid, after, at, at + count)
    ensures Within(before, after, lo, at + count)
  {
  }

  /** The stretch of head `h` in the output. */
  ghost predicate HeadIs(x: seq<real>, sh: Shape, h: nat, out: seq<real>) {
    Mul(h, sh.headSize) + sh.headSize <= |x| && x[Mul(h, sh.headSize)..Mul(h, sh.headSize) + sh.headSize] == out
  }

  lemma OtherHeads(sh: Shape, before: seq<real>, after: seq<real>, h0: nat, out: seq<real>)
    requires |before| == |after| && Mul(h0, sh.headSize) + sh.headSize <= |after|
    requires after[Mul(h0, sh.headSize)..Mul(h0, sh.headSize) + sh.headSize] == out
    requires Within(before, after, Mul(h0, sh.headSize), Mul(h0, sh.headSize) + sh.headSize)
    ensures HeadIs(after, sh, h0, out)
    ensures forall h: nat, o: seq<real> | h != h0 && HeadIs(before, sh, h, o) :: HeadIs(after, sh, h, o)
  {
    hide Mul;
    forall h: nat, o: seq<real> | h != h0 && HeadIs(before, sh, h, o)
      ensures HeadIs(after, sh, h, o)
    {
      MulNext(h, sh.headSize);
      MulNext(h0, sh.headSize);
      if h < h0 {
        MulMonotone(h + 1, h0, sh.headSize);
      } else {
        MulMonotone(h0 + 1, h, sh.headSize);
      }
      var at := Mul(h, sh.headSize);
      assert forall i | at <= i < at + sh.headSize :: after[i] == before[i];
      assert after[at..at + sh.headSize] == before[at..at + sh.headSize];
    }
  }

  /** The step of all threads, in any order: the output is that of all heads. */
  method MultiheadAtt(kn: Kernel, sh: Shape, x: array<real>, q: seq<real>, att: array<real>, keyCache: seq<real>,
                      valueCache: seq<real>, nThreads: nat, order: seq<nat>)
    requires kn.Valid() && sh.Valid(q, keyCache, valueCache) && nThreads > 0 && Order(order, nThreads)
    requires x.Length == Mul(sh.nHeads0, sh.headSize) && att.Length >= Mul(sh.nHeads0, sh.seqLen) && x != att
    modifies x, att
    ensures Fits(q, sh.Rows(keyCache), sh.Rows(valueCache), sh.nHeads0, sh.kvMul, sh.headSize)
    ensures x[..] == Heads(kn, q, sh.Rows(keyCache), sh.Rows(valueCache), sh.nHeads0, sh.kvMul, sh.headSize)
  {
    hide Mul, Div, SplitStart, SplitEnd, Shape.Output, HeadIs, Kernel.Valid, Shape.Valid, Order, Taker;
    for k := 0 to |order|
      invariant forall h: nat | h < sh.nHeads0 && Taker(sh.nHeads0, nThreads, h) in order[..k] ::
                  HeadIs(x[..], sh, h, sh.Output(kn, q, keyCache, valueCache, h))
    {
      NextThread(order, nThreads, k);
      label L:
      MultiheadAttThread(kn, sh, x, q, att, keyCache, valueCache, nThreads, order[k]);
      forall h: nat | h < sh.nHeads0 && Taker(sh.nHeads0, nThreads, h) in order[..k + 1]
        ensures HeadIs(x[..], sh, h, sh.Output(kn, q, keyCache, valueCache, h))
      {
        TakerIs(sh.nHeads0, nThreads, h, order[k]);
        if Taker(sh.nHeads0, nThreads, h) in order[..k] {
          assert old@L(HeadIs(x[..], sh, h, sh.Output(kn, q, keyCache, valueCache, h)));
        }
      }
    }
    forall h: nat | h < sh.nHeads0
      ensures HeadIs(x[..], sh, h, sh.Output(kn, q, keyCache, valueCache, h))
    {
      TakerIs(sh.nHeads0, nThreads, h, 0);
      EveryThread(order, nThreads, Taker(sh.nHeads0, nThreads, h));
    }
    AllHeads(kn, sh, x[..], q, keyCache, valueCache);
  }

  lemma AllHeads(kn: Kernel, sh: Shape, x: seq<real>, q: seq<real>, keyCache: seq<real>, valueCache: seq<real>)
    requires kn.Valid() && sh.Valid(q, keyCache, valueCache) && |x| == Mul(sh.nHeads0, sh.headSize)
    requires forall h: nat | h < sh.nHeads0 :: HeadIs(x, sh, h, sh.Output(kn, q, keyCache, valueCache, h))
    ensures Fits(q, sh.Rows(keyCache), sh.Rows(valueCache), sh.nHeads0, sh.kvMul, sh.headSize)
    ensures x == Heads(kn, q, sh.Rows(keyCache), sh.Rows(valueCache), sh.nHeads0, sh.kvMul, sh.headSize)
  {
    sh.RowsFit(q, keyCache, valueCache, sh.nHeads0);
    hide Mul, Div, Heads, HeadAt, Shape.Rows, Fits;
    var whole := Heads(kn, q, sh.Rows(keyCache), sh.Rows(valueCache), sh.nHeads0, sh.kvMul, sh.headSize);
    var parts := seq(sh.nHeads0, h requires 0 <= h < sh.nHeads0 =>
      (SliceInside(h, sh.nHeads0, sh.headSize); Slice(x, sh.headSize, h)));
    forall h: nat | h < sh.nHeads0
      ensures Mul(h, sh.headSize) + sh.headSize <= |x|
      ensures Slice(x, sh.headSize, h) == Slice(whole, sh.headSize, h)
    {
      assert HeadIs(x, sh, h, sh.Output(kn, q, keyCache, valueCache, h));
      HeadsAt(kn, q, sh.Rows(keyCache), sh.Rows(valueCache), sh.nHeads0, sh.kvMul, sh.headSize, h);
    }
    SlicesRebuild(x, sh.headSize, sh.nHeads0, parts);
    SlicesRebuild(whole, sh.headSize, sh.nHeads0, parts);
  }
}
