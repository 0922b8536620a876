/** Rotary embedding over sharded vectors: the slice of src/nn/nn-core.cpp that gives each node its
    part of the angle cache, the loops that fill it, and the op of src/nn/nn-cpu-ops.cpp that reads it. */
module Rope {
  import opened Arith
  import opened Matrix
  import opened Threads

  /** Cosine and sine of the angle of dimension `headDim` of a head at position `pos`. */
  datatype Angles = Angles(cos: (nat, nat) -> real, sin: (nat, nat) -> real)

  datatype RopeSlice = RopeSlice(
    qDim0: nat, kvDim0: nat, kvDimStart: nat, qDimStart: nat, qDimEnd: nat, qShift: nat, sliceDim: nat,
    seqLen: nat, headSize: nat)
  {
    /** The local vector starts at this global dimension. */
    function DimStart(isQ: bool): nat {
      if isQ then qDimStart else kvDimStart
    }

    function Dim0(isQ: bool): nat {
      if isQ then qDim0 else kvDim0
    }

    function Shift(isQ: bool): nat {
      if isQ then qShift else 0
    }

    ghost predicate Valid() {
      && headSize > 0 && qDim0 % 2 == 0 && kvDim0 % 2 == 0 && kvDimStart % 2 == 0 && qDimStart % 2 == 0
      && kvDimStart <= qDimStart && qDimEnd == qDimStart + qDim0 && kvDim0 <= sliceDim
      && qShift == qDimStart - kvDimStart && sliceDim == qDimEnd - kvDimStart
    }
  }

  /** sliceRope: `dim` and `kvDim` are the whole query and key widths. */
  function SliceRope(dim: nat, kvDim: nat, nNodes: nat, seqLen: nat, headSize: nat, node: nat): (s: RopeSlice)
    requires nNodes > 0 && node < nNodes && headSize > 0
    requires kvDim <= dim && Rem(dim, nNodes) == 0 && Rem(kvDim, nNodes) == 0
    requires Div(dim, nNodes) % 2 == 0 && Div(kvDim, nNodes) % 2 == 0
    ensures s.Valid() && s.qDim0 == Div(dim, nNodes) && s.kvDim0 == Div(kvDim, nNodes)
    ensures s.Dim0(true) == Div(dim, nNodes) && s.Dim0(false) == Div(kvDim, nNodes)
    ensures s.DimStart(true) == Mul(node, s.qDim0) && s.DimStart(false) == Mul(node, s.kvDim0)
    ensures s.seqLen == seqLen && s.headSize == headSize
  {
    var qDim0, kvDim0 := Div(dim, nNodes), Div(kvDim, nNodes);
    SliceDims(dim, kvDim, nNodes, node);
    var kvDimStart, qDimStart := Mul(kvDim0, node), Mul(qDim0, node);
    RopeSlice(qDim0, kvDim0, kvDimStart, qDimStart, qDimStart + qDim0, qDimStart - kvDimStart,
              qDimStart + qDim0 - kvDimStart, seqLen, headSize)
  }

  lemma SliceDims(dim: nat, kvDim: nat, nNodes: nat, node: nat)
    requires nNodes > 0 && kvDim <= dim && Rem(dim, nNodes) == 0 && Rem(kvDim, nNodes) == 0
    ensures Div(kvDim, nNodes) <= Div(dim, nNodes)
    ensures Mul(Div(kvDim, nNodes), node) <= Mul(Div(dim, nNodes), node)
    ensures Mul(Div(dim, nNodes), node) == Mul(node, Div(dim, nNodes))
    ensures Mul(Div(kvDim, nNodes), node) == Mul(node, Div(kvDim, nNodes))
    ensures Div(dim, nNodes) % 2 == 0 ==> Mul(Div(dim, nNodes), node) % 2 == 0
    ensures Div(kvDim, nNodes) % 2 == 0 ==> Mul(Div(kvDim, nNodes), node) % 2 == 0
  {
    var q, kv := Div(dim, nNodes), Div(kvDim, nNodes);
    EvenTimes(q, node);
    EvenTimes(kv, node);
    hide Mul, Div, Rem;
    Division(dim, nNodes);
    Division(kvDim, nNodes);
    if q < kv {
      MulMonotone(q + 1, kv, nNodes);
      MulNext(q, nNodes);
    }
    MulMonotone(kv, q, node);
    MulNext(q, node);
    MulNext(kv, node);
  }

  lemma {:induction false} EvenTimes(a: nat, n: nat)
    ensures a % 2 == 0 ==> Mul(a, n) % 2 == 0
  {
    MulNext(a, 0);
    hide Mul;
    if n > 0 {
      EvenTimes(a, n - 1);
      MulNext(a, n - 1);
    }
  }

  /** The rotation of the whole vector whose first entry is global dimension `start`. */
  function Rotate(angles: Angles, headSize: nat, pos: nat, start: nat, v: seq<real>): (r: seq<real>)
    requires headSize > 0 && |v| % 2 == 0 && start % 2 == 0
    ensures |r| == |v|
  {
    seq(|v|, i requires 0 <= i < |v| => RotatedAt(angles, headSize, pos, start, v, i))
  }

  /** Entries come in pairs: an even entry and the odd one after it turn together. */
  function RotatedAt(angles: Angles, headSize: nat, pos: nat, start: nat, v: seq<real>, i: nat): real
    requires headSize > 0 && |v| % 2 == 0 && i < |v|
  {
    var even := i - i % 2;
    var dim := HeadDim(start + even, headSize);
    if i % 2 == 0 then First(v[even], v[even + 1], angles.cos(pos, dim), angles.sin(pos, dim))
    else Second(v[even], v[even + 1], angles.cos(pos, dim), angles.sin(pos, dim))
  }

  /** The dimension inside its head. */
  function HeadDim(i: nat, headSize: nat): nat
    requires headSize > 0
  {
    i % headSize
  }

  function First(v0: real, v1: real, fcr: real, fci: real): real {
    v0 * fcr - v1 * fci
  }

  function Second(v0: real, v1: real, fcr: real, fci: real): real {
    v0 * fci + v1 * fcr
  }

  /** What rotating does to the pair of global dimensions `start + i` and the next: with the angle of its position
      and of the dimension inside its head it turns by that angle. */
  lemma PairTurned(angles: Angles, headSize: nat, pos: nat, start: nat, v: seq<real>, i: nat)
    requires headSize > 0 && |v| % 2 == 0 && start % 2 == 0 && i % 2 == 0 && i + 1 < |v|
    ensures var r, c, s := Rotate(angles, headSize, pos, start, v), angles.cos(pos, (start + i) % headSize),
                           angles.sin(pos, (start + i) % headSize);
            r[i] == v[i] * c - v[i + 1] * s && r[i + 1] == v[i] * s + v[i + 1] * c
  {
    assert i + 1 - (i + 1) % 2 == i;
  }

  /** Turning keeps the length of a pair where the angles are angles. */
  lemma PairKeepsLength(angles: Angles, headSize: nat, pos: nat, start: nat, v: seq<real>, i: nat)
    requires headSize > 0 && |v| % 2 == 0 && start % 2 == 0 && i % 2 == 0 && i + 1 < |v|
    requires var c, s := angles.cos(pos, (start + i) % headSize), angles.sin(pos, (start + i) % headSize); c * c + s * s == 1.0
    ensures var r := Rotate(angles, headSize, pos, start, v);
            r[i] * r[i] + r[i + 1] * r[i + 1] == v[i] * v[i] + v[i + 1] * v[i + 1]
  {
    PairTurned(angles, headSize, pos, start, v, i);
    hide Rotate;
    Turned(v[i], v[i + 1], v[i], v[i + 1], angles.cos(pos, (start + i) % headSize), angles.sin(pos, (start + i) % headSize),
           angles.cos(pos, (start + i) % headSize), angles.sin(pos, (start + i) % headSize), 1.0, 0.0);
  }

  /** The angles of two positions subtract. */
  predicate Subtract(angles: Angles, pos: nat, pos': nat, d: nat)
    requires pos' <= pos
  {
    && angles.cos(pos - pos', d) == angles.cos(pos, d) * angles.cos(pos', d) + angles.sin(pos, d) * angles.sin(pos', d)
    && angles.sin(pos - pos', d) == angles.sin(pos, d) * angles.cos(pos', d) - angles.cos(pos, d) * angles.sin(pos', d)
  }

  /** What a pair adds to the product of a query and a key. */
  function PairProduct(q0: real, q1: real, k0: real, k1: real): real {
    q0 * k0 + q1 * k1
  }

  /** The product of a turned query pair and a turned key pair is that of the query pair, turned by the difference of
      their angles only, and the key pair as it was: attention sees how far apart two positions are. */
  lemma RelativePosition(angles: Angles, headSize: nat, pos: nat, pos': nat, start: nat, q: seq<real>, k: seq<real>, i: nat)
    requires headSize > 0 && |q| == |k| && |q| % 2 == 0 && start % 2 == 0 && i % 2 == 0 && i + 1 < |q| && pos' <= pos
    requires Subtract(angles, pos, pos', (start + i) % headSize)
    ensures var a, b, t := Rotate(angles, headSize, pos, start, q), Rotate(angles, headSize, pos', start, k),
                           Rotate(angles, headSize, pos - pos', start, q);
            PairProduct(a[i], a[i + 1], b[i], b[i + 1]) == PairProduct(t[i], t[i + 1], k[i], k[i + 1])
  {
    var d := (start + i) % headSize;
    PairIsTurned(angles, headSize, pos, start, q, i);
    PairIsTurned(angles, headSize, pos', start, k, i);
    PairIsTurned(angles, headSize, pos - pos', start, q, i);
    hide Rotate, First, Second, PairProduct, Subtract;
    Difference(angles, pos, pos', d, q[i], q[i + 1], k[i], k[i + 1]);
  }

  lemma PairIsTurned(angles: Angles, headSize: nat, pos: nat, start: nat, v: seq<real>, i: nat)
    requires headSize > 0 && |v| % 2 == 0 && start % 2 == 0 && i % 2 == 0 && i + 1 < |v|
    ensures var r, c, s := Rotate(angles, headSize, pos, start, v), angles.cos(pos, (start + i) % headSize),
                           angles.sin(pos, (start + i) % headSize);
            r[i] == First(v[i], v[i + 1], c, s) && r[i + 1] == Second(v[i], v[i + 1], c, s)
  {
    hide First, Second;
    assert i + 1 - (i + 1) % 2 == i;
  }

  lemma Difference(angles: Angles, pos: nat, pos': nat, d: nat, q0: real, q1: real, k0: real, k1: real)
    requires pos' <= pos && Subtract(angles, pos, pos', d)
    ensures var (c, s) := (angles.cos(pos, d), angles.sin(pos, d));
            var (c', s') := (angles.cos(pos', d), angles.sin(pos', d));
            var (cd, sd) := (angles.cos(pos - pos', d), angles.sin(pos - pos', d));
            var turned := PairProduct(First(q0, q1, c, s), Second(q0, q1, c, s), First(k0, k1, c', s'), Second(k0, k1, c', s'));
            turned == PairProduct(First(q0, q1, cd, sd), Second(q0, q1, cd, sd), k0, k1)
  {
    Turned(q0, q1, k0, k1, angles.cos(pos, d), angles.sin(pos, d), angles.cos(pos', d), angles.sin(pos', d),
           angles.cos(pos - pos', d), angles.sin(pos - pos', d));
  }

  /** The product of two turned pairs, by the angles' products. */
  lemma Turned(q0: real, q1: real, k0: real, k1: real, c: real, s: real, c': real, s': real, cd: real, sd: real)
    requires cd == c * c' + s * s' && sd == s * c' - c * s'
    ensures (q0 * c - q1 * s) * (k0 * c' - k1 * s') + (q0 * s + q1 * c) * (k0 * s' + k1 * c')
         == (q0 * cd - q1 * sd) * k0 + (q0 * sd + q1 * cd) * k1
  {
  }

  /** Rotating a node's part with the angles of its global dimensions is the node's part of the whole
      rotation. */
  lemma RotateShard(angles: Angles, headSize: nat, pos: nat, v: seq<real>, dim0: nat, node: nat)
    requires headSize > 0 && |v| % 2 == 0 && dim0 % 2 == 0 && Mul(node, dim0) + dim0 <= |v|
    ensures Mul(node, dim0) % 2 == 0
    ensures Rotate(angles, headSize, pos, Mul(node, dim0), Slice(v, dim0, node))
         == Slice(Rotate(angles, headSize, pos, 0, v), dim0, node)
  {
    EvenTimes(dim0, node);
    MulNext(dim0, node);
    hide Mul, First, Second, RotatedAt;
    var start := Mul(node, dim0);
    var local := Slice(v, dim0, node);
    var part, whole := Rotate(angles, headSize, pos, start, local), Rotate(angles, headSize, pos, 0, v);
    forall i: nat | i < dim0
      ensures part[i] == whole[start + i]
    {
      RotatedShift(angles, headSize, pos, v, start, dim0, i);
    }
  }

  lemma RotatedShift(angles: Angles, headSize: nat, pos: nat, v: seq<real>, start: nat, dim0: nat, i: nat)
    requires headSize > 0 && |v| % 2 == 0 && start % 2 == 0 && dim0 % 2 == 0 && start + dim0 <= |v| && i < dim0
    ensures RotatedAt(angles, headSize, pos, start, v[start..start + dim0], i) == RotatedAt(angles, headSize, pos, 0, v, start + i)
  {
    hide First, Second, HeadDim;
    var local := v[start..start + dim0];
    var even := i - i % 2;
    assert (start + i) % 2 == i % 2;
    assert start + i - (start + i) % 2 == start + even;
    assert local[even] == v[start + even] && local[even + 1] == v[start + even + 1];
  }

  /** The cache cell for global dimension `i` (even) at `pos`, and the one after it. */
  function CacheIndex(s: RopeSlice, pos: nat, i: nat): nat
    requires s.kvDimStart <= i
  {
    Mul(pos, s.sliceDim) + (i - s.kvDimStart)
  }

  ghost predicate CellFilled(angles: Angles, s: RopeSlice, cache: seq<real>, pos: nat, i: nat)
    requires s.headSize > 0 && s.kvDimStart <= i
  {
    && CacheIndex(s, pos, i) + 1 < |cache|
    && cache[CacheIndex(s, pos, i)] == angles.cos(pos, HeadDim(i, s.headSize))
    && cache[CacheIndex(s, pos, i) + 1] == angles.sin(pos, HeadDim(i, s.headSize))
  }

  ghost predicate Filled(angles: Angles, s: RopeSlice, cache: seq<real>) {
    s.Valid() && forall pos: nat, i: nat {:trigger CellFilled(angles, s, cache, pos, i)} |
      pos < s.seqLen && s.kvDimStart <= i < s.qDimEnd && i % 2 == 0 :: CellFilled(angles, s, cache, pos, i)
  }

  lemma CellsApart(s: RopeSlice, pos: nat, i: nat, pos': nat, i': nat)
    requires s.Valid() && s.kvDimStart <= i < s.qDimEnd && s.kvDimStart <= i' < s.qDimEnd && i % 2 == 0 && i' % 2 == 0
    requires pos < s.seqLen
    ensures CacheIndex(s, pos, i) + 1 < Mul(s.seqLen, s.sliceDim)
    ensures (pos, i) != (pos', i') ==>
              CacheIndex(s, pos, i) + 1 < CacheIndex(s, pos', i') || CacheIndex(s, pos', i') + 1 < CacheIndex(s, pos, i)
  {
    hide Mul;
    MulMonotone(pos + 1, s.seqLen, s.sliceDim);
    MulNext(pos, s.sliceDim);
    MulNext(pos', s.sliceDim);
    if pos < pos' {
      MulMonotone(pos + 1, pos', s.sliceDim);
    } else if pos' < pos {
      MulMonotone(pos' + 1, pos, s.sliceDim);
    }
  }

  /** The cells before cell `(pos, i)`, position by position, are filled. */
  ghost predicate FilledTo(angles: Angles, s: RopeSlice, cache: seq<real>, pos: nat, i: nat) {
    s.Valid() && forall p: nat, j: nat {:trigger CellFilled(angles, s, cache, p, j)} |
      s.kvDimStart <= j < s.qDimEnd && j % 2 == 0 && (p < pos || (p == pos && j < i)) :: CellFilled(angles, s, cache, p, j)
  }

  lemma FilledStep(angles: Angles, s: RopeSlice, before: seq<real>, after: seq<real>, pos: nat, i: nat)
    requires FilledTo(angles, s, before, pos, i) && |before| == |after| && pos < s.seqLen
    requires s.kvDimStart <= i < s.qDimEnd && i % 2 == 0 && CellFilled(angles, s, after, pos, i)
    requires forall k | 0 <= k < |after| && k != CacheIndex(s, pos, i) && k != CacheIndex(s, pos, i) + 1 :: after[k] == before[k]
    ensures FilledTo(angles, s, after, pos, i + 2)
  {
    hide Mul, CacheIndex;
    forall p: nat, j: nat | s.kvDimStart <= j < s.qDimEnd && j % 2 == 0 && (p < pos || (p == pos && j < i))
      ensures CellFilled(angles, s, after, p, j)
    {
      assert CellFilled(angles, s, before, p, j);
      CellsApart(s, p, j, pos, i);
    }
  }

  /** fullfillRopeLlama3Cache. */
  method FillCache(angles: Angles, s: RopeSlice, cache: array<real>)
    requires s.Valid() && cache.Length == Mul(s.seqLen, s.sliceDim)
    modifies cache
    ensures Filled(angles, s, cache[..])
  {
    hide Mul, CacheIndex, CellFilled;
    for pos := 0 to s.seqLen
      invariant FilledTo(angles, s, cache[..], pos, s.kvDimStart)
    {
      var i := s.kvDimStart;
      while i < s.qDimEnd
        invariant s.kvDimStart <= i <= s.qDimEnd && i % 2 == 0
        invariant FilledTo(angles, s, cache[..], pos, i)
      {
        ghost var before := cache[..];
        FillCell(angles, s, cache, pos, i);
        FilledStep(angles, s, before, cache[..], pos, i);
        i := i + 2;
      }
    }
  }

  method FillCell(angles: Angles, s: RopeSlice, cache: array<real>, pos: nat, i: nat)
    requires s.Valid() && cache.Length == Mul(s.seqLen, s.sliceDim)
    requires pos < s.seqLen && s.kvDimStart <= i < s.qDimEnd && i % 2 == 0
    modifies cache
    ensures CellFilled(angles, s, cache[..], pos, i)
    ensures forall k | 0 <= k < cache.Length && k != CacheIndex(s, pos, i) && k != CacheIndex(s, pos, i) + 1 ::
              cache[k] == old(cache[k])
  {
    CellsApart(s, pos, i, pos, i);
    hide Mul, CacheIndex;
    var headDim := HeadDim(i, s.headSize);
    cache[CacheIndex(s, pos, i)] := angles.cos(pos, headDim);
    cache[CacheIndex(s, pos, i) + 1] := angles.sin(pos, headDim);
  }

  /** ropeLlamaForward for one batch row and one thread: the thread's pairs are rotated in place with
      the cells of their global dimensions, all of them inside the cache. */
  method RopeThread(angles: Angles, s: RopeSlice, isQ: bool, cache: seq<real>, pos: nat, x: array<real>,
                    nThreads: nat, threadIndex: nat)
    requires Filled(angles, s, cache) && pos < s.seqLen && x.Length == s.Dim0(isQ)
    requires threadIndex < nThreads
    modifies x
    ensures var pairs := s.Dim0(isQ) / 2;
            && SplitEnd(pairs, nThreads, threadIndex) <= pairs
            && Updated(old(x[..]), x[..], 2 * SplitStart(pairs, nThreads, threadIndex), 2 * SplitEnd(pairs, nThreads, threadIndex),
                       Turn(angles, s, isQ, pos, old(x[..])))
  {
    hide SplitStart, SplitEnd, Mul, RotatedAt, First, Second, Turn, CellFilled, CacheIndex, Filled, Updated;
    var dim0Half := s.Dim0(isQ) / 2;
    SplitEdges(dim0Half, nThreads, threadIndex);
    SplitUpTo(dim0Half, nThreads, threadIndex + 1, nThreads);
    var iStart, iEnd := 2 * SplitStart(dim0Half, nThreads, threadIndex), 2 * SplitEnd(dim0Half, nThreads, threadIndex);
    var posCache := Mul(pos, s.sliceDim) + s.Shift(isQ);
    ghost var before, turn := x[..], Turn(angles, s, isQ, pos, x[..]);
    UpdatedNone(before, iStart, turn);
    var i := iStart;
    ghost var pair := SplitStart(dim0Half, nThreads, threadIndex);
    while i < iEnd
      invariant i == 2 * pair && iStart <= i <= iEnd
      invariant Updated(before, x[..], iStart, i, turn) && (forall k | i <= k < x.Length :: x[k] == before[k])
    {
      PairRead(angles, s, isQ, cache, pos, before, i);
      var fcr, fci := cache[posCache + i], cache[posCache + i + 1];
      var v0, v1 := x[i], x[i + 1];
      ghost var mid := x[..];
      x[i] := First(v0, v1, fcr, fci);
      x[i + 1] := Second(v0, v1, fcr, fci);
      UpdatedPair(before, mid, x[..], iStart, i, turn);
      i := i + 2;
      pair := pair + 1;
    }
  }

  /** The step of all threads, in any order: the local vector is rotated with the angles of its global
      dimensions. */
  method RopeForward(angles: Angles, s: RopeSlice, isQ: bool, cache: seq<real>, pos: nat, x: array<real>,
                     nThreads: nat, order: seq<nat>)
    requires Filled(angles, s, cache) && pos < s.seqLen && x.Length == s.Dim0(isQ)
    requires nThreads > 0 && Order(order, nThreads)
    modifies x
    ensures x[..] == Rotate(angles, s.headSize, pos, s.DimStart(isQ), old(x[..]))
  {
    assert s.Valid();
    hide SplitStart, SplitEnd, Taker, Order, RotatedAt, Turn, Filled, Updated, PairIs;
    ghost var before, turn := x[..], Turn(angles, s, isQ, pos, x[..]);
    var pairs := s.Dim0(isQ) / 2;
    forall p: nat | p < pairs
      ensures PairIs(x[..], before, turn, p, false)
    {
      PairUntouched(before, turn, p);
    }
    for k := 0 to |order|
      invariant forall p: nat | p < pairs :: PairIs(x[..], before, turn, p, Taker(pairs, nThreads, p) in order[..k])
    {
      NextThread(order, nThreads, k);
      ghost var mid := x[..];
      RopeThread(angles, s, isQ, cache, pos, x, nThreads, order[k]);
      forall p: nat | p < pairs
        ensures PairIs(x[..], before, turn, p, Taker(pairs, nThreads, p) in order[..k + 1])
      {
        TakerIs(pairs, nThreads, p, order[k]);
        PairStep(angles, s, isQ, pos, before, mid, x[..], SplitStart(pairs, nThreads, order[k]),
                 SplitEnd(pairs, nThreads, order[k]), p, Taker(pairs, nThreads, p) in order[..k]);
      }
    }
    forall p: nat | p < pairs
      ensures PairIs(x[..], before, turn, p, true)
    {
      TakerIs(pairs, nThreads, p, 0);
      EveryThread(order, nThreads, Taker(pairs, nThreads, p));
    }
    AllPairs(angles, s, isQ, pos, before, x[..]);
  }

  /** Pair `p` has been turned, or is as it was. */
  ghost predicate PairIs(x: seq<real>, before: seq<real>, turn: nat -> real, p: nat, turned: bool) {
    && |x| == |before| && 2 * p + 1 < |x|
    && x[2 * p] == (if turned then turn(2 * p) else before[2 * p])
    && x[2 * p + 1] == (if turned then turn(2 * p + 1) else before[2 * p + 1])
  }

  lemma PairUntouched(before: seq<real>, turn: nat -> real, p: nat)
    requires p < |before| / 2
    ensures PairIs(before, before, turn, p, false)
  {
  }

  /** One thread's turn of pairs [lo, hi), seen at pair `p`: a pair turns with its own values only. */
  lemma PairStep(angles: Angles, s: RopeSlice, isQ: bool, pos: nat, before: seq<real>, mid: seq<real>, after: seq<real>,
                 lo: nat, hi: nat, p: nat, turned: bool)
    requires s.Valid() && |before| == s.Dim0(isQ) && p < |before| / 2 && hi <= |before| / 2
    requires PairIs(mid, before, Turn(angles, s, isQ, pos, before), p, turned) && (lo <= p < hi ==> !turned)
    requires Updated(mid, after, 2 * lo, 2 * hi, Turn(angles, s, isQ, pos, mid))
    ensures PairIs(after, before, Turn(angles, s, isQ, pos, before), p, turned || lo <= p < hi)
  {
    hide Turn, HeadDim;
    if lo <= p < hi {
      assert 2 * lo <= 2 * p < 2 * p + 1 < 2 * hi;
      TurnLocal(angles, s, isQ, pos, before, mid, p);
    }
  }

  /** An entry's rotation reads its own pair only. */
  lemma TurnLocal(angles: Angles, s: RopeSlice, isQ: bool, pos: nat, v: seq<real>, w: seq<real>, p: nat)
    requires s.Valid() && |v| == |w| == s.Dim0(isQ) && 2 * p + 1 < |v|
    requires v[2 * p] == w[2 * p] && v[2 * p + 1] == w[2 * p + 1]
    ensures Turn(angles, s, isQ, pos, v)(2 * p) == Turn(angles, s, isQ, pos, w)(2 * p)
    ensures Turn(angles, s, isQ, pos, v)(2 * p + 1) == Turn(angles, s, isQ, pos, w)(2 * p + 1)
  {
    hide HeadDim, First, Second;
    assert 2 * p + 1 - (2 * p + 1) % 2 == 2 * p;
  }

  lemma AllPairs(angles: Angles, s: RopeSlice, isQ: bool, pos: nat, before: seq<real>, x: seq<real>)
    requires s.Valid() && |x| == |before| == s.Dim0(isQ)
    requires forall p: nat | p < |before| / 2 :: PairIs(x, before, Turn(angles, s, isQ, pos, before), p, true)
    ensures x == Rotate(angles, s.headSize, pos, s.DimStart(isQ), before)
  {
    hide RotatedAt;
    var r := Rotate(angles, s.headSize, pos, s.DimStart(isQ), before);
    forall i | 0 <= i < |x|
      ensures x[i] == r[i]
    {
      assert PairIs(x, before, Turn(angles, s, isQ, pos, before), i / 2, true);
      assert i == 2 * (i / 2) || i == 2 * (i / 2) + 1;
    }
  }

  /** What the thread reads for a pair and what becomes of it. */
  lemma PairRead(angles: Angles, s: RopeSlice, isQ: bool, cache: seq<real>, pos: nat, v: seq<real>, i: nat)
    requires Filled(angles, s, cache) && pos < s.seqLen && |v| == s.Dim0(isQ) && i + 1 < |v| && i % 2 == 0
    ensures var at := Mul(pos, s.sliceDim) + s.Shift(isQ) + i;
            && at + 1 < |cache|
            && Turn(angles, s, isQ, pos, v)(i) == First(v[i], v[i + 1], cache[at], cache[at + 1])
            && Turn(angles, s, isQ, pos, v)(i + 1) == Second(v[i], v[i + 1], cache[at], cache[at + 1])
  {
    hide Mul, First, Second, HeadDim;
    assert i + 1 - (i + 1) % 2 == i;
    assert CellFilled(angles, s, cache, pos, s.DimStart(isQ) + i);
  }

  /** The rotated entries of a local vector. */
  ghost function Turn(angles: Angles, s: RopeSlice, isQ: bool, pos: nat, v: seq<real>): nat -> real {
    (i: nat) => if s.Valid() && |v| == s.Dim0(isQ) && i < |v| then RotatedAt(angles, s.headSize, pos, s.DimStart(isQ), v, i) else 0.0
  }
}
