/** Q80 and Q40 blocks of src/nn/nn-quants.cpp with exact scales: error bounds, and every block once
    under every division among threads. */
module QuantBlocks {
  import opened Arith
  import opened Vectors

  const BLOCK_SIZE := 32

  function Abs(x: real): real {
    if x < 0.0 then -x else x
  }

  /** roundf: to the nearest integer, halves away from zero. */
  function Round(x: real): int {
    if x >= 0.0 then (x + 0.5).Floor else -((-x + 0.5).Floor)
  }

  /** A cast to an integer type: toward zero. */
  function Truncate(x: real): int {
    if x >= 0.0 then x.Floor else -((-x).Floor)
  }

  /** Nothing is nearer, and of two equally near the one farther from zero is taken. */
  lemma RoundIsNearest(x: real, k: int)
    ensures Abs(Round(x) as real - x) <= Abs(k as real - x)
    ensures k != Round(x) && Abs(Round(x) as real - x) == Abs(k as real - x) ==> Abs(k as real) < Abs(Round(x) as real)
  {
  }

  /** The largest magnitude of the same sign that does not exceed that of `x`. */
  lemma TruncateIsTowardZero(x: real)
    ensures Abs(Truncate(x) as real) <= Abs(x) < Abs(Truncate(x) as real) + 1.0
    ensures Truncate(x) == 0 || (Truncate(x) > 0 <==> x > 0.0)
  {
  }

  /** The scan of a block: the largest magnitude, and the first value that has it. */
  function Peak(v: seq<real>): (p: (real, real))
    ensures p.0 == Abs(p.1)
  {
    if v == [] then (0.0, 0.0)
    else
      var p := Peak(v[..|v| - 1]);
      if p.0 < Abs(v[|v| - 1]) then (Abs(v[|v| - 1]), v[|v| - 1]) else p
  }

  datatype Block = Block(d: real, qs: seq<int>)

  /** `x` in units of the scale: the code multiplies by the inverse, or by 0 for a zero scale. */
  function InScales(x: real, d: real): real {
    Times(x, if d == 0.0 then 0.0 else 1.0 / d)
  }

  /** The scale of a Q80 block with largest magnitude `amax`, and of a Q40 block with peak `max`. */
  function Scale80(amax: real): real {
    amax / 127.0
  }

  function Scale40(max: real): real {
    max / -8.0
  }

  /** One Q80 value: a signed byte. */
  function Q80(x: real, amax: real): int {
    Round(InScales(x, Scale80(amax)))
  }

  function QuantizeQ80(v: seq<real>): (b: Block)
    ensures b.d == Scale80(Peak(v).0) && |b.qs| == |v|
  {
    Block(Scale80(Peak(v).0), seq(|v|, i requires 0 <= i < |v| => Q80(v[i], Peak(v).0)))
  }

  function Dequantize(b: Block): (v: seq<real>)
    ensures |v| == |b.qs|
  {
    seq(|b.qs|, i requires 0 <= i < |b.qs| => Times(b.qs[i] as real, b.d))
  }

  /** One Q40 value: a nibble, less 8. */
  function Q40(x: real, max: real): int {
    var xi := Truncate(InScales(x, Scale40(max)) + 8.5);
    (if xi > 15 then 15 else xi) - 8
  }

  function QuantizeQ40(v: seq<real>): (b: Block)
    ensures b.d == Scale40(Peak(v).1) && |b.qs| == |v|
  {
    Block(Scale40(Peak(v).1), seq(|v|, i requires 0 <= i < |v| => Q40(v[i], Peak(v).1)))
  }

  lemma RoundIsNear(y: real)
    ensures Abs(y - Round(y) as real) <= 0.5
    ensures Abs(y) <= 127.0 ==> -127 <= Round(y) <= 127
  {
  }

  lemma InScalesTimes(x: real, d: real)
    requires d != 0.0
    ensures Times(InScales(x, d), d) == x
  {
  }

  lemma AbsTimes(a: real, b: real)
    ensures Abs(Times(a, b)) == Times(Abs(a), Abs(b))
  {
  }

  lemma TimesLess(a: real, b: real, c: real)
    requires a < b && c > 0.0
    ensures Times(a, c) < Times(b, c)
  {
    assert (b - a) * c > 0.0;
  }

  lemma TimesDistributes(a: real, b: real, c: real)
    ensures Times(a - b, c) == Times(a, c) - Times(b, c)
  {
  }

  /** `q` is within `e` of `x` in scales: the error is at most `e` scales. */
  lemma ScaledError(x: real, d: real, q: real, e: real)
    requires d != 0.0 && Abs(InScales(x, d) - q) <= e
    ensures Abs(x - Times(q, d)) <= Times(e, Abs(d))
  {
    var y := InScales(x, d);
    InScalesTimes(x, d);
    hide Times, InScales;
    TimesDistributes(y, q, d);
    AbsTimes(y - q, d);
    if Abs(y - q) < e {
      TimesLess(Abs(y - q), e, Abs(d));
    }
  }

  /** How large a value is in scales. */
  lemma ScaledRange(x: real, d: real, k: real)
    requires d != 0.0 && Abs(x) <= Times(k, Abs(d))
    ensures Abs(InScales(x, d)) <= k
  {
    InScalesTimes(x, d);
    hide Times, InScales;
    AbsTimes(InScales(x, d), d);
    if Abs(InScales(x, d)) > k {
      TimesLess(k, Abs(InScales(x, d)), Abs(d));
    }
  }

  lemma Scale80Is(amax: real)
    requires amax >= 0.0
    ensures Times(127.0, Abs(Scale80(amax))) == amax && Times(0.5, Abs(Scale80(amax))) == amax / 254.0
  {
  }

  lemma Scale40Is(max: real)
    ensures Times(8.0, Abs(Scale40(max))) == Abs(max) && Times(1.0, Abs(Scale40(max))) == Abs(max) / 8.0
  {
  }

  lemma ZeroScale(x: real)
    ensures InScales(x, 0.0) == 0.0 && Times(x, 0.0) == 0.0
  {
  }

  /** Q80: the values fit a signed byte, and the error is at most amax / 254. */
  lemma Q80Error(x: real, amax: real)
    requires Abs(x) <= amax
    ensures -127 <= Q80(x, amax) <= 127
    ensures Abs(x - Times(Q80(x, amax) as real, Scale80(amax))) <= amax / 254.0
  {
    hide Times, InScales, Round;
    var d := Scale80(amax);
    Scale80Is(amax);
    RoundIsNear(InScales(x, d));
    if d != 0.0 {
      ScaledRange(x, d, 127.0);
      ScaledError(x, d, Q80(x, amax) as real, 0.5);
    } else {
      ZeroScale(x);
      ZeroScale(Q80(x, amax) as real);
    }
  }

  lemma NibbleIsNear(y: real)
    requires -8.0 <= y <= 8.0
    ensures var xi := Truncate(y + 8.5);
            var q := (if xi > 15 then 15 else xi) - 8;
            -8 <= q <= 7 && Abs(y - q as real) <= 1.0
  {
  }

  /** Q40: the values fit a nibble, and the error is at most amax / 8. */
  lemma Q40Error(x: real, max: real)
    requires Abs(x) <= Abs(max)
    ensures -8 <= Q40(x, max) <= 7
    ensures Abs(x - Times(Q40(x, max) as real, Scale40(max))) <= Abs(max) / 8.0
  {
    hide Times, InScales, Truncate;
    var d := Scale40(max);
    Scale40Is(max);
    if d != 0.0 {
      ScaledRange(x, d, 8.0);
      NibbleIsNear(InScales(x, d));
      ScaledError(x, d, Q40(x, max) as real, 1.0);
    } else {
      ZeroScale(x);
      NibbleIsNear(0.0);
      ZeroScale(Q40(x, max) as real);
    }
  }

  /** A round trip through a Q80 or a Q40 block. */
  lemma BlockErrors(v: seq<real>, i: nat)
    requires i < |v|
    ensures Abs(v[i] - Dequantize(QuantizeQ80(v))[i]) <= Peak(v).0 / 254.0
    ensures Abs(v[i] - Dequantize(QuantizeQ40(v))[i]) <= Peak(v).0 / 8.0
  {
    Restored(v, i);
    PeakBounds(v, i);
    hide *;
    Q80Error(v[i], Peak(v).0);
    Q40Error(v[i], Peak(v).1);
  }

  lemma Restored(v: seq<real>, i: nat)
    requires i < |v|
    ensures Dequantize(QuantizeQ80(v))[i] == Times(Q80(v[i], Peak(v).0) as real, Scale80(Peak(v).0))
    ensures Dequantize(QuantizeQ40(v))[i] == Times(Q40(v[i], Peak(v).1) as real, Scale40(Peak(v).1))
  {
    hide Q80, Q40, Times, Peak, Scale80, Scale40;
  }

  lemma {:induction false} PeakBounds(v: seq<real>, i: nat)
    requires i < |v|
    ensures Abs(v[i]) <= Peak(v).0 == Abs(Peak(v).1)
  {
    if i < |v| - 1 {
      PeakBounds(v[..|v| - 1], i);
    }
  }

  /** A Q40 block stores value `j` in the low and value `j + 16` in the high nibble of byte `j`. */
  function PackQ40(qs: seq<int>): (bytes: seq<int>)
    requires |qs| == BLOCK_SIZE && forall i | 0 <= i < |qs| :: -8 <= qs[i] <= 7
    ensures |bytes| == BLOCK_SIZE / 2 && forall j | 0 <= j < |bytes| :: 0 <= bytes[j] < 256
  {
    seq(BLOCK_SIZE / 2, j requires 0 <= j < BLOCK_SIZE / 2 => qs[j] + 8 + (qs[BLOCK_SIZE / 2 + j] + 8) * 16)
  }

  function UnpackQ40(bytes: seq<int>): (qs: seq<int>)
    requires |bytes| == BLOCK_SIZE / 2 && forall j | 0 <= j < |bytes| :: 0 <= bytes[j] < 256
    ensures |qs| == BLOCK_SIZE
  {
    seq(BLOCK_SIZE, i requires 0 <= i < BLOCK_SIZE =>
      if i < BLOCK_SIZE / 2 then bytes[i] % 16 - 8 else bytes[i - BLOCK_SIZE / 2] / 16 - 8)
  }

  lemma NibblesRoundTrip(qs: seq<int>)
    requires |qs| == BLOCK_SIZE && forall i | 0 <= i < |qs| :: -8 <= qs[i] <= 7
    ensures UnpackQ40(PackQ40(qs)) == qs
    ensures forall j | 0 <= j < 16 :: PackQ40(qs)[j] % 16 == qs[j] + 8 && PackQ40(qs)[j] / 16 == qs[16 + j] + 8
  {
    var bytes := PackQ40(qs);
    forall i | 0 <= i < BLOCK_SIZE
      ensures UnpackQ40(bytes)[i] == qs[i]
    {
      var j := i % 16;
      assert bytes[j] == qs[j] + 8 + (qs[16 + j] + 8) * 16;
    }
  }

  /** dequantizeQ80toF32 divides the blocks on its own: equal shares, and the rest to the last thread. */
  function ShareStart(nBlocks: nat, nThreads: nat, t: nat): nat
    requires nThreads > 0
  {
    Mul(Div(nBlocks, nThreads), t)
  }

  function ShareSize(nBlocks: nat, nThreads: nat, t: nat): nat
    requires nThreads > 0
  {
    Div(nBlocks, nThreads) + if t == nThreads - 1 then Rem(nBlocks, nThreads) else 0
  }

  /** The shares follow each other from the first block to the last. */
  lemma SharesCover(nBlocks: nat, nThreads: nat, t: nat)
    requires t < nThreads
    ensures ShareStart(nBlocks, nThreads, 0) == 0
    ensures ShareStart(nBlocks, nThreads, t) + ShareSize(nBlocks, nThreads, t)
         == if t == nThreads - 1 then nBlocks else ShareStart(nBlocks, nThreads, t + 1)
  {
    hide Mul, Div, Rem;
    var b := Div(nBlocks, nThreads);
    Division(nBlocks, nThreads);
    MulNext(b, t);
    MulNext(b, nThreads - 1);
    MulNext(b, nThreads);
    MulNext(0, b);
  }

  /** The thread that takes block `i`. */
  function ShareTaker(nBlocks: nat, nThreads: nat, i: nat): (t: nat)
    requires nThreads > 0
    ensures t < nThreads
  {
    var b := Div(nBlocks, nThreads);
    if b == 0 || Div(i, b) >= nThreads then nThreads - 1 else Div(i, b)
  }

  /** Every block is in exactly one share. */
  lemma ShareOnce(nBlocks: nat, nThreads: nat, i: nat, t: nat)
    requires t < nThreads && i < nBlocks
    ensures ShareStart(nBlocks, nThreads, t) <= i < ShareStart(nBlocks, nThreads, t) + ShareSize(nBlocks, nThreads, t)
       <==> t == ShareTaker(nBlocks, nThreads, i)
  {
    hide Mul, Div, Rem;
    var b := Div(nBlocks, nThreads);
    SharesCover(nBlocks, nThreads, t);
    MulNext(b, t);
    if b == 0 {
      MulNext(0, t);
    } else {
      Quotient(i, t, b);
      var q := Div(i, b);
      Division(i, b);
      MulNext(nThreads - 1, b);
      MulNext(b, nThreads - 1);
      if q >= nThreads {
        MulMonotone(nThreads, q, b);
        MulNext(nThreads, b);
        MulMonotone(t + 1, nThreads, b);
        MulNext(t, b);
      } else if t == nThreads - 1 && q < t {
        MulMonotone(q + 1, t, b);
        MulNext(q, b);
      }
    }
  }
}
