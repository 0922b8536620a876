/** The tiled matrix product of src/nn/llamafile/sgemm.cpp: a recursive cover of the output by
    register tiles, the division of the tiles among threads, and lane-wise accumulation. */
module Gemm {
  import opened Arith
  import opened Vectors

  /** The case tables of mnpack: tinyBLAS with and without 32 vector registers, tinyBLAS_Q0_ARM, and
      tinyBLAS_Q0_AVX2 with and without 32 vector registers. */
  datatype Table = Wide5 | Narrow5 | Arm3 | Wide4 | Narrow4

  function Cap(t: Table): nat {
    match t
    case Wide5 => 5
    case Narrow5 => 5
    case Arm3 => 3
    case Wide4 => 4
    case Narrow4 => 4
  }

  /** The tile a table chooses for a block of `dm` by `dn` cells. */
  function Tile(t: Table, dm: nat, dn: nat): (r: (nat, nat))
    requires dm > 0 && dn > 0
    ensures 1 <= r.0 <= dm && 1 <= r.1 <= dn
  {
    var a := if dm < Cap(t) then dm else Cap(t);
    var b := if dn < Cap(t) then dn else Cap(t);
    match t
    case Narrow5 => if a >= 4 && b >= 3 then (4, 3) else if a == 3 && b >= 4 then (3, 4) else (a, b)
    case Narrow4 =>
      if a == 4 && b >= 2 then (4, 2)
      else if (a == 3 || a == 2) && b == 4 then (2, 4)
      else if a == 3 && b == 3 then (3, 2)
      else (a, b)
    case _ => (a, b)
  }

  /** The accumulators a table can afford in its registers. */
  function Accumulators(t: Table): nat {
    match t
    case Wide5 => 25
    case Narrow5 => 12
    case Arm3 => 9
    case Wide4 => 16
    case Narrow4 => 8
  }

  /** The tile is a largest one: of all that fit the block, the sides the table knows and its accumulators, none
      has more cells. */
  lemma TileIsLargest(t: Table, dm: nat, dn: nat, x: nat, y: nat)
    requires 0 < x <= dm && 0 < y <= dn && x * y <= Accumulators(t)
    requires match t case Wide5 => x <= 5 && y <= 5 case Narrow5 => x <= 5 && y <= 5 case Arm3 => x <= 3 && y <= 3 case _ => x <= 4 && y <= 4
    ensures var r := Tile(t, dm, dn);
            && x * y <= r.0 * r.1 <= Accumulators(t)
            && match t case Wide5 => r.0 <= 5 && r.1 <= 5 case Narrow5 => r.0 <= 5 && r.1 <= 5 case Arm3 => r.0 <= 3 && r.1 <= 3
               case _ => r.0 <= 4 && r.1 <= 4
  {
    var a, b := if dm < Cap(t) then dm else Cap(t), if dn < Cap(t) then dn else Cap(t);
    forall u: nat, v: nat | u <= 5 && v <= 5
      ensures Five(u, v) == u * v
    {
    }
    assert Five(x, y) == x * y && Five(a, b) == a * b;
  }

  function Five(u: nat, v: nat): nat {
    if u == 0 then 0 else if u == 1 then v else if u == 2 then 2 * v else if u == 3 then 3 * v else if u == 4 then 4 * v else 5 * v
  }

  /** Where whole tiles of size `c` starting at `lo` end. */
  function Whole(lo: nat, hi: nat, c: nat): (r: nat)
    requires lo <= hi && 0 < c
    ensures lo <= r <= hi && (c <= hi - lo ==> lo < r)
  {
    Division(hi - lo, c);
    lo + Mul(Div(hi - lo, c), c)
  }

  /** Jobs per thread. */
  function Duty(tiles: nat, nth: nat): nat
    requires nth > 0
  {
    Div(tiles + nth - 1, nth)
  }

  /** The thread that takes job `job`. */
  function TakenBy(job: nat, tiles: nat, nth: nat): (ith: nat)
    requires nth > 0 && job < tiles
    ensures ith < nth
  {
    JobTaken(job, tiles, nth);
    Div(job, Duty(tiles, nth))
  }

  lemma JobTaken(job: nat, tiles: nat, nth: nat)
    requires nth > 0 && job < tiles
    ensures Duty(tiles, nth) > 0 && Div(job, Duty(tiles, nth)) < nth
  {
    hide Mul, Div, Rem;
    var duty := Duty(tiles, nth);
    Division(tiles + nth - 1, nth);
    MulNext(nth, duty);
    if duty == 0 {
      MulNext(0, nth);
    } else {
      Division(job, duty);
      if Div(job, duty) >= nth {
        MulMonotone(nth, Div(job, duty), duty);
      }
    }
  }

  /** The contiguous range of jobs of thread `ith` is the set of jobs it takes. */
  lemma RangeIsTaken(job: nat, tiles: nat, nth: nat, ith: nat)
    requires nth > 0 && job < tiles
    ensures Mul(Duty(tiles, nth), ith) <= job < Mul(Duty(tiles, nth), ith) + Duty(tiles, nth) <==> TakenBy(job, tiles, nth) == ith
  {
    hide Mul, Div, Duty;
    JobTaken(job, tiles, nth);
    Quotient(job, ith, Duty(tiles, nth));
    MulNext(ith, Duty(tiles, nth));
  }

  /** A block [m0, m) x [n0, n) of the output, cut into tiles of `rm` by `rn` cells. */
  datatype Tiling = Tiling(m0: nat, m: nat, n0: nat, n: nat, rm: nat, rn: nat) {
    predicate Valid() {
      m0 < m && n0 < n && 0 < rm && 0 < rn
    }

    function Ytiles(): nat
      requires Valid()
    {
      Div(m - m0, rm)
    }

    function Xtiles(): nat
      requires Valid()
    {
      Div(n - n0, rn)
    }

    function Tiles(): nat
      requires Valid()
    {
      Mul(Xtiles(), Ytiles())
    }

    /** Where the whole tiles end. */
    function Mp(): nat
      requires Valid()
    {
      Whole(m0, m, rm)
    }

    function Np(): nat
      requires Valid()
    {
      Whole(n0, n, rn)
    }

    /** The first row and column of the tile of a job. */
    function Row(job: nat): nat
      requires Valid() && Xtiles() > 0
    {
      m0 + Mul(Div(job, Xtiles()), rm)
    }

    function Col(job: nat): nat
      requires Valid() && Xtiles() > 0
    {
      n0 + Mul(Rem(job, Xtiles()), rn)
    }

    predicate Covers(i: nat, j: nat)
      requires Valid()
    {
      m0 <= i < Mp() && n0 <= j < Np()
    }

    /** The job whose tile holds a cell. */
    function JobAt(i: nat, j: nat): nat
      requires Valid() && Covers(i, j)
    {
      Mul(Div(i - m0, rm), Xtiles()) + Div(j - n0, rn)
    }

    lemma JobInRange(i: nat, j: nat)
      requires Valid() && Covers(i, j)
      ensures Xtiles() > 0 && Div(j - n0, rn) < Xtiles() && JobAt(i, j) < Tiles()
    {
      hide Mul, Div, Rem;
      var y, x := Div(i - m0, rm), Div(j - n0, rn);
      Division(i - m0, rm);
      Division(j - n0, rn);
      if y >= Ytiles() { MulMonotone(Ytiles(), y, rm); }
      if x >= Xtiles() { MulMonotone(Xtiles(), x, rn); }
      MulMonotone(y + 1, Ytiles(), Xtiles());
      MulNext(y, Xtiles());
      MulNext(Xtiles(), Ytiles());
    }

    /** Jobs and tiles correspond: the cells of a job are those of its tile. */
    lemma JobIsTile(i: nat, j: nat, job: nat)
      requires Valid() && Covers(i, j)
      ensures Xtiles() > 0
      ensures JobAt(i, j) == job <==> Row(job) <= i < Row(job) + rm && Col(job) <= j < Col(job) + rn
    {
      JobInRange(i, j);
      hide Mul, Div, Rem, Xtiles, Mp, Np;
      Quotient(job, Div(i - m0, rm), Xtiles());
      Quotient(i - m0, Div(job, Xtiles()), rm);
      Quotient(j - n0, Rem(job, Xtiles()), rn);
      Division(job, Xtiles());
    }

    /** A tile lies in the block. */
    lemma TileInside(job: nat)
      requires Valid() && job < Tiles()
      ensures Xtiles() > 0
      ensures m0 <= Row(job) && Row(job) + rm <= Mp() <= m && n0 <= Col(job) && Col(job) + rn <= Np() <= n
    {
      hide Mul, Div, Rem;
      MulNext(Ytiles(), Xtiles());
      MulNext(Xtiles(), Ytiles());
      MulNext(0, Ytiles());
      var y, x := Div(job, Xtiles()), Rem(job, Xtiles());
      Division(job, Xtiles());
      if y >= Ytiles() {
        MulMonotone(Ytiles(), y, Xtiles());
      }
      MulMonotone(y + 1, Ytiles(), rm);
      MulMonotone(x + 1, Xtiles(), rn);
      MulNext(y, rm);
      MulNext(x, rn);
    }

    /** The cells whose jobs are in [lo, hi). */
    ghost function InJobs(lo: int, hi: int): (nat, nat) -> bool
      requires Valid()
    {
      (i: nat, j: nat) => Covers(i, j) && lo <= JobAt(i, j) < hi
    }

    /** One more job is one more tile. */
    lemma NextJob(lo: int, job: nat)
      requires Valid() && lo <= job < Tiles()
      ensures Xtiles() > 0
      ensures forall i: nat, j: nat ::
                && (InJobs(lo, job + 1)(i, j) <==> InJobs(lo, job)(i, j) || InTile(Row(job), Col(job), rm, rn)(i, j))
                && !(InJobs(lo, job)(i, j) && InTile(Row(job), Col(job), rm, rn)(i, j))
    {
      hide JobAt, Row, Col, Tiles, Xtiles, Mp, Np;
      TileInside(job);
      forall i: nat, j: nat
        ensures Covers(i, j) ==> (JobAt(i, j) == job <==> InTile(Row(job), Col(job), rm, rn)(i, j))
      {
        if Covers(i, j) {
          JobIsTile(i, j, job);
        }
      }
    }

    /** The jobs of thread `ith`, cut off at the last tile or not, are the cells it takes. */
    lemma JobsOf(nth: nat, ith: nat, start: nat, end: nat)
      requires Valid() && nth > 0 && start == Mul(Duty(Tiles(), nth), ith)
      requires end == start + Duty(Tiles(), nth) || (Tiles() <= end <= start + Duty(Tiles(), nth))
      ensures forall i: nat, j: nat :: InJobs(start, end)(i, j) <==> TakenFrom(nth, ith)(i, j)
    {
      hide JobAt, Tiles, Mp, Np, Duty, TakenBy, Mul;
      forall i: nat, j: nat
        ensures InJobs(start, end)(i, j) <==> TakenFrom(nth, ith)(i, j)
      {
        if Covers(i, j) {
          JobInRange(i, j);
          RangeIsTaken(JobAt(i, j), Tiles(), nth, ith);
        }
      }
    }

    /** The whole-tile cells thread `ith` takes. */
    ghost function TakenFrom(nth: nat, ith: nat): (nat, nat) -> bool
      requires Valid() && nth > 0
    {
      (i: nat, j: nat) => Covers(i, j) && (JobInRange(i, j); TakenBy(JobAt(i, j), Tiles(), nth) == ith)
    }
  }

  ghost function InTile(ii: nat, jj: nat, rm: nat, rn: nat): (nat, nat) -> bool {
    (i, j) => ii <= i < ii + rm && jj <= j < jj + rn
  }

  function TilingFor(t: Table, m0: nat, m: nat, n0: nat, n: nat): (tl: Tiling)
    requires m0 < m && n0 < n
    ensures tl.Valid()
  {
    var (mc, nc) := Tile(t, m - m0, n - n0);
    Tiling(m0, m, n0, n, mc, nc)
  }

  /** The thread that writes cell `(i, j)` when mnpack covers the block [m0, m) x [n0, n). */
  function Owner(t: Table, m0: nat, m: nat, n0: nat, n: nat, nth: nat, i: nat, j: nat): (ith: nat)
    requires m0 <= i < m && n0 <= j < n && nth > 0
    ensures ith < nth
    decreases m - m0 + n - n0
  {
    var tl := TilingFor(t, m0, m, n0, n);
    if j >= tl.Np() then Owner(t, m0, m, tl.Np(), n, nth, i, j)
    else if i >= tl.Mp() then Owner(t, tl.Mp(), m, n0, tl.Np(), nth, i, j)
    else
      tl.JobInRange(i, j);
      TakenBy(tl.JobAt(i, j), tl.Tiles(), nth)
  }

  /** The cells of a block that thread `ith` writes. */
  ghost function OwnedBy(t: Table, m0: nat, m: nat, n0: nat, n: nat, nth: nat, ith: nat): (nat, nat) -> bool
    requires nth > 0
  {
    (i, j) => m0 <= i < m && n0 <= j < n && Owner(t, m0, m, n0, n, nth, i, j) == ith
  }

  function Hsum(v: seq<real>): real {
    if v == [] then 0.0 else Hsum(v[..|v| - 1]) + v[|v| - 1]
  }

  /** A register of `width` lanes fed with `KN` elements of each side at a time; `term` is the product
      of one element of each side, a scalar or a whole quantized block. */
  datatype Lanes<!TA, !TB> = Lanes(KN: nat, width: nat, madd: (seq<TA>, seq<TB>, seq<real>) -> seq<real>, term: (TA, TB) -> real)

  /** However madd spreads the products over the lanes, their total grows by the products' sum. */
  ghost predicate Exact<TA(!new), TB(!new)>(lanes: Lanes<TA, TB>) {
    && lanes.KN > 0
    && forall x, y, c {:trigger lanes.madd(x, y, c)} | |x| == lanes.KN && |y| == lanes.KN && |c| == lanes.width ::
         && |lanes.madd(x, y, c)| == lanes.width
         && Hsum(lanes.madd(x, y, c)) == Hsum(c) + Dot(lanes.term, x, y)
  }

  lemma {:induction false} HsumZero(n: nat)
    ensures Hsum(seq(n, _ => 0.0)) == 0.0
  {
    if n > 0 {
      assert seq(n, _ => 0.0)[..n - 1] == seq(n - 1, _ => 0.0);
      HsumZero(n - 1);
    }
  }

  /** The floating point kernels: lane `t` accumulates the products of the elements at `t`. */
  function MaddReal(x: seq<real>, y: seq<real>, c: seq<real>): (r: seq<real>)
    ensures |r| == |c|
    ensures |x| == |y| == |c| ==> forall t | 0 <= t < |c| :: r[t] == Times(x[t], y[t]) + c[t]
  {
    if |x| == |y| == |c| then seq(|c|, t requires 0 <= t < |c| => Times(x[t], y[t]) + c[t]) else c
  }

  function RealLanes(KN: nat): Lanes<real, real> {
    Lanes(KN, KN, MaddReal, Times)
  }

  lemma {:induction false} MaddRealSum(x: seq<real>, y: seq<real>, c: seq<real>)
    requires |x| == |y| == |c|
    ensures Hsum(MaddReal(x, y, c)) == Hsum(c) + Dot(Times, x, y)
  {
    hide Times, MaddReal;
    if c != [] {
      var n := |c| - 1;
      MaddRealSum(x[..n], y[..n], c[..n]);
      assert MaddReal(x, y, c)[..n] == MaddReal(x[..n], y[..n], c[..n]);
    }
  }

  lemma RealLanesExact(KN: nat)
    requires KN > 0
    ensures Exact(RealLanes(KN))
  {
    var lanes := RealLanes(KN);
    forall x, y, c | |x| == KN && |y| == KN && |c| == KN
      ensures |lanes.madd(x, y, c)| == KN && Hsum(lanes.madd(x, y, c)) == Hsum(c) + Dot(lanes.term, x, y)
    {
      MaddRealSum(x, y, c);
    }
  }

  type Log = seq<(nat, nat)>

  /** The log names each selected cell once and no other cell. */
  ghost predicate Once(log: Log, f: (nat, nat) -> bool) {
    forall i: nat, j: nat :: multiset(log)[(i, j)] == if f(i, j) then 1 else 0
  }

  lemma OnceBoth(a: Log, b: Log, f: (nat, nat) -> bool, g: (nat, nat) -> bool, h: (nat, nat) -> bool)
    requires Once(a, f) && Once(b, g)
    requires forall i: nat, j: nat :: (h(i, j) <==> f(i, j) || g(i, j)) && !(f(i, j) && g(i, j))
    ensures Once(a + b, h)
  {
  }

  /** One matrix product: the `m` by `n` output cells of C, at stride `ldc`, from rows of A and B. */
  class TinyBlas<!TA(!new), !TB(!new)> {
    const table: Table
    const lanes: Lanes<TA, TB>
    const m: nat
    const n: nat
    const k: nat
    const A: seq<TA>
    const lda: nat
    const B: seq<TB>
    const ldb: nat
    const C: array<real>
    const ldc: nat
    const nth: nat

    constructor (table: Table, lanes: Lanes<TA, TB>, m: nat, n: nat, k: nat, A: seq<TA>, lda: nat, B: seq<TB>, ldb: nat,
                 C: array<real>, ldc: nat, nth: nat)
      ensures this.table == table && this.lanes == lanes && this.m == m && this.n == n && this.k == k && this.nth == nth
      ensures this.A == A && this.lda == lda && this.B == B && this.ldb == ldb && this.C == C && this.ldc == ldc
    {
      this.table, this.lanes, this.m, this.n, this.k, this.nth := table, lanes, m, n, k, nth;
      this.A, this.lda, this.B, this.ldb, this.C, this.ldc := A, lda, B, ldb, C, ldc;
    }

    /** What the callers provide: whole register loads, and arrays that hold the matrices. */
    ghost predicate Fits() {
      && lanes.KN > 0 && Exact(lanes) && k % lanes.KN == 0 && nth > 0 && m <= ldc
      && (m > 0 ==> Mul(lda, m - 1) + k <= |A|) && (n > 0 ==> Mul(ldb, n - 1) + k <= |B|)
      && (m > 0 && n > 0 ==> Mul(ldc, n - 1) + m <= C.Length)
    }

    ghost predicate InRange(i: nat, j: nat) {
      Mul(lda, i) + k <= |A| && Mul(ldb, j) + k <= |B|
    }

    /** The first `l` terms of the product for cell `(i, j)`. */
    ghost function Part(i: nat, j: nat, l: nat): real
      requires InRange(i, j) && l <= k
    {
      Dot(lanes.term, A[Mul(lda, i)..Mul(lda, i) + l], B[Mul(ldb, j)..Mul(ldb, j) + l])
    }

    /** Cell `(i, j)` of the product. */
    ghost function Cell(i: nat, j: nat): real
    {
      if InRange(i, j) then Part(i, j, k) else 0.0
    }

    /** `after` holds the product in the cells `f` selects and is as `before` elsewhere. */
    ghost predicate Wrote(before: seq<real>, after: seq<real>, f: (nat, nat) -> bool)
      requires ldc > 0
    {
      && |before| == |after|
      && forall p | 0 <= p < |after| :: after[p] == if f(p % ldc, p / ldc) then Cell(p % ldc, p / ldc) else before[p]
    }

    lemma WroteBoth(before: seq<real>, mid: seq<real>, after: seq<real>, f: (nat, nat) -> bool, g: (nat, nat) -> bool,
                    h: (nat, nat) -> bool)
      requires ldc > 0 && Wrote(before, mid, f) && Wrote(mid, after, g)
      requires forall i: nat, j: nat :: h(i, j) <==> f(i, j) || g(i, j)
      ensures Wrote(before, after, h)
    {
    }

    lemma Address(i: nat, j: nat)
      requires Fits() && i < m && j < n
      ensures InRange(i, j) && 0 <= Mul(ldc, j) + i < C.Length && (Mul(ldc, j) + i) % ldc == i && (Mul(ldc, j) + i) / ldc == j
    {
      assert Rem(Mul(ldc, j) + i, ldc) == (Mul(ldc, j) + i) % ldc && Div(Mul(ldc, j) + i, ldc) == (Mul(ldc, j) + i) / ldc;
      hide Mul, Div, Rem;
      MulMonotone(i, m - 1, lda);
      MulMonotone(j, n - 1, ldb);
      MulMonotone(j, n - 1, ldc);
      MulNext(i, lda);
      MulNext(m - 1, lda);
      MulNext(j, ldb);
      MulNext(n - 1, ldb);
      MulNext(j, ldc);
      MulNext(n - 1, ldc);
      Quotient(Mul(ldc, j) + i, j, ldc);
    }

    ghost predicate LanesHold(v: seq<real>, i: nat, j: nat, l: nat)
      requires InRange(i, j) && l <= k
    {
      |v| == lanes.width && Hsum(v) == Part(i, j, l)
    }

    lemma MaddSum(a: seq<TA>, b: seq<TB>, x: seq<TA>, y: seq<TB>, v: seq<real>)
      requires Exact(lanes) && |a| == |b| && |x| == |y| == lanes.KN && |v| == lanes.width
      requires Hsum(v) == Dot(lanes.term, a, b)
      ensures |lanes.madd(x, y, v)| == lanes.width && Hsum(lanes.madd(x, y, v)) == Dot(lanes.term, a + x, b + y)
    {
      hide Dot, Hsum;
      DotConcat(lanes.term, a, b, x, y);
    }

    /** One register step of cell `(i, j)`. */
    method Madd(v: seq<real>, i: nat, j: nat, l: nat) returns (w: seq<real>)
      requires Fits() && i < m && j < n && InRange(i, j) && l + lanes.KN <= k && LanesHold(v, i, j, l)
      ensures LanesHold(w, i, j, l + lanes.KN)
    {
      hide Dot, Hsum, Exact, Mul;
      var x := A[Mul(lda, i) + l..Mul(lda, i) + l + lanes.KN];
      var y := B[Mul(ldb, j) + l..Mul(ldb, j) + l + lanes.KN];
      w := lanes.madd(x, y, v);
      MaddSum(A[Mul(lda, i)..Mul(lda, i) + l], B[Mul(ldb, j)..Mul(ldb, j) + l], x, y, v);
      assert A[Mul(lda, i)..Mul(lda, i) + l] + x == A[Mul(lda, i)..Mul(lda, i) + l + lanes.KN];
      assert B[Mul(ldb, j)..Mul(ldb, j) + l] + y == B[Mul(ldb, j)..Mul(ldb, j) + l + lanes.KN];
    }

    /** The two loops over the tile at step `l`. */
    method Accumulate(cv: array2<seq<real>>, ii: nat, jj: nat, l: nat)
      requires Fits() && ii + cv.Length1 <= m && jj + cv.Length0 <= n && l + lanes.KN <= k
      requires forall i, j | ii <= i < m && jj <= j < n :: InRange(i, j)
      requires forall j, i | 0 <= j < cv.Length0 && 0 <= i < cv.Length1 :: LanesHold(cv[j, i], ii + i, jj + j, l)
      modifies cv
      ensures forall j, i | 0 <= j < cv.Length0 && 0 <= i < cv.Length1 :: LanesHold(cv[j, i], ii + i, jj + j, l + lanes.KN)
    {
      hide LanesHold, Fits, InRange, Exact, Mul;
      ghost var next := l + lanes.KN;
      for j := 0 to cv.Length0
        invariant forall b, a | 0 <= b < cv.Length0 && 0 <= a < cv.Length1 ::
                    LanesHold(cv[b, a], ii + a, jj + b, if b < j then next else l)
      {
        for i := 0 to cv.Length1
          invariant forall b, a | 0 <= b < cv.Length0 && 0 <= a < cv.Length1 ::
                      LanesHold(cv[b, a], ii + a, jj + b, if b < j || (b == j && a < i) then next else l)
        {
          assert LanesHold(cv[j, i], ii + i, jj + j, l);
          cv[j, i] := Madd(cv[j, i], ii + i, jj + j, l);
        }
      }
    }

    /** The accumulation of one tile. */
    method Products(ii: nat, jj: nat, rm: nat, rn: nat) returns (cv: array2<seq<real>>)
      requires Fits() && ii + rm <= m && jj + rn <= n
      ensures fresh(cv) && cv.Length0 == rn && cv.Length1 == rm
      ensures forall j, i | 0 <= j < rn && 0 <= i < rm :: Hsum(cv[j, i]) == Cell(ii + i, jj + j)
    {
      hide Exact, Hsum, Dot, Mul;
      forall i, j | ii <= i < m && jj <= j < n
        ensures InRange(i, j)
      {
        Address(i, j);
      }
      HsumZero(lanes.width);
      cv := new seq<real>[rn, rm]((j, i) => seq(lanes.width, _ => 0.0));
      forall j, i | 0 <= j < rn && 0 <= i < rm
        ensures LanesHold(cv[j, i], ii + i, jj + j, 0)
      {
        Address(ii + i, jj + j);
        DotNone(lanes.term);
        assert A[Mul(lda, ii + i)..Mul(lda, ii + i) + 0] == [] && B[Mul(ldb, jj + j)..Mul(ldb, jj + j) + 0] == [];
      }
      StepThrough(cv, ii, jj);
    }

    lemma DotNone(term: (TA, TB) -> real)
      ensures Dot(term, [], []) == 0.0
    {
    }

    /** The loop over the inner dimension. */
    method StepThrough(cv: array2<seq<real>>, ii: nat, jj: nat)
      requires Fits() && ii + cv.Length1 <= m && jj + cv.Length0 <= n
      requires forall i, j | ii <= i < m && jj <= j < n :: InRange(i, j)
      requires forall j, i | 0 <= j < cv.Length0 && 0 <= i < cv.Length1 :: LanesHold(cv[j, i], ii + i, jj + j, 0)
      modifies cv
      ensures forall j, i | 0 <= j < cv.Length0 && 0 <= i < cv.Length1 :: LanesHold(cv[j, i], ii + i, jj + j, k)
    {
      hide Exact, LanesHold, InRange;
      var l := 0;
      while l < k
        invariant l <= k && l % lanes.KN == 0
        invariant forall j, i | 0 <= j < cv.Length0 && 0 <= i < cv.Length1 :: LanesHold(cv[j, i], ii + i, jj + j, l)
      {
        NextStep(l);
        Accumulate(cv, ii, jj, l);
        l := l + lanes.KN;
      }
    }

    lemma NextStep(l: nat)
      requires Fits() && l < k && l % lanes.KN == 0
      ensures l + lanes.KN <= k && (l + lanes.KN) % lanes.KN == 0
    {
      var c := lanes.KN;
      var p, q := Div(l, c), Div(k, c);
      assert Rem(l, c) == 0 == Rem(k, c);
      Steps(l, p, k, q, c);
    }

    static lemma Steps(l: nat, p: nat, k: nat, q: nat, c: nat)
      requires c > 0 && l < k && p == Div(l, c) && q == Div(k, c) && Rem(l, c) == 0 == Rem(k, c)
      ensures l + c <= k && (l + c) % c == 0
    {
      assert Rem(l + c, c) == (l + c) % c;
      hide Mul, Div, Rem;
      Division(l, c);
      Division(k, c);
      if q <= p {
        MulMonotone(q, p, c);
      }
      MulMonotone(p + 1, q, c);
      MulNext(p, c);
      Quotient(l + c, p + 1, c);
    }

    /** One column of the store loops. */
    method StoreColumn(cv: array2<seq<real>>, ii: nat, jj: nat, j: nat) returns (ghost log: Log)
      requires Fits() && ii + cv.Length1 <= m && jj + j < n && ldc > 0 && j < cv.Length0
      requires forall i | 0 <= i < cv.Length1 :: Hsum(cv[j, i]) == Cell(ii + i, jj + j)
      modifies C
      ensures Wrote(old(C[..]), C[..], InTile(ii, jj + j, cv.Length1, 1)) && Once(log, InTile(ii, jj + j, cv.Length1, 1))
    {
      hide Fits, Cell, Hsum, Mul, Wrote, Once;
      log := [];
      Nothing(C[..], InTile(ii, jj + j, 0, 1));
      for i := 0 to cv.Length1
        invariant Wrote(old(C[..]), C[..], InTile(ii, jj + j, i, 1)) && Once(log, InTile(ii, jj + j, i, 1))
      {
        ghost var mid := C[..];
        Address(ii + i, jj + j);
        C[Mul(ldc, jj + j) + (ii + i)] := Hsum(cv[j, i]);
        OneCell(mid, ii + i, jj + j);
        ghost var f, g, h := InTile(ii, jj + j, i, 1), InTile(ii + i, jj + j, 1, 1), InTile(ii, jj + j, i + 1, 1);
        WroteBoth(old(C[..]), mid, C[..], f, g, h);
        OnceBoth(log, [(ii + i, jj + j)], f, g, h);
        log := log + [(ii + i, jj + j)];
      }
    }

    lemma OneCell(c: seq<real>, i: nat, j: nat)
      requires ldc > 0 && Mul(ldc, j) + i < |c| && (Mul(ldc, j) + i) % ldc == i && (Mul(ldc, j) + i) / ldc == j
      ensures Wrote(c, c[Mul(ldc, j) + i := Cell(i, j)], InTile(i, j, 1, 1)) && Once([(i, j)], InTile(i, j, 1, 1))
    {
      hide Cell;
      var at := Mul(ldc, j) + i;
      forall p | 0 <= p < |c| && p % ldc == i && p / ldc == j
        ensures p == at
      {
        assert p == p / ldc * ldc + p % ldc && at == at / ldc * ldc + at % ldc;
      }
    }

    /** The store of one tile. */
    method Store(cv: array2<seq<real>>, ii: nat, jj: nat) returns (ghost log: Log)
      requires Fits() && ii + cv.Length1 <= m && jj + cv.Length0 <= n && ldc > 0
      requires forall j, i | 0 <= j < cv.Length0 && 0 <= i < cv.Length1 :: Hsum(cv[j, i]) == Cell(ii + i, jj + j)
      modifies C
      ensures Wrote(old(C[..]), C[..], InTile(ii, jj, cv.Length1, cv.Length0))
      ensures Once(log, InTile(ii, jj, cv.Length1, cv.Length0))
    {
      hide Fits, Cell, Hsum, Wrote, Once;
      log := [];
      Nothing(C[..], InTile(ii, jj, cv.Length1, 0));
      for j := 0 to cv.Length0
        invariant Wrote(old(C[..]), C[..], InTile(ii, jj, cv.Length1, j)) && Once(log, InTile(ii, jj, cv.Length1, j))
      {
        ghost var mid := C[..];
        ghost var column := StoreColumn(cv, ii, jj, j);
        ghost var f, g, h := InTile(ii, jj, cv.Length1, j), InTile(ii, jj + j, cv.Length1, 1), InTile(ii, jj, cv.Length1, j + 1);
        WroteBoth(old(C[..]), mid, C[..], f, g, h);
        OnceBoth(log, column, f, g, h);
        log := log + column;
      }
    }

    lemma Nothing(c: seq<real>, f: (nat, nat) -> bool)
      requires ldc > 0 && forall i: nat, j: nat :: !f(i, j)
      ensures Wrote(c, c, f) && Once([], f)
    {
    }

    /** gemm: this thread's share of the whole tiles of a block. */
    method Gemm(ith: nat, tl: Tiling) returns (ghost log: Log)
      requires Fits() && ith < nth && tl.Valid() && tl.m <= m && tl.n <= n && ldc > 0
      modifies C
      ensures Wrote(old(C[..]), C[..], tl.TakenFrom(nth, ith)) && Once(log, tl.TakenFrom(nth, ith))
    {
      hide Fits, Cell, Wrote, Once, Tiling.JobAt, Tiling.Mp, Tiling.Np, Tiling.Row, Tiling.Col, Tiling.TakenFrom, Tiling.InJobs,
           InTile, Duty, Mul;
      var xtiles := tl.Xtiles();
      var tiles := tl.Tiles();
      var duty := Duty(tiles, nth);
      var start := Mul(duty, ith);
      var end := if start + duty > tiles then tiles else start + duty;
      NoJobs(tl, C[..], start);
      log := [];
      var job := start;
      while job < end
        invariant start <= job && (job <= end || job == start)
        invariant Wrote(old(C[..]), C[..], tl.InJobs(start, job)) && Once(log, tl.InJobs(start, job))
      {
        tl.NextJob(start, job);
        tl.TileInside(job);
        var ii, jj := tl.Row(job), tl.Col(job);
        var cv := Products(ii, jj, tl.rm, tl.rn);
        ghost var mid := C[..];
        ghost var tile := Store(cv, ii, jj);
        ghost var f, g, h := tl.InJobs(start, job), InTile(ii, jj, tl.rm, tl.rn), tl.InJobs(start, job + 1);
        WroteBoth(old(C[..]), mid, C[..], f, g, h);
        OnceBoth(log, tile, f, g, h);
        log := log + tile;
        job := job + 1;
      }
      tl.JobsOf(nth, ith, start, job);
      Same(old(C[..]), C[..], log, tl.InJobs(start, job), tl.TakenFrom(nth, ith));
    }

    lemma NoJobs(tl: Tiling, c: seq<real>, job: nat)
      requires tl.Valid() && ldc > 0
      ensures Wrote(c, c, tl.InJobs(job, job)) && Once([], tl.InJobs(job, job))
    {
    }

    lemma Same(before: seq<real>, after: seq<real>, log: Log, f: (nat, nat) -> bool, g: (nat, nat) -> bool)
      requires ldc > 0 && Wrote(before, after, f) && Once(log, f) && forall i: nat, j: nat :: f(i, j) <==> g(i, j)
      ensures Wrote(before, after, g) && Once(log, g)
    {
    }

    /** mnpack: this thread's share of the block [m0, mEnd) x [n0, nEnd), whole tiles first, then the
        rows and the columns left over. */
    method MnPack(ith: nat, m0: nat, mEnd: nat, n0: nat, nEnd: nat) returns (ghost log: Log)
      requires Fits() && ith < nth && m0 <= mEnd <= m && n0 <= nEnd <= n && ldc > 0
      modifies C
      ensures Wrote(old(C[..]), C[..], OwnedBy(table, m0, mEnd, n0, nEnd, nth, ith))
      ensures Once(log, OwnedBy(table, m0, mEnd, n0, nEnd, nth, ith))
      decreases mEnd - m0 + nEnd - n0
    {
      hide Fits, Cell, Wrote, Once;
      ghost var before, all := C[..], OwnedBy(table, m0, mEnd, n0, nEnd, nth, ith);
      if m0 == mEnd || n0 == nEnd {
        Nothing(before, all);
        return [];
      }
      var tl := TilingFor(table, m0, mEnd, n0, nEnd);
      var whole := Gemm(ith, tl);
      ghost var afterWhole := C[..];
      var rows := MnPack(ith, tl.Mp(), mEnd, n0, tl.Np());
      ghost var afterRows := C[..];
      var columns := MnPack(ith, m0, mEnd, tl.Np(), nEnd);
      log := whole + rows + columns;
      Pieces(tl, before, afterWhole, afterRows, C[..], whole, rows, columns, ith);
    }

    lemma Pieces(tl: Tiling, c0: seq<real>, c1: seq<real>, c2: seq<real>, c3: seq<real>, whole: Log, rows: Log, columns: Log, ith: nat)
      requires tl.Valid() && tl == TilingFor(table, tl.m0, tl.m, tl.n0, tl.n) && nth > 0 && ldc > 0
      requires Wrote(c0, c1, tl.TakenFrom(nth, ith)) && Once(whole, tl.TakenFrom(nth, ith))
      requires Wrote(c1, c2, OwnedBy(table, tl.Mp(), tl.m, tl.n0, tl.Np(), nth, ith))
      requires Once(rows, OwnedBy(table, tl.Mp(), tl.m, tl.n0, tl.Np(), nth, ith))
      requires Wrote(c2, c3, OwnedBy(table, tl.m0, tl.m, tl.Np(), tl.n, nth, ith))
      requires Once(columns, OwnedBy(table, tl.m0, tl.m, tl.Np(), tl.n, nth, ith))
      ensures Wrote(c0, c3, OwnedBy(table, tl.m0, tl.m, tl.n0, tl.n, nth, ith))
      ensures Once(whole + rows + columns, OwnedBy(table, tl.m0, tl.m, tl.n0, tl.n, nth, ith))
    {
      hide Cell, Wrote, Once, Tiling.JobAt, Tiling.Tiles, TakenBy, TilingFor;
      var f, g := tl.TakenFrom(nth, ith), OwnedBy(table, tl.Mp(), tl.m, tl.n0, tl.Np(), nth, ith);
      var h, all := OwnedBy(table, tl.m0, tl.m, tl.Np(), tl.n, nth, ith), OwnedBy(table, tl.m0, tl.m, tl.n0, tl.n, nth, ith);
      var fg := (i: nat, j: nat) => f(i, j) || g(i, j);
      WroteBoth(c0, c1, c2, f, g, fg);
      OnceBoth(whole, rows, f, g, fg);
      WroteBoth(c0, c2, c3, fg, h, all);
      OnceBoth(whole + rows, columns, fg, h, all);
    }

    /** Every thread's mnpack over the whole output, in any order: each cell of the output is written
        exactly once, by one thread, with the naive product, and nothing else is written. */
    method MatMul(order: seq<nat>) returns (ghost logs: Log)
      requires Fits() && ldc > 0
      requires forall ith: nat :: multiset(order)[ith] == if ith < nth then 1 else 0
      modifies C
      ensures Once(logs, Output())
      ensures forall i, j | 0 <= i < m && 0 <= j < n ::
                && InRange(i, j) && Mul(ldc, j) + i < C.Length
                && C[Mul(ldc, j) + i] == Dot(lanes.term, A[Mul(lda, i)..Mul(lda, i) + k], B[Mul(ldb, j)..Mul(ldb, j) + k])
      ensures forall p | 0 <= p < C.Length && !(p % ldc < m && p / ldc < n) :: C[p] == old(C[p])
    {
      hide Exact, Mul, Cell, Wrote, Once, By, OwnedBy, Output, Dot;
      logs := [];
      ghost var before := C[..];
      NoThreads(before, order);
      for t := 0 to |order|
        invariant Wrote(before, C[..], By(order[..t])) && Once(logs, By(order[..t]))
      {
        InOrder(order, t);
        ghost var mid := C[..];
        ghost var log := MnPack(order[t], 0, m, 0, n);
        OneMore(order, t, before, mid, C[..], logs, log);
        logs := logs + log;
      }
      AllThreads(order, before, C[..], logs);
      Product(before, C[..]);
      assert forall p | 0 <= p < C.Length :: C[p] == C[..][p];
    }

    /** The cells of the output. */
    ghost function Output(): (nat, nat) -> bool {
      (i: nat, j: nat) => i < m && j < n
    }

    lemma Product(before: seq<real>, after: seq<real>)
      requires Fits() && ldc > 0 && |after| == C.Length && Wrote(before, after, Output())
      ensures forall i, j | 0 <= i < m && 0 <= j < n ::
                && InRange(i, j) && Mul(ldc, j) + i < |after|
                && after[Mul(ldc, j) + i] == Dot(lanes.term, A[Mul(lda, i)..Mul(lda, i) + k], B[Mul(ldb, j)..Mul(ldb, j) + k])
      ensures forall p | 0 <= p < |after| && !(p % ldc < m && p / ldc < n) :: after[p] == before[p]
    {
      forall i, j | 0 <= i < m && 0 <= j < n
        ensures InRange(i, j) && Mul(ldc, j) + i < |after|
        ensures after[Mul(ldc, j) + i] == Dot(lanes.term, A[Mul(lda, i)..Mul(lda, i) + k], B[Mul(ldb, j)..Mul(ldb, j) + k])
      {
        Address(i, j);
        assert after[Mul(ldc, j) + i] == Cell(i, j);
      }
    }

    lemma NoThreads(c: seq<real>, order: seq<nat>)
      requires nth > 0 && ldc > 0
      ensures Wrote(c, c, By(order[..0])) && Once([], By(order[..0]))
    {
    }

    lemma OneMore(order: seq<nat>, t: nat, before: seq<real>, mid: seq<real>, after: seq<real>, logs: Log, log: Log)
      requires nth > 0 && ldc > 0 && t < |order| && order[t] !in order[..t] && order[..t + 1] == order[..t] + [order[t]]
      requires Wrote(before, mid, By(order[..t])) && Once(logs, By(order[..t]))
      requires Wrote(mid, after, OwnedBy(table, 0, m, 0, n, nth, order[t])) && Once(log, OwnedBy(table, 0, m, 0, n, nth, order[t]))
      ensures Wrote(before, after, By(order[..t + 1])) && Once(logs + log, By(order[..t + 1]))
    {
      hide Wrote, Once, Owner;
      var f, g, h := By(order[..t]), OwnedBy(table, 0, m, 0, n, nth, order[t]), By(order[..t + 1]);
      WroteBoth(before, mid, after, f, g, h);
      OnceBoth(logs, log, f, g, h);
    }

    /** The cells written by the threads of `done`. */
    ghost function By(done: seq<nat>): (nat, nat) -> bool
      requires nth > 0
    {
      (i: nat, j: nat) => i < m && j < n && Owner(table, 0, m, 0, n, nth, i, j) in done
    }

    lemma InOrder(order: seq<nat>, t: nat)
      requires t < |order| && nth > 0
      requires forall ith: nat :: multiset(order)[ith] == if ith < nth then 1 else 0
      ensures order[t] < nth && order[t] !in order[..t] && order[..t + 1] == order[..t] + [order[t]]
    {
      assert order == order[..t] + [order[t]] + order[t + 1..];
      assert multiset(order)[order[t]] == multiset(order[..t])[order[t]] + 1 + multiset(order[t + 1..])[order[t]];
    }

    lemma AllThreads(order: seq<nat>, before: seq<real>, after: seq<real>, logs: Log)
      requires nth > 0 && ldc > 0 && forall ith: nat :: multiset(order)[ith] == if ith < nth then 1 else 0
      requires Wrote(before, after, By(order[..|order|])) && Once(logs, By(order[..|order|]))
      ensures Wrote(before, after, Output()) && Once(logs, Output())
    {
      hide Wrote, Once;
      assert order[..|order|] == order;
      forall i: nat, j: nat
        ensures By(order)(i, j) <==> Output()(i, j)
      {
        if i < m && j < n {
          assert multiset(order)[Owner(table, 0, m, 0, n, nth, i, j)] == 1;
        }
      }
      Same(before, after, logs, By(order), Output());
    }
  }
}
