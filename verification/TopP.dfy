/** sample_topp of src/tokenizer.cpp: nucleus sampling that drops small probabilities before sorting. */
module TopP {
  import opened Wrappers

  datatype ProbIndex = ProbIndex(prob: real, index: nat)

  /** The sum of the probabilities of the first `n` entries. */
  function Cumulative(ps: seq<ProbIndex>, n: nat): real
    requires n <= |ps|
  {
    if n == 0 then 0.0 else Cumulative(ps, n - 1) + ps[n - 1].prob
  }

  function Total(ps: seq<ProbIndex>): real {
    Cumulative(ps, |ps|)
  }

  /** All entries, and those of at least `cutoff`, in index order. */
  function Entries(probabilities: seq<real>): (ps: seq<ProbIndex>)
    ensures |ps| == |probabilities| && forall i | 0 <= i < |ps| :: ps[i] == ProbIndex(probabilities[i], i)
  {
    seq(|probabilities|, i requires 0 <= i < |probabilities| => ProbIndex(probabilities[i], i))
  }

  function Crop(ps: seq<ProbIndex>, cutoff: real): (r: seq<ProbIndex>)
    ensures |r| <= |ps| && forall p <- r :: p in ps && p.prob >= cutoff
  {
    if ps == [] then []
    else
      var last := ps[|ps| - 1];
      Crop(ps[..|ps| - 1], cutoff) + if last.prob >= cutoff then [last] else []
  }

  predicate Descending(ps: seq<ProbIndex>) {
    forall i, j | 0 <= i < j < |ps| :: ps[i].prob >= ps[j].prob
  }

  /** A result of qsort with the descending comparison: equal probabilities may come in any order. */
  ghost predicate Sorted(ps: seq<ProbIndex>, r: seq<ProbIndex>) {
    Descending(r) && multiset(r) == multiset(ps)
  }

  /** How many entries the nucleus needs: up to the first at which the sum exceeds `topp`. */
  function NucleusSize(ps: seq<ProbIndex>, topp: real, from: nat): (n: nat)
    requires from <= |ps|
    ensures from <= n <= |ps| && (from < |ps| ==> from < n)
    decreases |ps| - from
  {
    if from == |ps| then from
    else if Cumulative(ps, from + 1) > topp then from + 1
    else NucleusSize(ps, topp, from + 1)
  }

  /** The first entry at which the sum exceeds `r`. */
  function Pick(ps: seq<ProbIndex>, n: nat, r: real, from: nat): (i: nat)
    requires from < n <= |ps|
    ensures from <= i < n
    decreases n - from
  {
    if from + 1 == n || r < Cumulative(ps, from + 1) then from else Pick(ps, n, r, from + 1)
  }

  /** The coin's share of a sum. */
  function Share(coin: real, total: real): real {
    coin * total
  }

  /** Nucleus sampling over entries in descending order. */
  function Sample(ps: seq<ProbIndex>, topp: real, coin: real): nat
    requires ps != []
  {
    var n := NucleusSize(ps, topp, 0);
    ps[Pick(ps, n, Share(coin, Cumulative(ps, n)), 0)].index
  }

  function Cutoff(n: nat, topp: real): real
    requires n >= 2
  {
    (1.0 - topp) / (n - 1) as real
  }

  ghost predicate Distribution(probabilities: seq<real>) {
    (forall p <- probabilities :: p >= 0.0) && Total(Entries(probabilities)) == 1.0
  }

  lemma {:induction false} CumulativeConcat(a: seq<ProbIndex>, b: seq<ProbIndex>, n: nat)
    requires n <= |b|
    ensures Cumulative(a + b, |a| + n) == Total(a) + Cumulative(b, n)
  {
    if n == 0 {
      CumulativePrefix(a, b, |a|);
    } else {
      CumulativeConcat(a, b, n - 1);
    }
  }

  lemma {:induction false} CumulativePrefix(a: seq<ProbIndex>, b: seq<ProbIndex>, n: nat)
    requires n <= |a|
    ensures Cumulative(a + b, n) == Cumulative(a, n)
  {
    if n > 0 {
      CumulativePrefix(a, b, n - 1);
    }
  }

  lemma TotalConcat(a: seq<ProbIndex>, b: seq<ProbIndex>)
    ensures Total(a + b) == Total(a) + Total(b)
  {
    CumulativeConcat(a, b, |b|);
  }

  /** Sums do not depend on the order. */
  lemma {:induction false} TotalPermuted(a: seq<ProbIndex>, b: seq<ProbIndex>)
    requires multiset(a) == multiset(b)
    ensures Total(a) == Total(b) && |a| == |b|
    decreases |a|
  {
    if a == [] {
      assert |multiset(a)| == |a| && |multiset(b)| == |b|;
    } else {
      var x := a[|a| - 1];
      var a' := a[..|a| - 1];
      assert a == a' + [x];
      assert x in multiset(b);
      var i :| 0 <= i < |b| && b[i] == x;
      var b' := b[..i] + b[i + 1..];
      assert b == b[..i] + [x] + b[i + 1..];
      assert multiset(a') == multiset(a) - multiset{x} == multiset(b) - multiset{x} == multiset(b');
      TotalPermuted(a', b');
      TotalConcat(a', [x]);
      TotalConcat(b[..i] + [x], b[i + 1..]);
      TotalConcat(b[..i], [x]);
      TotalConcat(b[..i], b[i + 1..]);
    }
  }

  /** `k` times the cutoff. */
  function Times(k: nat, cutoff: real): real {
    if k == 0 then 0.0 else Times(k - 1, cutoff) + cutoff
  }

  lemma {:induction false} TimesMonotone(a: nat, b: nat, cutoff: real)
    requires a <= b && cutoff >= 0.0
    ensures Times(a, cutoff) <= Times(b, cutoff)
    decreases b
  {
    if a < b {
      TimesMonotone(a, b - 1, cutoff);
    }
  }

  lemma {:induction false} TimesIs(k: nat, cutoff: real)
    ensures Times(k, cutoff) == k as real * cutoff
  {
    if k > 0 {
      TimesIs(k - 1, cutoff);
      assert k as real == (k - 1) as real + 1.0;
    } else {
      assert k as real == 0.0;
    }
  }

  /** Cropping keeps what reaches the cutoff and loses less than the cutoff an entry. */
  lemma {:induction false} CropLoses(ps: seq<ProbIndex>, cutoff: real)
    ensures Total(ps) <= Total(Crop(ps, cutoff)) + Times(|ps| - |Crop(ps, cutoff)|, cutoff)
    ensures |Crop(ps, cutoff)| < |ps| ==> Total(ps) < Total(Crop(ps, cutoff)) + Times(|ps| - |Crop(ps, cutoff)|, cutoff)
  {
    hide Cumulative;
    if ps != [] {
      var front, last := ps[..|ps| - 1], ps[|ps| - 1];
      var c := Crop(front, cutoff);
      CropLoses(front, cutoff);
      assert ps == front + [last];
      TotalConcat(front, [last]);
      Single(last);
      if last.prob >= cutoff {
        TotalConcat(c, [last]);
      } else {
        assert Crop(ps, cutoff) == c + [] == c;
      }
    }
  }

  lemma Single(p: ProbIndex)
    ensures Total([p]) == p.prob
  {
    assert Cumulative([p], 0) == 0.0;
  }

  lemma CutoffTimes(n: nat, topp: real)
    requires n >= 2 && topp < 1.0
    ensures Cutoff(n, topp) > 0.0 && Times(n - 1, Cutoff(n, topp)) == 1.0 - topp
  {
    TimesIs(n - 1, Cutoff(n, topp));
  }

  /** The crop keeps enough: unless it is empty, its sum exceeds `topp`. */
  lemma CropExceeds(ps: seq<ProbIndex>, topp: real)
    requires |ps| >= 2 && topp < 1.0 && Total(ps) == 1.0
    ensures Crop(ps, Cutoff(|ps|, topp)) != [] ==> Total(Crop(ps, Cutoff(|ps|, topp))) > topp
  {
    hide Cutoff, Cumulative, Times;
    var n, cutoff := |ps|, Cutoff(|ps|, topp);
    var c := Crop(ps, cutoff);
    CropLoses(ps, cutoff);
    CutoffTimes(n, topp);
    if c != [] {
      TimesMonotone(n - |c|, n - 1, cutoff);
      NoTimes(cutoff);
    }
  }

  lemma NoTimes(cutoff: real)
    ensures Times(0, cutoff) == 0.0
  {
  }

  /** The crop is not empty exactly when some probability reaches the cutoff. */
  lemma {:induction false} CropEmpty(ps: seq<ProbIndex>, cutoff: real)
    ensures Crop(ps, cutoff) == [] <==> forall p <- ps :: p.prob < cutoff
  {
    if ps != [] {
      CropEmpty(ps[..|ps| - 1], cutoff);
      assert ps == ps[..|ps| - 1] + [ps[|ps| - 1]];
    }
  }

  lemma {:induction false} CropCounts(ps: seq<ProbIndex>, cutoff: real, x: ProbIndex)
    ensures multiset(Crop(ps, cutoff))[x] == if x.prob >= cutoff then multiset(ps)[x] else 0
  {
    if ps != [] {
      CropCounts(ps[..|ps| - 1], cutoff, x);
      assert ps == ps[..|ps| - 1] + [ps[|ps| - 1]];
    }
  }

  lemma CropPermuted(a: seq<ProbIndex>, b: seq<ProbIndex>, cutoff: real)
    requires multiset(a) == multiset(b)
    ensures multiset(Crop(a, cutoff)) == multiset(Crop(b, cutoff)) && |Crop(a, cutoff)| == |Crop(b, cutoff)|
  {
    forall x: ProbIndex
      ensures multiset(Crop(a, cutoff))[x] == multiset(Crop(b, cutoff))[x]
    {
      CropCounts(a, cutoff, x);
      CropCounts(b, cutoff, x);
    }
    assert multiset(Crop(a, cutoff)) == multiset(Crop(b, cutoff));
    assert |multiset(Crop(a, cutoff))| == |Crop(a, cutoff)| && |multiset(Crop(b, cutoff))| == |Crop(b, cutoff)|;
  }

  /** In descending order what reaches the cutoff comes first. */
  lemma {:induction false} CropOfSorted(ps: seq<ProbIndex>, cutoff: real)
    requires Descending(ps)
    ensures Crop(ps, cutoff) == ps[..|Crop(ps, cutoff)|]
  {
    if ps != [] {
      var front, last := ps[..|ps| - 1], ps[|ps| - 1];
      if last.prob >= cutoff {
        AllReach(ps, cutoff);
      } else {
        CropOfSorted(front, cutoff);
        CropDrops(ps, cutoff);
      }
    }
  }

  lemma CropDrops(ps: seq<ProbIndex>, cutoff: real)
    requires ps != [] && ps[|ps| - 1].prob < cutoff
    ensures Crop(ps, cutoff) == Crop(ps[..|ps| - 1], cutoff)
  {
  }

  lemma {:induction false} AllReach(ps: seq<ProbIndex>, cutoff: real)
    requires forall i | 0 <= i < |ps| :: ps[i].prob >= cutoff
    ensures Crop(ps, cutoff) == ps
  {
    if ps != [] {
      CropTakes(ps, cutoff);
      hide Crop;
      var front := ps[..|ps| - 1];
      AllReach(front, cutoff);
      assert ps == front + [ps[|ps| - 1]];
    } else {
      assert Crop([], cutoff) == [];
    }
  }

  lemma CropTakes(ps: seq<ProbIndex>, cutoff: real)
    requires ps != [] && ps[|ps| - 1].prob >= cutoff
    ensures Crop(ps, cutoff) == Crop(ps[..|ps| - 1], cutoff) + [ps[|ps| - 1]]
  {
  }

  /** Entries behind the nucleus play no part. */
  lemma {:induction false} SameNucleus(r: seq<ProbIndex>, rest: seq<ProbIndex>, topp: real, from: nat)
    requires from < |r| && Total(r) > topp
    ensures NucleusSize(r + rest, topp, from) == NucleusSize(r, topp, from)
    ensures Cumulative(r, NucleusSize(r, topp, from)) > topp
    decreases |r| - from
  {
    CumulativePrefix(r, rest, from + 1);
    if Cumulative(r, from + 1) <= topp {
      SameNucleus(r, rest, topp, from + 1);
    }
  }

  lemma {:induction false} SamePick(r: seq<ProbIndex>, rest: seq<ProbIndex>, n: nat, x: real, from: nat)
    requires from < n <= |r|
    ensures Pick(r + rest, n, x, from) == Pick(r, n, x, from)
    decreases n - from
  {
    CumulativePrefix(r, rest, from + 1);
    if from + 1 < n && x >= Cumulative(r, from + 1) {
      SamePick(r, rest, n, x, from + 1);
    }
  }

  /** Cropping is lossless: the front of every descending arrangement of all entries is a descending
      arrangement of the crop, and unless the crop is empty it gives the same sample. */
  lemma CroppingLossless(probabilities: seq<real>, topp: real, coin: real, all: seq<ProbIndex>)
    requires |probabilities| >= 2 && 0.0 < topp < 1.0 && Distribution(probabilities) && Sorted(Entries(probabilities), all)
    ensures var c := Crop(Entries(probabilities), Cutoff(|probabilities|, topp));
            && |c| <= |all| && Sorted(c, all[..|c|])
            && (c != [] ==> Sample(all, topp, coin) == Sample(all[..|c|], topp, coin))
  {
    hide Cumulative, Cutoff, NucleusSize, Pick, Share, Crop;
    var ps, cutoff := Entries(probabilities), Cutoff(|probabilities|, topp);
    var c := Crop(ps, cutoff);
    CropPermuted(ps, all, cutoff);
    CropOfSorted(all, cutoff);
    var r := all[..|c|];
    if c != [] {
      CropExceeds(ps, topp);
      TotalPermuted(c, r);
      assert all == r + all[|c|..];
      SameNucleus(r, all[|c|..], topp, 0);
      var n := NucleusSize(r, topp, 0);
      CumulativePrefix(r, all[|c|..], n);
      SamePick(r, all[|c|..], n, Share(coin, Cumulative(r, n)), 0);
    }
  }

  /** The fallbacks for rounding errors are never reached in exact arithmetic: the nucleus ends where
      the sum exceeds `topp`, and the picked entry is one where the sum exceeds the coin's share. */
  lemma NoFallback(r: seq<ProbIndex>, topp: real, coin: real)
    requires r != [] && Total(r) > topp && topp > 0.0 && 0.0 <= coin < 1.0
    ensures var n := NucleusSize(r, topp, 0);
            && Cumulative(r, n) > topp
            && Share(coin, Cumulative(r, n)) < Cumulative(r, Pick(r, n, Share(coin, Cumulative(r, n)), 0) + 1)
  {
    hide Cumulative, Share;
    SameNucleus(r, [], topp, 0);
    assert r + [] == r;
    var n := NucleusSize(r, topp, 0);
    ShareBelow(coin, Cumulative(r, n));
    PickExceeds(r, n, Share(coin, Cumulative(r, n)), 0);
  }

  lemma ShareBelow(coin: real, total: real)
    requires coin < 1.0 && total > 0.0
    ensures Share(coin, total) < total
  {
    assert (1.0 - coin) * total > 0.0;
  }

  lemma {:induction false} PickExceeds(r: seq<ProbIndex>, n: nat, x: real, from: nat)
    requires from < n <= |r| && x < Cumulative(r, n)
    ensures x < Cumulative(r, Pick(r, n, x, from) + 1)
    decreases n - from
  {
    if from + 1 < n && x >= Cumulative(r, from + 1) {
      PickExceeds(r, n, x, from + 1);
    }
  }

  /** `n` is the first length whose sum exceeds `topp`. */
  ghost predicate FirstExceeding(r: seq<ProbIndex>, topp: real, n: nat) {
    && 0 < n <= |r| && Cumulative(r, n) > topp
    && forall j | 0 <= j < n :: Cumulative(r, j) <= topp
  }

  /** The coins that pick entry `k` of a nucleus of `n`: those whose share of the nucleus falls between the sums
      before and after the entry. */
  ghost predicate CoinPicks(r: seq<ProbIndex>, n: nat, coin: real, k: nat) {
    k < n <= |r| && Cumulative(r, k) <= coin * Cumulative(r, n) < Cumulative(r, k + 1)
  }

  /** What is sampled: the entry the coin picks from the nucleus, and no other. */
  ghost predicate Sampled(r: seq<ProbIndex>, topp: real, coin: real, index: nat) {
    exists n: nat :: FirstExceeding(r, topp, n) && SampledFrom(r, n, coin, index)
  }

  ghost predicate SampledFrom(r: seq<ProbIndex>, n: nat, coin: real, index: nat) {
    && (forall k: nat | k < |r| :: r[k].index == index <==> CoinPicks(r, n, coin, k))
    && exists k: nat :: k < |r| && r[k].index == index
  }

  ghost predicate Distinct(r: seq<ProbIndex>) {
    forall i, j | 0 <= i < j < |r| :: r[i].index != r[j].index
  }

  lemma {:induction false} NucleusIs(r: seq<ProbIndex>, topp: real, from: nat)
    requires from < |r| && Total(r) > topp && forall j | 0 <= j <= from :: Cumulative(r, j) <= topp
    ensures FirstExceeding(r, topp, NucleusSize(r, topp, from))
    decreases |r| - from
  {
    hide Cumulative;
    if Cumulative(r, from + 1) <= topp {
      NucleusIs(r, topp, from + 1);
    }
  }

  lemma {:induction false} PickIs(r: seq<ProbIndex>, n: nat, x: real, from: nat)
    requires from < n <= |r| && Cumulative(r, from) <= x < Cumulative(r, n)
    ensures var k := Pick(r, n, x, from); Cumulative(r, k) <= x < Cumulative(r, k + 1)
    decreases n - from
  {
    hide Cumulative;
    if from + 1 < n && x >= Cumulative(r, from + 1) {
      PickIs(r, n, x, from + 1);
    }
  }

  lemma {:induction false} CumulativeMonotone(r: seq<ProbIndex>, a: nat, b: nat)
    requires a <= b <= |r| && forall i | 0 <= i < |r| :: r[i].prob >= 0.0
    ensures Cumulative(r, a) <= Cumulative(r, b)
    decreases b
  {
    if a < b {
      CumulativeMonotone(r, a, b - 1);
    }
  }

  /** The sample is what the coin picks. */
  lemma SampleIs(r: seq<ProbIndex>, topp: real, coin: real)
    requires Total(r) > topp && 0.0 < topp && 0.0 <= coin < 1.0 && Distinct(r) && forall i | 0 <= i < |r| :: r[i].prob >= 0.0
    requires r != []
    ensures Sampled(r, topp, coin, Sample(r, topp, coin))
  {
    NoSum(r);
    NucleusIs(r, topp, 0);
    var n := NucleusSize(r, topp, 0);
    var total := Cumulative(r, n);
    ShareBelow(coin, total);
    ShareIs(coin, total);
    hide Cumulative, Share;
    PickIs(r, n, Share(coin, total), 0);
    var k := Pick(r, n, Share(coin, total), 0);
    hide CoinPicks, NucleusSize, Pick, FirstExceeding;
    forall j: nat | j < |r|
      ensures r[j].index == r[k].index <==> CoinPicks(r, n, coin, j)
    {
      OnlyPick(r, n, coin, k, j);
    }
    assert SampledFrom(r, n, coin, r[k].index);
  }

  lemma OnlyPick(r: seq<ProbIndex>, n: nat, coin: real, k: nat, j: nat)
    requires k < n <= |r| && j < |r| && forall i | 0 <= i < |r| :: r[i].prob >= 0.0
    requires Cumulative(r, k) <= Share(coin, Cumulative(r, n)) < Cumulative(r, k + 1)
    ensures CoinPicks(r, n, coin, j) <==> j == k
  {
    hide Cumulative;
    if j < k {
      CumulativeMonotone(r, j + 1, k);
    } else if k < j < n {
      CumulativeMonotone(r, k + 1, j);
    }
  }

  lemma NoSum(r: seq<ProbIndex>)
    ensures Cumulative(r, 0) == 0.0
  {
  }

  lemma ShareIs(coin: real, total: real)
    requires coin >= 0.0 && total > 0.0
    ensures Share(coin, total) == coin * total >= 0.0
  {
  }

  /** The coins that pick an entry form an interval as long as the entry's part of the nucleus. */
  lemma CoinInterval(r: seq<ProbIndex>, n: nat, k: nat, coin: real)
    requires k < n <= |r| && Cumulative(r, n) > 0.0
    ensures var total := Cumulative(r, n);
            var lo, hi := Cumulative(r, k) / total, Cumulative(r, k + 1) / total;
            (CoinPicks(r, n, coin, k) <==> lo <= coin < hi) && hi - lo == r[k].prob / total
  {
    var total, a, b := Cumulative(r, n), Cumulative(r, k), Cumulative(r, k + 1);
    assert b == a + r[k].prob;
    hide Cumulative;
    Quotients(a, total, coin);
    Quotients(b, total, coin);
    QuotientOfSum(a, r[k].prob, total);
  }

  lemma Quotients(a: real, total: real, coin: real)
    requires total > 0.0
    ensures a <= coin * total <==> a / total <= coin
  {
    var q := a / total;
    assert q * total == a;
    if q <= coin {
      Scale(q, coin, total);
    } else {
      Strictly(total, coin, q);
    }
  }

  lemma QuotientOfSum(a: real, p: real, total: real)
    requires total > 0.0
    ensures (a + p) / total - a / total == p / total
  {
  }

  /** Sorted entries have distinct indices and no negative probability. */
  lemma SortedEntries(probabilities: seq<real>, cutoff: real, r: seq<ProbIndex>)
    requires (forall p <- probabilities :: p >= 0.0) && Sorted(Crop(Entries(probabilities), cutoff), r)
    ensures Distinct(r) && forall i | 0 <= i < |r| :: r[i].prob >= 0.0
  {
    var ps := Entries(probabilities);
    var c := Crop(ps, cutoff);
    forall x: ProbIndex
      ensures multiset(r)[x] <= 1 && (x in r ==> x in ps)
    {
      CropCounts(ps, cutoff, x);
      EntriesOnce(probabilities, |probabilities|, x);
      assert ps[..|probabilities|] == ps;
      assert x in r ==> x in multiset(r);
      assert x in multiset(c) ==> x in c;
    }
    forall i, j | 0 <= i < j < |r|
      ensures r[i].index != r[j].index
    {
      assert r[i] in ps && r[j] in ps;
      if r[i].index == r[j].index {
        TwiceCounts(r, i, j);
      }
    }
    forall i | 0 <= i < |r|
      ensures r[i].prob >= 0.0
    {
      assert r[i] in ps;
      var k :| 0 <= k < |ps| && ps[k] == r[i];
      assert probabilities[k] in probabilities;
    }
  }

  lemma TwiceCounts(r: seq<ProbIndex>, i: nat, j: nat)
    requires i < j < |r| && r[i] == r[j]
    ensures multiset(r)[r[i]] >= 2
  {
    assert r == r[..i] + [r[i]] + r[i + 1..j] + [r[j]] + r[j + 1..];
  }

  lemma {:induction false} EntriesOnce(probabilities: seq<real>, n: nat, x: ProbIndex)
    requires n <= |probabilities|
    ensures multiset(Entries(probabilities)[..n])[x] <= 1
    ensures x.index >= n ==> multiset(Entries(probabilities)[..n])[x] == 0
  {
    if n > 0 {
      EntriesOnce(probabilities, n - 1, x);
      var ps := Entries(probabilities);
      assert ps[..n] == ps[..n - 1] + [ps[n - 1]];
    }
  }

  function Uniform(n: nat): seq<real>
    requires n > 0
  {
    seq(n, _ => 1.0 / n as real)
  }

  /** The crop is never empty exactly when n * topp is at least 1: below that the uniform distribution
      loses all its entries. */
  lemma CropNeverEmpty(n: nat, topp: real)
    requires n >= 2 && 0.0 < topp < 1.0
    ensures n as real * topp >= 1.0 <==>
              forall ps: seq<ProbIndex> | |ps| == n && Total(ps) == 1.0 :: Crop(ps, Cutoff(n, topp)) != []
  {
    if n as real * topp >= 1.0 {
      forall ps: seq<ProbIndex> | |ps| == n && Total(ps) == 1.0
        ensures Crop(ps, Cutoff(n, topp)) != []
      {
        CropLoses(ps, Cutoff(n, topp));
        if Crop(ps, Cutoff(n, topp)) == [] {
          AllBelow(n, topp);
          EmptyTotal();
          assert false;
        }
      }
    } else {
      var ps := Entries(Uniform(n));
      UniformTotal(n, n);
      UniformBelow(n, topp);
      CropEmpty(ps, Cutoff(n, topp));
    }
  }

  lemma EmptyTotal()
    ensures Total([]) == 0.0
  {
  }

  lemma AllBelow(n: nat, topp: real)
    requires n >= 2 && 0.0 < topp < 1.0 && n as real * topp >= 1.0
    ensures Times(n, Cutoff(n, topp)) <= 1.0
  {
    var m, c := (n - 1) as real, Cutoff(n, topp);
    CutoffTimes(n, topp);
    TimesIs(n - 1, c);
    assert n as real == m + 1.0;
    assert m * c == 1.0 - topp;
    assert m * topp + topp >= 1.0;
    if c > topp {
      assert m * c > m * topp by {
        Strictly(m, topp, c);
      }
    }
  }

  lemma Strictly(m: real, a: real, b: real)
    requires m > 0.0 && a < b
    ensures m * a < m * b
  {
    assert m * (b - a) > 0.0;
  }

  lemma {:induction false} UniformTotal(n: nat, k: nat)
    requires 0 < n && k <= n
    ensures Cumulative(Entries(Uniform(n)), k) == k as real * (1.0 / n as real)
    ensures k == n ==> Cumulative(Entries(Uniform(n)), k) == 1.0
  {
    if k > 0 {
      UniformTotal(n, k - 1);
      assert k as real == (k - 1) as real + 1.0;
    } else {
      assert k as real == 0.0;
    }
  }

  lemma UniformBelow(n: nat, topp: real)
    requires n >= 2 && 0.0 < topp < 1.0 && n as real * topp < 1.0
    ensures 1.0 / n as real < Cutoff(n, topp)
  {
    CutoffProduct(n, topp);
    assert Product(n as real, topp) < 1.0;
    Below(n as real, n, topp);
  }

  lemma CutoffProduct(n: nat, topp: real)
    requires n >= 2
    ensures n as real == (n - 1) as real + 1.0 && (n - 1) as real > 0.0
    ensures Product((n - 1) as real, Cutoff(n, topp)) == 1.0 - topp
  {
    var m := (n - 1) as real;
    assert m * ((1.0 - topp) / m) == 1.0 - topp;
  }

  function Product(a: real, b: real): real {
    a * b
  }

  lemma Below(r: real, n: nat, topp: real)
    requires n >= 2 && r == n as real && Product(r, topp) < 1.0
    ensures 1.0 / r < Cutoff(n, topp)
  {
    CutoffProduct(n, topp);
    Inverse(r);
    hide Cutoff, Product;
    BelowCutoff(r, (n - 1) as real, 1.0 / r, Cutoff(n, topp), topp);
  }

  lemma Inverse(r: real)
    requires r > 0.0
    ensures Product(r, 1.0 / r) == 1.0
  {
  }

  lemma BelowCutoff(n: real, m: real, u: real, c: real, topp: real)
    requires m > 0.0 && n == m + 1.0 && Product(n, u) == 1.0 && Product(m, c) == 1.0 - topp && Product(n, topp) < 1.0
    ensures u < c
  {
    hide Product;
    Divides(n, u, topp);
    Rest(n, m, u);
    Divides(m, c, u);
  }

  lemma Divides(n: real, a: real, b: real)
    requires n > 0.0 && Product(n, a) > Product(n, b)
    ensures a > b
  {
    if a <= b {
      Scale(a, b, n);
    }
  }

  lemma Rest(n: real, m: real, u: real)
    requires n == m + 1.0
    ensures Product(m, u) == Product(n, u) - u
  {
  }

  lemma Scale(a: real, b: real, c: real)
    requires a <= b && c >= 0.0
    ensures c * a <= c * b
  {
    assert c * (b - a) >= 0.0;
  }

  ghost predicate Sorting(qsort: seq<ProbIndex> -> seq<ProbIndex>) {
    forall ps: seq<ProbIndex> :: Sorted(ps, qsort(ps))
  }

  function Insert(p: ProbIndex, r: seq<ProbIndex>): (s: seq<ProbIndex>)
    requires Descending(r)
    ensures Sorted([p] + r, s)
  {
    if r == [] || p.prob >= r[0].prob then [p] + r
    else
      assert [p] + r == [p] + ([r[0]] + r[1..]) && r == [r[0]] + r[1..];
      var s := Insert(p, r[1..]);
      InsertBelow(p, r, s);
      [r[0]] + s
  }

  lemma InsertBelow(p: ProbIndex, r: seq<ProbIndex>, s: seq<ProbIndex>)
    requires Descending(r) && r != [] && p.prob < r[0].prob && Sorted([p] + r[1..], s)
    ensures Sorted([p] + r, [r[0]] + s)
  {
    forall i | 0 <= i < |s|
      ensures s[i].prob <= r[0].prob
    {
      assert s[i] in multiset(s);
      assert s[i] in multiset([p] + r[1..]);
      assert s[i] == p || s[i] in r[1..];
    }
    assert [p] + r == [p] + [r[0]] + r[1..] by {
      assert r == [r[0]] + r[1..];
    }
  }

  function InsertionSort(ps: seq<ProbIndex>): (r: seq<ProbIndex>)
    ensures Sorted(ps, r)
  {
    if ps == [] then []
    else
      assert ps == [ps[0]] + ps[1..];
      Insert(ps[0], InsertionSort(ps[1..]))
  }

  /** There are sorts with the descending comparison. */
  lemma SomeSort()
    ensures Sorting(InsertionSort)
  {
  }

  /** What the crop leaves out. */
  function Dropped(ps: seq<ProbIndex>, cutoff: real): seq<ProbIndex> {
    if ps == [] then []
    else
      var last := ps[|ps| - 1];
      Dropped(ps[..|ps| - 1], cutoff) + if last.prob >= cutoff then [] else [last]
  }

  lemma {:induction false} DroppedCounts(ps: seq<ProbIndex>, cutoff: real, x: ProbIndex)
    ensures multiset(Dropped(ps, cutoff))[x] == if x.prob >= cutoff then 0 else multiset(ps)[x]
  {
    if ps != [] {
      DroppedCounts(ps[..|ps| - 1], cutoff, x);
      assert ps == ps[..|ps| - 1] + [ps[|ps| - 1]];
    }
  }

  /** Every descending arrangement of the crop is the front of one of all entries. */
  lemma FrontExtends(ps: seq<ProbIndex>, cutoff: real, r: seq<ProbIndex>, qsort: seq<ProbIndex> -> seq<ProbIndex>)
    requires Sorted(Crop(ps, cutoff), r) && Sorting(qsort)
    ensures exists all :: Sorted(ps, all) && |r| <= |all| && all[..|r|] == r
  {
    hide Crop, Dropped;
    var d := qsort(Dropped(ps, cutoff));
    assert Sorted(Dropped(ps, cutoff), d);
    FrontCounts(ps, cutoff, r, d);
    hide Descending;
    assert Descending(r + d) by {
      FrontDescends(r, d, cutoff);
    }
    assert Sorted(ps, r + d) && (r + d)[..|r|] == r;
  }

  lemma FrontCounts(ps: seq<ProbIndex>, cutoff: real, r: seq<ProbIndex>, d: seq<ProbIndex>)
    requires multiset(r) == multiset(Crop(ps, cutoff)) && multiset(d) == multiset(Dropped(ps, cutoff))
    ensures multiset(r + d) == multiset(ps)
    ensures (forall x <- r :: x.prob >= cutoff) && (forall x <- d :: x.prob < cutoff)
  {
    hide Crop, Dropped;
    forall x: ProbIndex
      ensures multiset(r + d)[x] == multiset(ps)[x]
      ensures (x in r ==> x.prob >= cutoff) && (x in d ==> x.prob < cutoff)
    {
      CropCounts(ps, cutoff, x);
      DroppedCounts(ps, cutoff, x);
      assert (x in r ==> x in multiset(r)) && (x in d ==> x in multiset(d));
    }
  }

  lemma FrontDescends(r: seq<ProbIndex>, d: seq<ProbIndex>, cutoff: real)
    requires Descending(r) && Descending(d)
    requires (forall x <- r :: x.prob >= cutoff) && (forall x <- d :: x.prob < cutoff)
    ensures Descending(r + d)
  {
  }

  lemma CropNext(ps: seq<ProbIndex>, i: nat, cutoff: real)
    requires i < |ps|
    ensures Crop(ps[..i + 1], cutoff) == Crop(ps[..i], cutoff) + if ps[i].prob >= cutoff then [ps[i]] else []
  {
    assert ps[..i + 1][..i] == ps[..i];
  }

  /** The first loop of sample_topp. */
  method CropInto(probabilities: seq<real>, cutoff: real, probindex: array<ProbIndex>) returns (n0: nat)
    requires probindex.Length >= |probabilities|
    modifies probindex
    ensures n0 <= |probabilities| && probindex[..n0] == Crop(Entries(probabilities), cutoff)
  {
    ghost var ps := Entries(probabilities);
    hide Entries, Crop;
    n0 := 0;
    for i := 0 to |probabilities|
      invariant n0 <= i && probindex[..n0] == Crop(ps[..i], cutoff)
    {
      CropNext(ps, i, cutoff);
      assert ps[i] == ProbIndex(probabilities[i], i);
      if probabilities[i] >= cutoff {
        probindex[n0] := ProbIndex(probabilities[i], i);
        n0 := n0 + 1;
      }
    }
    assert ps[..|probabilities|] == ps;
  }

  /** sample_topp: the crop is sorted, cut to the nucleus and sampled, and that is what sorting all
      entries would have given. None: no probability reaches the cutoff, and the code reads in front of
      its buffer. */
  method SampleTopp(probabilities: seq<real>, topp: real, coin: real, probindex: array<ProbIndex>,
                    qsort: seq<ProbIndex> -> seq<ProbIndex>)
    returns (index: Option<nat>)
    requires |probabilities| >= 2 && probindex.Length >= |probabilities| && 0.0 < topp < 1.0 && 0.0 <= coin < 1.0
    requires Distribution(probabilities) && Sorting(qsort)
    modifies probindex
    ensures index == None <==> forall p <- probabilities :: p < Cutoff(|probabilities|, topp)
    ensures var c := Crop(Entries(probabilities), Cutoff(|probabilities|, topp));
            forall all | index.Some? && Sorted(Entries(probabilities), all) && |c| <= |all| && all[..|c|] == qsort(c) ::
              all != [] && index == Some(Sample(all, topp, coin))
    ensures index.Some? ==>
              Sampled(qsort(Crop(Entries(probabilities), Cutoff(|probabilities|, topp))), topp, coin, index.value)
    ensures var c := Crop(Entries(probabilities), Cutoff(|probabilities|, topp));
            exists all :: Sorted(Entries(probabilities), all) && |c| <= |all| && all[..|c|] == qsort(c)
  {
    hide Cutoff, Cumulative, Entries, Crop, Share, Sample;
    var cutoff := Cutoff(|probabilities|, topp);
    var n0 := CropInto(probabilities, cutoff, probindex);
    ghost var c := probindex[..n0];
    NothingLeft(probabilities, cutoff);
    var sorted := qsort(probindex[..n0]);
    assert Sorted(c, sorted);
    TotalPermuted(c, sorted);
    for i := 0 to n0
      invariant forall k | 0 <= k < i :: probindex[k] == sorted[k]
    {
      probindex[i] := sorted[i];
    }
    FrontExtends(Entries(probabilities), cutoff, sorted, qsort);
    if n0 == 0 {
      return None;
    }
    var picked := SampleSorted(sorted, topp, coin);
    index := Some(picked);
    CropExceeds(Entries(probabilities), topp);
    SortedEntries(probabilities, cutoff, sorted);
    SampleIs(sorted, topp, coin);
    forall all | Sorted(Entries(probabilities), all) && |c| <= |all| && all[..|c|] == sorted
      ensures all != [] && picked == Sample(all, topp, coin)
    {
      CroppingLossless(probabilities, topp, coin, all);
    }
  }

  lemma NothingLeft(probabilities: seq<real>, cutoff: real)
    ensures Crop(Entries(probabilities), cutoff) == [] <==> forall p <- probabilities :: p < cutoff
  {
    var ps := Entries(probabilities);
    CropEmpty(ps, cutoff);
    forall i | 0 <= i < |probabilities|
      ensures ps[i] in ps && ps[i].prob == probabilities[i] && probabilities[i] in probabilities
    {
    }
  }

  /** The two loops over the sorted entries. */
  method SampleSorted(r: seq<ProbIndex>, topp: real, coin: real) returns (index: nat)
    requires r != []
    ensures index == Sample(r, topp, coin)
  {
    var cumulative := 0.0;
    var last := |r| - 1;
    var i := 0;
    while i < |r|
      invariant i <= |r| && cumulative == Cumulative(r, i) && last == |r| - 1
      invariant NucleusSize(r, topp, 0) == NucleusSize(r, topp, i)
    {
      cumulative := cumulative + r[i].prob;
      if cumulative > topp {
        last := i;
        break;
      }
      i := i + 1;
    }
    assert last + 1 == NucleusSize(r, topp, 0) && cumulative == Cumulative(r, last + 1);
    var share := Share(coin, cumulative);
    var cdf := 0.0;
    for k := 0 to last + 1
      invariant cdf == Cumulative(r, k)
      invariant k <= last ==> Pick(r, last + 1, share, 0) == Pick(r, last + 1, share, k)
      invariant k == last + 1 ==> Pick(r, last + 1, share, 0) == last
    {
      cdf := cdf + r[k].prob;
      if share < cdf {
        return r[k].index;
      }
    }
    return r[last].index;
  }
}
