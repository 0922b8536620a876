/** SPLIT_THREADS of src/nn/nn-quants.hpp, and what it means for an op that every thread of a step
    runs on its own range of the output. */
module Threads {
  import opened Arith

  function SplitStart(len: nat, nThreads: nat, t: nat): nat
    requires nThreads > 0
  {
    Mul(t, Div(len, nThreads)) + if t < Rem(len, nThreads) then t else Rem(len, nThreads)
  }

  function SplitEnd(len: nat, nThreads: nat, t: nat): (r: nat)
    requires nThreads > 0
    ensures SplitStart(len, nThreads, t) <= r
  {
    SplitStart(len, nThreads, t) + Div(len, nThreads) + if t < Rem(len, nThreads) then 1 else 0
  }

  /** The ranges follow each other from 0 to `len`; the first ones are one longer, as many as the division leaves. */
  lemma SplitEdges(len: nat, nThreads: nat, t: nat)
    requires t < nThreads
    ensures SplitStart(len, nThreads, 0) == 0 && SplitStart(len, nThreads, nThreads) == len
    ensures SplitEnd(len, nThreads, t) == SplitStart(len, nThreads, t + 1)
    ensures SplitEnd(len, nThreads, t) - SplitStart(len, nThreads, t)
         == Div(len, nThreads) + if t < Rem(len, nThreads) then 1 else 0
  {
    hide Mul, Div, Rem;
    Division(len, nThreads);
    MulNext(t, Div(len, nThreads));
    MulNext(nThreads, Div(len, nThreads));
    MulNext(0, Div(len, nThreads));
  }

  lemma {:induction false} SplitUpTo(len: nat, nThreads: nat, t: nat, u: nat)
    requires t <= u <= nThreads && nThreads > 0
    ensures SplitStart(len, nThreads, t) <= SplitStart(len, nThreads, u)
    decreases u
  {
    hide SplitStart, SplitEnd;
    if t < u {
      SplitEdges(len, nThreads, u - 1);
      SplitUpTo(len, nThreads, t, u - 1);
    }
  }

  /** The thread whose range holds index `i`. */
  function SplitOwner(len: nat, nThreads: nat, i: nat, t: nat := 0): (owner: nat)
    requires t < nThreads && SplitStart(len, nThreads, t) <= i < len
    ensures t <= owner < nThreads && SplitStart(len, nThreads, owner) <= i < SplitEnd(len, nThreads, owner)
    decreases nThreads - t
  {
    SplitEdges(len, nThreads, t);
    if i < SplitEnd(len, nThreads, t) then t else SplitOwner(len, nThreads, i, t + 1)
  }

  /** Every index is in the range of exactly one thread. */
  lemma SplitOnce(len: nat, nThreads: nat, i: nat, t: nat)
    requires t < nThreads && i < len
    ensures SplitStart(len, nThreads, 0) <= i
    ensures SplitStart(len, nThreads, t) <= i < SplitEnd(len, nThreads, t) <==> t == SplitOwner(len, nThreads, i)
  {
    SplitEdges(len, nThreads, t);
    hide SplitStart, SplitEnd;
    var owner := SplitOwner(len, nThreads, i);
    SplitEdges(len, nThreads, owner);
    if t < owner {
      SplitUpTo(len, nThreads, t + 1, owner);
    } else if owner < t {
      SplitUpTo(len, nThreads, owner + 1, t);
    }
  }

  /** The thread that takes index `i`. */
  ghost function Taker(len: nat, nThreads: nat, i: nat): nat
    requires nThreads > 0
  {
    if i < len then SplitEdges(len, nThreads, 0); SplitOwner(len, nThreads, i) else 0
  }

  lemma TakerIs(len: nat, nThreads: nat, i: nat, t: nat)
    requires t < nThreads && i < len
    ensures Taker(len, nThreads, i) < nThreads
    ensures SplitStart(len, nThreads, t) <= i < SplitEnd(len, nThreads, t) <==> t == Taker(len, nThreads, i)
  {
    SplitOnce(len, nThreads, i, t);
  }

  /** `after` has the values of `f` on [lo, hi) and is as `before` elsewhere. */
  ghost predicate Updated<T>(before: seq<T>, after: seq<T>, lo: nat, hi: nat, f: nat -> T) {
    |before| == |after| && forall i: nat | i < |after| :: after[i] == if lo <= i < hi then f(i) else before[i]
  }

  lemma UpdatedNext<T>(before: seq<T>, mid: seq<T>, lo: nat, i: nat, f: nat -> T)
    requires Updated(before, mid, lo, i, f) && lo <= i < |mid|
    ensures Updated(before, mid[i := f(i)], lo, i + 1, f)
  {
  }

  lemma UpdatedPair<T>(before: seq<T>, mid: seq<T>, after: seq<T>, lo: nat, i: nat, f: nat -> T)
    requires Updated(before, mid, lo, i, f) && lo <= i && i + 1 < |mid| && after == mid[i := f(i)][i + 1 := f(i + 1)]
    ensures Updated(before, after, lo, i + 2, f)
  {
  }

  lemma UpdatedNone<T>(before: seq<T>, lo: nat, f: nat -> T)
    ensures Updated(before, before, lo, lo, f)
  {
  }

  /** The state after the threads of `done` have updated their ranges of the first `len` entries. */
  ghost predicate DoneBy<T>(before: seq<T>, after: seq<T>, len: nat, nThreads: nat, done: seq<nat>, f: nat -> T)
    requires nThreads > 0
  {
    && len <= |before| == |after|
    && forall i: nat | i < |after| ::
         after[i] == if exists t <- done :: SplitStart(len, nThreads, t) <= i < SplitEnd(len, nThreads, t) then f(i) else before[i]
  }

  ghost predicate Order(order: seq<nat>, nThreads: nat) {
    forall t: nat :: multiset(order)[t] == if t < nThreads then 1 else 0
  }

  lemma NextThread(order: seq<nat>, nThreads: nat, k: nat)
    requires Order(order, nThreads) && k < |order|
    ensures order[k] < nThreads && order[k] !in order[..k] && order[..k + 1] == order[..k] + [order[k]]
    ensures forall t <- order[..k] :: t < nThreads
  {
    assert order == order[..k] + [order[k]] + order[k + 1..];
    assert multiset(order)[order[k]] == multiset(order[..k])[order[k]] + 1 + multiset(order[k + 1..])[order[k]];
    forall t | t in order[..k]
      ensures t < nThreads
    {
      assert t in order;
      assert multiset(order)[t] > 0;
    }
  }

  lemma EveryThread(order: seq<nat>, nThreads: nat, t: nat)
    requires Order(order, nThreads) && t < nThreads
    ensures t in order && t in order[..|order|]
  {
    assert multiset(order)[t] == 1;
    assert order[..|order|] == order;
  }

  /** One more thread: its range has not been touched yet, so `f` may depend on what was there before. */
  lemma ThreadDone<T>(before: seq<T>, mid: seq<T>, after: seq<T>, len: nat, nThreads: nat, order: seq<nat>, k: nat, f: nat -> T)
    requires Order(order, nThreads) && k < |order| && nThreads > 0
    requires DoneBy(before, mid, len, nThreads, order[..k], f)
    requires order[k] < nThreads &&
             Updated(mid, after, SplitStart(len, nThreads, order[k]), SplitEnd(len, nThreads, order[k]), f)
    ensures DoneBy(before, after, len, nThreads, order[..k + 1], f)
  {
    hide SplitStart, SplitEnd;
    NextThread(order, nThreads, k);
    var lo, hi := SplitStart(len, nThreads, order[k]), SplitEnd(len, nThreads, order[k]);
    forall i: nat | i < |after|
      ensures after[i] == if exists t <- order[..k + 1] :: SplitStart(len, nThreads, t) <= i < SplitEnd(len, nThreads, t)
                          then f(i) else before[i]
    {
      assert order[k] in order[..k + 1];
      assert forall t <- order[..k] :: t in order[..k + 1];
    }
  }

  lemma NoneDone<T>(before: seq<T>, len: nat, nThreads: nat, order: seq<nat>, f: nat -> T)
    requires nThreads > 0 && len <= |before|
    ensures DoneBy(before, before, len, nThreads, order[..0], f)
  {
  }

  /** The range of the next thread is still as it was at the start. */
  lemma Untouched<T>(before: seq<T>, mid: seq<T>, len: nat, nThreads: nat, order: seq<nat>, k: nat, f: nat -> T)
    requires Order(order, nThreads) && k < |order| && nThreads > 0
    requires DoneBy(before, mid, len, nThreads, order[..k], f)
    ensures order[k] < nThreads && SplitEnd(len, nThreads, order[k]) <= len
    ensures forall i: nat | SplitStart(len, nThreads, order[k]) <= i < SplitEnd(len, nThreads, order[k]) :: mid[i] == before[i]
  {
    hide SplitStart, SplitEnd;
    NextThread(order, nThreads, k);
    SplitEdges(len, nThreads, order[k]);
    SplitUpTo(len, nThreads, order[k] + 1, nThreads);
    forall i: nat | SplitStart(len, nThreads, order[k]) <= i < SplitEnd(len, nThreads, order[k])
      ensures mid[i] == before[i]
    {
      if t :| t in order[..k] && SplitStart(len, nThreads, t) <= i < SplitEnd(len, nThreads, t) {
        SplitOnce(len, nThreads, i, t);
        SplitOnce(len, nThreads, i, order[k]);
        assert false;
      }
    }
  }

  /** After all threads, in any order, every entry has its value. */
  lemma AllDone<T>(before: seq<T>, after: seq<T>, len: nat, nThreads: nat, order: seq<nat>, f: nat -> T)
    requires nThreads > 0 && Order(order, nThreads) && DoneBy(before, after, len, nThreads, order, f)
    ensures Updated(before, after, 0, len, f)
  {
    hide SplitStart, SplitEnd;
    forall i: nat | i < |after|
      ensures after[i] == if i < len then f(i) else before[i]
    {
      if i < len {
        SplitEdges(len, nThreads, 0);
        var t := SplitOwner(len, nThreads, i);
        assert multiset(order)[t] == 1;
        assert t in order;
      } else if t :| t in order && SplitStart(len, nThreads, t) <= i < SplitEnd(len, nThreads, t) {
        assert multiset(order)[t] > 0;
        SplitEdges(len, nThreads, t);
        SplitUpTo(len, nThreads, t + 1, nThreads);
        assert false;
      }
    }
  }
}
