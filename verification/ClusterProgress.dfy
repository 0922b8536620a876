/** No reachable state of a cluster is stuck: while something is left to do for the packets sent so far,
    some node can take a step, and only so many steps can be taken before all of it is done. */
module ClusterProgress {
  import opened Wrappers
  import opened Cluster
  import opened ClusterRun

  ghost predicate Proc(net: Net, i: nat, t: nat) {
    i < net.nNodes && t < net.nThreads(i)
  }

  /** Some step other than the root sending another packet is possible. */
  ghost predicate CanStep(net: Net, s: State) {
    exists s', step: Step :: !step.RootPacketStep? && Next(net, s, s', step)
  }

  /** Every node has applied every packet and finished its exchanges. */
  ghost predicate Quiescent(net: Net, s: State) {
    forall i: nat, t: nat {:trigger Proc(net, i, t)} | Proc(net, i, t) ::
      s.packets(i) == s.packets(0) && Past(net, s, i, t, |net.Program(s.packets(0))|)
  }

  /** The exchanges a thread has finished. */
  ghost function Done(net: Net, s: State, i: nat, t: nat): nat {
    if s.began(i, t) == 0 || Complete(net, s, i, t) then s.began(i, t) else s.began(i, t) - 1
  }

  lemma DonePast(net: Net, s: State, i: nat, t: nat, k: nat)
    requires Inv(net, s) && Proc(net, i, t)
    ensures Done(net, s, i, t) >= k <==> Past(net, s, i, t, k)
  {
    hide Net.Program, Thread, Stream;
    if s.began(i, t) == 0 {
      assert NodeOk(net, s, i);
      forall j: nat | Peer(net, i, j) && Thread(net, i, j) == t
        ensures SentAll(net, s, i, j) && ReadAll(net, s, i, j)
      {
        assert LaneOk(net, s, i, j) && Peer(net, j, i) && LaneOk(net, s, j, i);
        StreamLength(All(net, s), s.contrib(i), i, j, 0);
      }
    }
  }

  /** A process that has finished the fewest exchanges. */
  lemma {:induction false} Slowest(net: Net, s: State, i: nat, t: nat) returns (a: nat, u: nat)
    requires Proc(net, i, t)
    ensures Proc(net, a, u)
    ensures forall b: nat, v: nat {:trigger Proc(net, b, v)} | Proc(net, b, v) :: Done(net, s, a, u) <= Done(net, s, b, v)
    decreases Done(net, s, i, t)
  {
    hide Done;
    if b: nat, v: nat {:trigger Proc(net, b, v)} :| Proc(net, b, v) && Done(net, s, b, v) < Done(net, s, i, t) {
      a, u := Slowest(net, s, b, v);
    } else {
      a, u := i, t;
    }
  }

  lemma CanSend(net: Net, s: State, i: nat, j: nat)
    requires Inv(net, s) && Peer(net, i, j) && |Sent(s, i, j)| < Total(All(net, s), i, j, s.began(i, Thread(net, i, j)))
    ensures CanStep(net, s)
  {
    hide Net.Program, Thread, Stream, Total;
    assert NodeOk(net, s, i);
    var b := s.began(i, Thread(net, i, j));
    StreamLength(All(net, s), s.contrib(i), i, j, b);
    var out, done := Stream(All(net, s), s.contrib(i), i, j, b), |Sent(s, i, j)|;
    var s' := s.(chan := Set2(s.chan, i, j, s.chan(i, j) + out[done..done + 1]));
    assert Next(net, s, s', SendStep(i, j, 1));
  }

  lemma CanRecv(net: Net, s: State, i: nat, j: nat)
    requires Inv(net, s) && Peer(net, i, j) && s.chan(j, i) != []
    requires |s.inbox(i, j)| < Total(All(net, s), j, i, s.began(i, Thread(net, i, j)))
    requires forall j': nat {:trigger Peer(net, i, j')} | Peer(net, i, j') && Thread(net, i, j') == Thread(net, i, j) :: SentAll(net, s, i, j')
    ensures CanStep(net, s)
  {
    hide Net.Program, Thread, Stream, Total;
    var s' := s.(inbox := Set2(s.inbox, i, j, s.inbox(i, j) + s.chan(j, i)[..1]), chan := Set2(s.chan, j, i, s.chan(j, i)[1..]));
    assert Next(net, s, s', RecvStep(i, j, 1));
  }

  lemma CanBegin(net: Net, s: State, i: nat, t: nat)
    requires Inv(net, s) && Proc(net, i, t) && Complete(net, s, i, t) && s.began(i, t) < |Ops(net, s, i)|
    requires forall t': nat | t' < net.nThreads(i) :: Past(net, s, i, t', s.began(i, t))
    ensures CanStep(net, s)
  {
    hide Net.Program, Thread, Stream, Total, Complete, Past;
    var k := s.began(i, t);
    var c: seq<Byte> := seq(Ops(net, s, i)[k].n, _ => 0);
    var s' := s.(began := Set2<nat>(s.began, i, t, k + 1),
                 contrib := if k == |s.contrib(i)| then Set1(s.contrib, i, s.contrib(i) + [c]) else s.contrib);
    assert Next(net, s, s', BeginStep(i, t, c));
  }

  lemma CanApply(net: Net, s: State, i: nat)
    requires Inv(net, s) && 0 < i < net.nNodes && !Stopped(s.packets(i))
    requires NodePast(net, s, i, |net.Program(s.packets(i))| + 1)
    ensures CanStep(net, s)
  {
    var k := |net.Program(s.packets(i))|;
    ThreadInRange(net, i, 0);
    hide Net.Program, Thread, Stream, Total;
    assert NodeOk(net, s, i) && |Ops(net, s, i)| == k + 1;
    forall t: nat | t < net.nThreads(i)
      ensures s.began(i, t) == k + 1 && Complete(net, s, i, t)
    {
      assert Past(net, s, i, t, k + 1);
    }
    assert Peer(net, i, 0) && Complete(net, s, i, Thread(net, i, 0)) && ReadAll(net, s, i, 0);
    PacketAtHead(net, s, i, s.inbox(i, 0));
    var p := net.decode(s.inbox(i, 0)[|s.inbox(i, 0)| - net.packetBytes..]);
    var s' := s.(packets := Set1(s.packets, i, s.packets(i) + [p]));
    assert Next(net, s, s', ApplyStep(i));
  }

  /** All threads have finished everything the packets sent so far ask for. */
  lemma AllFinished(net: Net, s: State)
    requires Inv(net, s)
    requires forall i: nat, t: nat {:trigger Proc(net, i, t)} | Proc(net, i, t) :: Past(net, s, i, t, |net.Program(s.packets(0))|)
    ensures CanStep(net, s) || Quiescent(net, s)
  {
    hide Thread, Stream, Total, Complete, Net.Forward;
    if i: nat :| i < net.nNodes && s.packets(i) != s.packets(0) {
      assert NodeOk(net, s, i);
      var q, p := s.packets(i), s.packets(0);
      assert |q| < |p|;
      net.ProgramPrefix(q, p);
      assert !Stopped(q) by {
        if q != [] {
          assert q[|q| - 1] == p[|q| - 1];
        }
      }
      var k := |net.Program(q)| + 1;
      forall t: nat | t < net.nThreads(i)
        ensures Past(net, s, i, t, k)
      {
        assert Proc(net, i, t) && Past(net, s, i, t, |net.Program(p)|);
      }
      CanApply(net, s, i);
    }
  }

  lemma StoppedIsLast(q: seq<Packet>, p: seq<Packet>)
    requires q <= p && OnlyLastStops(p) && Stopped(q)
    ensures q == p
  {
    assert q[|q| - 1] == p[|q| - 1];
  }

  /** A slowest process that has finished what it has started. */
  lemma SlowestIdle(net: Net, s: State, i: nat, t: nat, k: nat)
    requires Inv(net, s) && Proc(net, i, t) && s.began(i, t) == k && Complete(net, s, i, t)
    requires forall b: nat, v: nat {:trigger Proc(net, b, v)} | Proc(net, b, v) :: Past(net, s, b, v, k)
    ensures CanStep(net, s) || Quiescent(net, s)
  {
    hide Thread, Stream, Total, Complete, Net.Program, Past;
    assert NodeOk(net, s, i);
    assert forall v: nat | v < net.nThreads(i) :: Proc(net, i, v) && Past(net, s, i, v, k);
    if k < |Ops(net, s, i)| {
      CanBegin(net, s, i, t);
    } else if i > 0 && !Stopped(s.packets(i)) {
      CanApply(net, s, i);
    } else {
      assert s.packets(i) == s.packets(0) by {
        var q, p := s.packets(i), s.packets(0);
        if i > 0 {
          StoppedIsLast(q, p);
        }
      }
      AllFinished(net, s);
    }
  }

  /** A slowest process in the middle of an exchange. */
  lemma SlowestBusy(net: Net, s: State, i: nat, t: nat, k: nat)
    requires Inv(net, s) && Proc(net, i, t) && s.began(i, t) == k + 1 && !Complete(net, s, i, t)
    requires forall b: nat, v: nat {:trigger Proc(net, b, v)} | Proc(net, b, v) :: Past(net, s, b, v, k)
    ensures CanStep(net, s) || Quiescent(net, s)
  {
    hide Thread, Stream, Total, Net.Program;
    var all := All(net, s);
    assert NodeOk(net, s, i);
    if j: nat {:trigger Peer(net, i, j)} :| Peer(net, i, j) && Thread(net, i, j) == t && !SentAll(net, s, i, j) {
      assert LaneOk(net, s, i, j);
      StreamLength(all, s.contrib(i), i, j, k + 1);
      CanSend(net, s, i, j);
    } else {
      var j: nat {:trigger Peer(net, i, j)} :| Peer(net, i, j) && Thread(net, i, j) == t && !ReadAll(net, s, i, j);
      assert Peer(net, j, i) && LaneOk(net, s, j, i) && NodeOk(net, s, j);
      if s.chan(j, i) != [] {
        CanRecv(net, s, i, j);
      } else {
        WaitingFor(net, s, i, j, k);
      }
    }
  }

  /** The writer of an empty stream that node `i` waits for. */
  lemma WaitingFor(net: Net, s: State, i: nat, j: nat, k: nat)
    requires Inv(net, s) && Peer(net, i, j) && s.chan(j, i) == [] && |s.inbox(i, j)| < Total(All(net, s), j, i, k + 1)
    requires k + 1 <= |All(net, s)|
    requires forall b: nat, v: nat {:trigger Proc(net, b, v)} | Proc(net, b, v) :: Past(net, s, b, v, k)
    ensures CanStep(net, s) || Quiescent(net, s)
  {
    hide Stream, Total, Net.Program, Complete;
    ThreadInRange(net, j, i);
    hide Thread;
    var u := Thread(net, j, i);
    assert Peer(net, j, i) && NodeOk(net, s, j) && Proc(net, j, u) && Past(net, s, j, u, k);
    if s.began(j, u) > k {
      TotalMonotone(All(net, s), j, i, k + 1, s.began(j, u));
      CanSend(net, s, j, i);
    } else {
      SlowestIdle(net, s, j, u, k);
    }
  }

  /** No deadlock: in every reachable state either every node has applied every packet and finished, or
      some step is possible. */
  lemma NoDeadlock(net: Net, run: seq<State>, steps: seq<Step>, m: nat)
    requires IsRun(net, run, steps) && m < |run|
    ensures CanStep(net, run[m]) || Quiescent(net, run[m])
  {
    var s := run[m];
    RunInv(net, run, steps, m);
    hide Thread, Stream, Total, Net.Program, Inv, CanStep, Quiescent;
    var i, t := Slowest(net, s, 0, 0);
    var k := Done(net, s, i, t);
    forall b: nat, v: nat {:trigger Proc(net, b, v)} | Proc(net, b, v)
      ensures Past(net, s, b, v, k)
    {
      DonePast(net, s, b, v, k);
    }
    DonePast(net, s, i, t, k);
    if Complete(net, s, i, t) {
      SlowestIdle(net, s, i, t, k);
    } else {
      SlowestBusy(net, s, i, t, k);
    }
  }

  function Sum(f: nat -> int, n: nat): int {
    if n == 0 then 0 else Sum(f, n - 1) + f(n - 1)
  }

  lemma {:induction false} SumLess(f: nat -> int, g: nat -> int, n: nat, k: nat)
    requires forall i: nat | i < n :: 0 <= f(i) <= g(i)
    ensures 0 <= Sum(f, n) <= Sum(g, n)
    ensures k < n && f(k) < g(k) ==> Sum(f, n) < Sum(g, n)
  {
    if n > 0 {
      SumLess(f, g, n - 1, k);
    }
  }

  /** The bytes node `i` still has to send to and to read from node `j` for the packets sent so far. */
  ghost function LaneWork(net: Net, s: State, i: nat, j: nat): int {
    var all := All(net, s);
    if i == j then 0 else Total(all, i, j, |all|) - |Sent(s, i, j)| + Total(all, j, i, |all|) - |s.inbox(i, j)|
  }

  /** What node `i` still has to do: packets to apply, exchanges to start, bytes to move. */
  ghost function NodeWork(net: Net, s: State, i: nat): int {
    |s.packets(0)| - |s.packets(i)|
    + Sum((t: nat) => |All(net, s)| - s.began(i, t), net.nThreads(i))
    + Sum((j: nat) => LaneWork(net, s, i, j), net.nNodes)
  }

  ghost function Work(net: Net, s: State): int {
    Sum((i: nat) => NodeWork(net, s, i), net.nNodes)
  }

  /** The root has sent nothing more, and node `i` is as far as it was or further. */
  ghost predicate Further(net: Net, s: State, s': State, i: nat) {
    && s'.packets(0) == s.packets(0) && |s.packets(i)| <= |s'.packets(i)|
    && (forall t: nat :: s.began(i, t) <= s'.began(i, t))
    && (forall j: nat {:trigger Peer(net, i, j)} | Peer(net, i, j) ::
          |Sent(s, i, j)| <= |Sent(s', i, j)| && |s.inbox(i, j)| <= |s'.inbox(i, j)|)
  }

  lemma LaneFurther(net: Net, s: State, s': State, i: nat, j: nat)
    requires Inv(net, s') && i < net.nNodes && j < net.nNodes && Further(net, s, s', i)
    ensures 0 <= LaneWork(net, s', i, j) <= LaneWork(net, s, i, j)
    ensures i != j && (|Sent(s, i, j)| < |Sent(s', i, j)| || |s.inbox(i, j)| < |s'.inbox(i, j)|) ==>
              LaneWork(net, s', i, j) < LaneWork(net, s, i, j)
  {
    hide Net.Program, Thread, Stream, Total;
    if i != j {
      var all := All(net, s');
      assert Peer(net, i, j) && Peer(net, j, i) && LaneOk(net, s', i, j) && LaneOk(net, s', j, i);
      assert NodeOk(net, s', i) && NodeOk(net, s', j);
      var b, r := s'.began(i, Thread(net, i, j)), s'.began(i, Thread(net, i, j));
      StreamLength(all, s'.contrib(i), i, j, b);
      TotalMonotone(all, i, j, b, |all|);
      TotalMonotone(all, j, i, r, |all|);
    }
  }

  /** A node that gets further has less to do. */
  lemma NodeFurther(net: Net, s: State, s': State, i: nat, t: nat, j: nat)
    requires Inv(net, s') && i < net.nNodes && Further(net, s, s', i)
    ensures 0 <= NodeWork(net, s', i) <= NodeWork(net, s, i)
    ensures |s.packets(i)| < |s'.packets(i)| ==> NodeWork(net, s', i) < NodeWork(net, s, i)
    ensures t < net.nThreads(i) && s.began(i, t) < s'.began(i, t) ==> NodeWork(net, s', i) < NodeWork(net, s, i)
    ensures Peer(net, i, j) && (|Sent(s, i, j)| < |Sent(s', i, j)| || |s.inbox(i, j)| < |s'.inbox(i, j)|) ==>
              NodeWork(net, s', i) < NodeWork(net, s, i)
  {
    assert NodeOk(net, s', i);
    hide Net.Program, LaneWork, Sum, Sent;
    SumLess((u: nat) => |All(net, s')| - s'.began(i, u), (u: nat) => |All(net, s)| - s.began(i, u), net.nThreads(i), t);
    forall k: nat | k < net.nNodes
      ensures 0 <= LaneWork(net, s', i, k) <= LaneWork(net, s, i, k)
    {
      LaneFurther(net, s, s', i, k);
    }
    if j < net.nNodes {
      LaneFurther(net, s, s', i, j);
    }
    SumLess((k: nat) => LaneWork(net, s', i, k), (k: nat) => LaneWork(net, s, i, k), net.nNodes, j);
  }

  /** Every step but a packet leaves less to do. */
  lemma LessWork(net: Net, s: State, s': State, step: Step)
    requires Inv(net, s) && !step.RootPacketStep? && Next(net, s, s', step)
    ensures Inv(net, s') && 0 <= Work(net, s') < Work(net, s)
  {
    NextInv(net, s, s', step);
    var j := if step.SendStep? || step.RecvStep? then step.j else 0;
    var t := if step.BeginStep? then step.t else 0;
    forall i: nat | i < net.nNodes
      ensures 0 <= NodeWork(net, s', i) <= NodeWork(net, s, i)
      ensures i == step.i ==> NodeWork(net, s', i) < NodeWork(net, s, i)
    {
      hide Net.Program, Thread, Stream, Total, Inv, NodeWork, Complete, Past;
      StepFurther(net, s, s', step, i);
      NodeFurther(net, s, s', i, t, j);
    }
    assert step.i < net.nNodes;
    SumLess((i: nat) => NodeWork(net, s', i), (i: nat) => NodeWork(net, s, i), net.nNodes, step.i);
  }

  lemma StepFurther(net: Net, s: State, s': State, step: Step, i: nat)
    requires !step.RootPacketStep? && Next(net, s, s', step) && i < net.nNodes
    ensures Further(net, s, s', i)
  {
    hide Net.Program, Thread, Stream, Total, Complete, Past;
    if step.RecvStep? {
      assert |Sent(s', step.j, step.i)| == |Sent(s, step.j, step.i)|;
    }
  }

  /** Between two packets a run has only so many steps, and one that cannot go on has finished. */
  lemma {:induction false} Finishes(net: Net, run: seq<State>, steps: seq<Step>, from: nat)
    requires IsRun(net, run, steps) && from < |run|
    requires forall k | from <= k < |steps| :: !steps[k].RootPacketStep?
    ensures |steps| - from <= Work(net, run[from])
    ensures !CanStep(net, run[|run| - 1]) ==> Quiescent(net, run[|run| - 1])
    decreases |run| - from
  {
    hide Work, Inv, Next, CanStep, Quiescent;
    RunInv(net, run, steps, from);
    if from < |steps| {
      LessWork(net, run[from], run[from + 1], steps[from]);
      Finishes(net, run, steps, from + 1);
    } else {
      NoDeadlock(net, run, steps, from);
      NoNegativeWork(net, run[from]);
    }
  }

  lemma NoNegativeWork(net: Net, s: State)
    requires Inv(net, s)
    ensures Work(net, s) >= 0
  {
    hide NodeWork, Inv;
    forall i: nat | i < net.nNodes
      ensures 0 <= NodeWork(net, s, i)
    {
      NodeFurther(net, s, s, i, 0, 0);
    }
    SumLess((i: nat) => NodeWork(net, s, i), (i: nat) => NodeWork(net, s, i), net.nNodes, 0);
  }

  /** So when a run between packets cannot go on, every node has finished every packet, and with it all rows of
      all exchanges. */
  lemma QuiescentDone(net: Net, run: seq<State>, steps: seq<Step>, t: nat, i: nat, m: nat)
    requires IsRun(net, run, steps) && t < |run| && Quiescent(net, run[t]) && i < net.nNodes && m < |run[t].packets(0)|
    ensures PacketDone(net, run[t], i, m)
  {
    net.PacketAt(run[t].packets(0), m);
    hide Net.Program, Net.ExchangeCount, Past;
    assert forall u: nat | u < net.nThreads(i) :: Proc(net, i, u) && Past(net, run[t], i, u, |net.Program(run[t].packets(0))|);
    PastEarlier(net, run[t], i, net.ExchangeCount(run[t].packets(0)[..m + 1]), |net.Program(run[t].packets(0))|);
  }
}
