/** The state machine of a running cluster: what each step may do, and what every reachable state keeps. */
module ClusterRun {
  import opened Wrappers
  import opened Arith
  import opened Cluster

  /** `packets(i)` are the packets node `i` has applied (for the root: sent); `contrib(i)` is the data
      node `i` contributes to each exchange; `began(i, t)` counts the exchanges thread `t` has started;
      `inbox(i, j)` is what node `i` has read from node `j` so far; `chan(i, j)` is in flight. */
  datatype State = State(
    packets: nat -> seq<Packet>, contrib: nat -> seq<seq<Byte>>, began: (nat, nat) -> nat,
    inbox: (nat, nat) -> seq<Byte>, chan: (nat, nat) -> seq<Byte>)

  function Set1<T>(f: nat -> T, i: nat, v: T): nat -> T {
    (a: nat) => if a == i then v else f(a)
  }

  function Set2<T>(f: (nat, nat) -> T, i: nat, j: nat, v: T): (nat, nat) -> T {
    (a: nat, b: nat) => if a == i && b == j then v else f(a, b)
  }

  /** The bytes an exchange moves from node `i` to node `j`. */
  function OutBytes(op: Op, i: nat, j: nat): nat {
    match op.kind
    case Control => if i == 0 then op.n else 0
    case WithRoot => if i == 0 then op.n else 0
    case NodeSlices => op.n
    case NodeSlicesExceptRoot => if j == 0 then op.n else 0
  }

  /** The bytes the first `k` exchanges move from `i` to `j`. */
  function Total(ops: seq<Op>, i: nat, j: nat, k: nat): nat {
    if k == 0 then 0 else Total(ops, i, j, k - 1) + if k <= |ops| then OutBytes(ops[k - 1], i, j) else 0
  }

  /** What the first `k` exchanges put on the stream from `i` to `j`: the contribution where `i` writes. */
  function Stream(ops: seq<Op>, cs: seq<seq<Byte>>, i: nat, j: nat, k: nat): seq<Byte> {
    if k == 0 then []
    else Stream(ops, cs, i, j, k - 1)
         + if k <= |cs| && k <= |ops| && OutBytes(ops[k - 1], i, j) > 0 then cs[k - 1] else []
  }

  ghost predicate Sized(ops: seq<Op>, cs: seq<seq<Byte>>) {
    |cs| <= |ops| && forall k | 0 <= k < |cs| :: |cs[k]| == ops[k].n
  }

  lemma {:induction false} StreamLength(ops: seq<Op>, cs: seq<seq<Byte>>, i: nat, j: nat, k: nat)
    requires Sized(ops, cs) && k <= |cs|
    ensures |Stream(ops, cs, i, j, k)| == Total(ops, i, j, k)
  {
    if k > 0 {
      StreamLength(ops, cs, i, j, k - 1);
    }
  }

  lemma {:induction false} TotalMonotone(ops: seq<Op>, i: nat, j: nat, a: nat, b: nat)
    requires a <= b <= |ops|
    ensures Total(ops, i, j, a) <= Total(ops, i, j, b)
    decreases b
  {
    if a < b {
      TotalMonotone(ops, i, j, a, b - 1);
    }
  }

  lemma {:induction false} TotalExtends(ops: seq<Op>, more: seq<Op>, i: nat, j: nat, k: nat)
    requires ops <= more && k <= |ops|
    ensures Total(ops, i, j, k) == Total(more, i, j, k)
  {
    if k > 0 {
      TotalExtends(ops, more, i, j, k - 1);
    }
  }

  lemma {:induction false} StreamExtends(ops: seq<Op>, more: seq<Op>, cs: seq<seq<Byte>>, cs': seq<seq<Byte>>, i: nat, j: nat, k: nat)
    requires ops <= more && cs <= cs' && k <= |cs| <= |ops| && |cs'| <= |more|
    ensures Stream(ops, cs, i, j, k) == Stream(more, cs', i, j, k)
  {
    if k > 0 {
      StreamExtends(ops, more, cs, cs', i, j, k - 1);
    }
  }

  lemma {:induction false} StreamGrows(ops: seq<Op>, cs: seq<seq<Byte>>, i: nat, j: nat, a: nat, b: nat)
    requires a <= b <= |cs| <= |ops|
    ensures Stream(ops, cs, i, j, a) <= Stream(ops, cs, i, j, b)
    decreases b
  {
    if a < b {
      StreamGrows(ops, cs, i, j, a, b - 1);
    }
  }

  /** The contribution to exchange `k` lies between the totals before and after it. */
  lemma StreamAt(ops: seq<Op>, cs: seq<seq<Byte>>, i: nat, j: nat, k: nat, b: nat, x: seq<Byte>)
    requires Sized(ops, cs) && k < b <= |cs| && OutBytes(ops[k], i, j) > 0
    requires x <= Stream(ops, cs, i, j, b)
    ensures Total(ops, i, j, k) + ops[k].n == Total(ops, i, j, k + 1)
    ensures |x| >= Total(ops, i, j, k + 1) ==> x[Total(ops, i, j, k)..Total(ops, i, j, k + 1)] == cs[k]
    ensures Total(ops, i, j, k) <= |x| < Total(ops, i, j, k + 1) ==> x[Total(ops, i, j, k)..] <= cs[k]
  {
    StreamGrows(ops, cs, i, j, k + 1, b);
    StreamLength(ops, cs, i, j, k);
    StreamLength(ops, cs, i, j, k + 1);
    var s := Stream(ops, cs, i, j, k + 1);
    assert s == Stream(ops, cs, i, j, k) + cs[k];
    if |x| >= |s| {
      assert x[..|s|] == s;
      assert x[..|s|][Total(ops, i, j, k)..] == x[Total(ops, i, j, k)..Total(ops, i, j, k + 1)];
    } else if Total(ops, i, j, k) <= |x| {
      assert x == s[..|x|];
      assert x[Total(ops, i, j, k)..] == cs[k][..|x| - Total(ops, i, j, k)];
    }
  }

  /** The thread of node `i` that serves the socket to node `j`. */
  function Thread(net: Net, i: nat, j: nat): nat
    requires i != j
  {
    if net.nThreads(i) == 0 then 0 else Rem(Socket(i, j), net.nThreads(i))
  }

  predicate Stopped(packets: seq<Packet>) {
    packets != [] && packets[|packets| - 1].batchSize == 0
  }

  /** The exchanges node `i` knows it has to do: a worker ends by waiting for the next packet. */
  function Ops(net: Net, s: State, i: nat): seq<Op> {
    net.Program(s.packets(i)) + if i == 0 || Stopped(s.packets(i)) then [] else [net.PacketOp()]
  }

  /** The root's exchanges, and one more packet: every node's exchanges start this list. */
  function All(net: Net, s: State): seq<Op> {
    net.Program(s.packets(0)) + [net.PacketOp()]
  }

  /** What node `i` has put on the stream to `j`. */
  function Sent(s: State, i: nat, j: nat): seq<Byte> {
    s.inbox(j, i) + s.chan(i, j)
  }

  predicate SentAll(net: Net, s: State, i: nat, j: nat)
    requires i != j
  {
    |Sent(s, i, j)| == Total(All(net, s), i, j, s.began(i, Thread(net, i, j)))
  }

  predicate ReadAll(net: Net, s: State, i: nat, j: nat)
    requires i != j
  {
    |s.inbox(i, j)| == Total(All(net, s), j, i, s.began(i, Thread(net, i, j)))
  }

  ghost predicate Peer(net: Net, i: nat, j: nat) {
    i < net.nNodes && j < net.nNodes && i != j
  }

  /** Thread `t` has finished all exchanges it has started. */
  ghost predicate Complete(net: Net, s: State, i: nat, t: nat) {
    forall j: nat {:trigger Peer(net, i, j)} | Peer(net, i, j) && Thread(net, i, j) == t ::
      SentAll(net, s, i, j) && ReadAll(net, s, i, j)
  }

  /** Thread `t` has finished the first `k` exchanges. */
  ghost predicate Past(net: Net, s: State, i: nat, t: nat, k: nat) {
    s.began(i, t) > k || (s.began(i, t) == k && Complete(net, s, i, t))
  }

  /** A node: it knows the root's first packets, its data has the right sizes, and no thread is ahead of
      its data. The root's data for a packet is the packet. */
  ghost predicate NodeOk(net: Net, s: State, i: nat) {
    && s.packets(i) <= s.packets(0) && Ops(net, s, i) <= All(net, s)
    && |s.contrib(i)| <= |Ops(net, s, i)| && Sized(All(net, s), s.contrib(i))
    && (forall t: nat :: s.began(i, t) <= |s.contrib(i)|)
  }

  ghost predicate PacketSent(net: Net, s: State, m: nat)
    requires m < |s.packets(0)|
  {
    var k := |net.Program(s.packets(0)[..m])|;
    k < |s.contrib(0)| && s.contrib(0)[k] == net.encode(s.packets(0)[m])
  }

  /** A stream: what was read and what is in flight is a prefix of what the writer's exchanges put
      there; both ends are inside the exchange they have started last. */
  ghost predicate LaneOk(net: Net, s: State, i: nat, j: nat)
    requires i != j
  {
    var all := All(net, s);
    var b, r := s.began(i, Thread(net, i, j)), s.began(j, Thread(net, j, i));
    && Sent(s, i, j) <= Stream(all, s.contrib(i), i, j, b)
    && (b > 0 ==> Total(all, i, j, b - 1) <= |Sent(s, i, j)|)
    && (r > 0 ==> Total(all, i, j, r - 1) <= |s.inbox(j, i)|) && |s.inbox(j, i)| <= Total(all, i, j, r)
  }

  /** Nothing follows a stop signal. */
  ghost predicate OnlyLastStops(packets: seq<Packet>) {
    forall m | 0 <= m < |packets| - 1 :: packets[m].batchSize != 0
  }

  ghost predicate Inv(net: Net, s: State) {
    && net.Valid() && OnlyLastStops(s.packets(0))
    && (forall i: nat | i < net.nNodes :: NodeOk(net, s, i))
    && (forall m: nat | m < |s.packets(0)| :: PacketSent(net, s, m))
    && (forall i: nat, j: nat | Peer(net, i, j) :: LaneOk(net, s, i, j))
  }

  ghost predicate Init(net: Net, s: State) {
    net.Valid() && s == State(_ => [], _ => [], (_, _) => 0, (_, _) => [], (_, _) => [])
  }

  /** The root sends a packet after its previous forward pass, and none after a stop. */
  ghost predicate RootPacket(net: Net, s: State, s': State, p: Packet) {
    var k := |net.Program(s.packets(0))|;
    && !Stopped(s.packets(0))
    && (forall t: nat | t < net.nThreads(0) :: s.began(0, t) == k && Complete(net, s, 0, t))
    && s' == s.(packets := Set1(s.packets, 0, s.packets(0) + [p]), contrib := Set1(s.contrib, 0, s.contrib(0) + [net.encode(p)]))
  }

  /** A thread that has finished its exchanges starts the next one; the first thread to start an
      exchange fixes the node's data `c` for it. */
  ghost predicate Begin(net: Net, s: State, s': State, i: nat, t: nat, c: seq<Byte>) {
    var k := s.began(i, t);
    && i < net.nNodes && t < net.nThreads(i) && k < |Ops(net, s, i)| && Complete(net, s, i, t) && |c| == Ops(net, s, i)[k].n
    && (Ops(net, s, i)[k].barrier ==> forall t': nat | t' < net.nThreads(i) :: Past(net, s, i, t', k))
    && s' == s.(began := Set2<nat>(s.began, i, t, k + 1),
                contrib := if k == |s.contrib(i)| then Set1(s.contrib, i, s.contrib(i) + [c]) else s.contrib)
  }

  /** A send call takes the next `n` bytes of what the thread has to write. */
  ghost predicate Send(net: Net, s: State, s': State, i: nat, j: nat, n: nat)
    requires i != j
  {
    var out := Stream(All(net, s), s.contrib(i), i, j, s.began(i, Thread(net, i, j)));
    var done := |Sent(s, i, j)|;
    && Peer(net, i, j) && n > 0 && done + n <= |out|
    && s' == s.(chan := Set2(s.chan, i, j, s.chan(i, j) + out[done..done + n]))
  }

  /** A recv call returns `n` bytes of what is in flight, no more than the thread still wants; a thread
      reads only after all its writes. */
  ghost predicate Recv(net: Net, s: State, s': State, i: nat, j: nat, n: nat)
    requires i != j
  {
    var t := Thread(net, i, j);
    && Peer(net, i, j) && n > 0 && n <= |s.chan(j, i)| && |s.inbox(i, j)| + n <= Total(All(net, s), j, i, s.began(i, t))
    && (forall j': nat {:trigger Peer(net, i, j')} | Peer(net, i, j') && Thread(net, i, j') == t :: SentAll(net, s, i, j'))
    && s' == s.(inbox := Set2(s.inbox, i, j, s.inbox(i, j) + s.chan(j, i)[..n]), chan := Set2(s.chan, j, i, s.chan(j, i)[n..]))
  }

  /** A worker that has read a whole packet applies it. */
  ghost predicate Apply(net: Net, s: State, s': State, i: nat) {
    var k := |net.Program(s.packets(i))|;
    && 0 < i < net.nNodes && !Stopped(s.packets(i)) && |s.inbox(i, 0)| >= net.packetBytes
    && (forall t: nat | t < net.nThreads(i) :: s.began(i, t) == k + 1 && Complete(net, s, i, t))
    && s' == s.(packets := Set1(s.packets, i, s.packets(i) + [net.decode(s.inbox(i, 0)[|s.inbox(i, 0)| - net.packetBytes..])]))
  }

  datatype Step =
    | RootPacketStep(p: Packet)
    | BeginStep(i: nat, t: nat, c: seq<Byte>)
    | SendStep(i: nat, j: nat, n: nat)
    | RecvStep(i: nat, j: nat, n: nat)
    | ApplyStep(i: nat)

  ghost predicate Next(net: Net, s: State, s': State, step: Step) {
    match step
    case RootPacketStep(p) => RootPacket(net, s, s', p)
    case BeginStep(i, t, c) => Begin(net, s, s', i, t, c)
    case SendStep(i, j, n) => i != j && Send(net, s, s', i, j, n)
    case RecvStep(i, j, n) => i != j && Recv(net, s, s', i, j, n)
    case ApplyStep(i) => Apply(net, s, s', i)
  }

  lemma InitInv(net: Net, s: State)
    requires Init(net, s)
    ensures Inv(net, s)
  {
  }

  lemma SendInv(net: Net, s: State, s': State, i: nat, j: nat, n: nat)
    requires Inv(net, s) && i != j && Send(net, s, s', i, j, n)
    ensures Inv(net, s')
  {
    hide Net.Program, Total, Stream, Thread;
    var out := Stream(All(net, s), s.contrib(i), i, j, s.began(i, Thread(net, i, j)));
    assert LaneOk(net, s, i, j);
    var done := |Sent(s, i, j)|;
    assert Sent(s', i, j) == Sent(s, i, j) + out[done..done + n];
    assert Sent(s, i, j) == out[..done];
    assert Sent(s', i, j) == out[..done + n];
    forall a: nat, b: nat | Peer(net, a, b)
      ensures LaneOk(net, s', a, b)
    {
      assert LaneOk(net, s, a, b);
    }
    forall a: nat | a < net.nNodes
      ensures NodeOk(net, s', a)
    {
      assert NodeOk(net, s, a);
    }
    assert forall m: nat | m < |s.packets(0)| :: PacketSent(net, s, m) && PacketSent(net, s', m);
  }

  lemma RecvInv(net: Net, s: State, s': State, i: nat, j: nat, n: nat)
    requires Inv(net, s) && i != j && Recv(net, s, s', i, j, n)
    ensures Inv(net, s')
  {
    hide Net.Program, Total, Stream, Thread;
    assert LaneOk(net, s, j, i) && Peer(net, j, i);
    assert s.inbox(i, j) + s.chan(j, i)[..n] + s.chan(j, i)[n..] == Sent(s, j, i);
    assert Sent(s', j, i) == Sent(s, j, i);
    forall a: nat, b: nat | Peer(net, a, b)
      ensures LaneOk(net, s', a, b)
    {
      assert LaneOk(net, s, a, b);
    }
    forall a: nat | a < net.nNodes
      ensures NodeOk(net, s', a)
    {
      assert NodeOk(net, s, a);
    }
    assert forall m: nat | m < |s.packets(0)| :: PacketSent(net, s, m) && PacketSent(net, s', m);
  }

  lemma BeginInv(net: Net, s: State, s': State, i: nat, t: nat, c: seq<Byte>)
    requires Inv(net, s) && Begin(net, s, s', i, t, c)
    ensures Inv(net, s')
  {
    hide Net.Program, Total, Stream, Thread;
    assert NodeOk(net, s, i);
    forall a: nat | a < net.nNodes
      ensures NodeOk(net, s', a)
    {
      assert NodeOk(net, s, a);
    }
    forall m: nat | m < |s'.packets(0)|
      ensures PacketSent(net, s', m)
    {
      assert PacketSent(net, s, m);
    }
    forall a: nat, b: nat | Peer(net, a, b)
      ensures LaneOk(net, s', a, b)
    {
      BeginLane(net, s, s', i, t, c, a, b);
    }
  }

  lemma BeginLane(net: Net, s: State, s': State, i: nat, t: nat, c: seq<Byte>, a: nat, b: nat)
    requires Inv(net, s) && Begin(net, s, s', i, t, c) && Peer(net, a, b)
    ensures LaneOk(net, s', a, b)
  {
    hide Net.Program, Total, Stream, Thread;
    var all, k := All(net, s), s.began(i, t);
    assert LaneOk(net, s, a, b) && Peer(net, b, a) && NodeOk(net, s, a) && NodeOk(net, s, i);
    var n := s.began(a, Thread(net, a, b));
    StreamExtends(all, all, s.contrib(a), s'.contrib(a), a, b, n);
    if a == i && Thread(net, a, b) == t {
      assert SentAll(net, s, a, b);
      StreamGrows(all, s'.contrib(a), a, b, k, k + 1);
    }
    if b == i && Thread(net, b, a) == t {
      assert ReadAll(net, s, b, a);
      TotalMonotone(all, a, b, k, k + 1);
    }
  }

  /** A packet makes the root's list of exchanges longer. */
  lemma RootPacketGrows(net: Net, s: State, s': State, p: Packet)
    requires Inv(net, s) && RootPacket(net, s, s', p)
    ensures All(net, s) <= All(net, s') && Ops(net, s', 0) <= All(net, s')
    ensures |s.contrib(0)| == |net.Program(s.packets(0))| < |Ops(net, s', 0)|
    ensures net.Program(s.packets(0)) + [net.PacketOp()] <= Ops(net, s', 0)
  {
    hide Net.Forward, Total, Stream, Thread;
    assert NodeOk(net, s, 0) && s.began(0, 0) == |net.Program(s.packets(0))|;
    assert s'.packets(0)[..|s.packets(0)|] == s.packets(0);
  }

  lemma RootPacketNode(net: Net, s: State, s': State, p: Packet, a: nat)
    requires Inv(net, s) && RootPacket(net, s, s', p) && a < net.nNodes
    ensures NodeOk(net, s', a)
  {
    RootPacketGrows(net, s, s', p);
    assert NodeOk(net, s, a) && NodeOk(net, s, 0);
    hide Net.Program, Net.Forward, Total, Stream, Thread, Complete;
    if a > 0 {
      assert Ops(net, s', a) == Ops(net, s, a);
    } else {
      assert forall k | 0 <= k < |s.contrib(0)| :: All(net, s)[k] == All(net, s')[k];
      assert All(net, s')[|s.contrib(0)|] == Ops(net, s', 0)[|s.contrib(0)|] == net.PacketOp();
    }
  }

  lemma RootPacketSent(net: Net, s: State, s': State, p: Packet, m: nat)
    requires Inv(net, s) && RootPacket(net, s, s', p) && m < |s'.packets(0)|
    ensures PacketSent(net, s', m)
  {
    RootPacketGrows(net, s, s', p);
    hide Net.Program, Net.Forward, Total, Stream, Thread, Complete;
    assert s'.packets(0)[..|s.packets(0)|] == s.packets(0);
    if m < |s.packets(0)| {
      assert PacketSent(net, s, m);
      assert s'.packets(0)[..m] == s.packets(0)[..m];
    }
  }

  lemma RootPacketLane(net: Net, s: State, s': State, p: Packet, a: nat, b: nat)
    requires Inv(net, s) && RootPacket(net, s, s', p) && Peer(net, a, b) && NodeOk(net, s', a)
    ensures LaneOk(net, s', a, b)
  {
    hide Net.Program, Net.Forward, Total, Stream, Thread, Complete, All, Ops, PacketSent, OnlyLastStops;
    RootPacketGrows(net, s, s', p);
    assert LaneOk(net, s, a, b) && NodeOk(net, s, a) && NodeOk(net, s, b);
    SameLane(All(net, s), All(net, s'), s.contrib(a), s'.contrib(a), a, b, s.began(a, Thread(net, a, b)),
             s.began(b, Thread(net, b, a)));
  }

  lemma RootPacketInv(net: Net, s: State, s': State, p: Packet)
    requires Inv(net, s) && RootPacket(net, s, s', p)
    ensures Inv(net, s')
  {
    hide NodeOk, PacketSent, LaneOk, Net.Program, Complete;
    forall a: nat | a < net.nNodes
      ensures NodeOk(net, s', a)
    {
      RootPacketNode(net, s, s', p, a);
    }
    forall m: nat | m < |s'.packets(0)|
      ensures PacketSent(net, s', m)
    {
      RootPacketSent(net, s, s', p, m);
    }
    forall a: nat, b: nat | Peer(net, a, b)
      ensures LaneOk(net, s', a, b)
    {
      RootPacketLane(net, s, s', p, a, b);
    }
  }

  lemma SameLane(all: seq<Op>, more: seq<Op>, cs: seq<seq<Byte>>, cs': seq<seq<Byte>>, i: nat, j: nat, b: nat, r: nat)
    requires all <= more && cs <= cs' && b <= |cs| <= |all| && |cs'| <= |more| && r <= |all|
    ensures Stream(all, cs, i, j, b) == Stream(more, cs', i, j, b)
    ensures b > 0 ==> Total(all, i, j, b - 1) == Total(more, i, j, b - 1)
    ensures r > 0 ==> Total(all, i, j, r - 1) == Total(more, i, j, r - 1)
    ensures Total(all, i, j, r) == Total(more, i, j, r)
  {
    StreamExtends(all, more, cs, cs', i, j, b);
    if b > 0 { TotalExtends(all, more, i, j, b - 1); }
    if r > 0 { TotalExtends(all, more, i, j, r - 1); }
    TotalExtends(all, more, i, j, r);
  }

  lemma ShorterProgram(net: Net, q: seq<Packet>, p: seq<Packet>)
    requires q <= p && |net.Program(q)| < |net.Program(p)|
    ensures |q| < |p|
  {
    hide Net.Program;
    assert |q| == |p| ==> q == p;
  }

  /** What a waiting worker reads next: once it has read a packet's worth of bytes past its finished
      exchanges, they are the root's next packet; until then what it has is the start of it. */
  lemma PacketAtHead(net: Net, s: State, i: nat, x: seq<Byte>)
    requires Inv(net, s) && 0 < i < net.nNodes && !Stopped(s.packets(i))
    requires s.inbox(i, 0) <= x <= Sent(s, 0, i)
    ensures var k, all, q := |net.Program(s.packets(i))|, All(net, s), |s.packets(i)|;
            var at := Total(all, 0, i, k);
            && Total(all, 0, i, k + 1) == at + net.packetBytes
            && (|x| > at ==> q < |s.packets(0)| && s.packets(i) == s.packets(0)[..q])
            && (|x| >= at + net.packetBytes ==> x[at..at + net.packetBytes] == net.encode(s.packets(0)[q]))
            && (at < |x| < at + net.packetBytes ==> x[at..] <= net.encode(s.packets(0)[q]))
  {
    hide Net.Program, Thread;
    var k, all, q := |net.Program(s.packets(i))|, All(net, s), |s.packets(i)|;
    assert NodeOk(net, s, i) && NodeOk(net, s, 0) && LaneOk(net, s, 0, i) by {
      assert Peer(net, 0, i);
    }
    assert Ops(net, s, i)[k] == net.PacketOp() && all[k] == Ops(net, s, i)[k];
    var b, cs := s.began(0, Thread(net, 0, i)), s.contrib(0);
    if |x| > Total(all, 0, i, k) {
      if b <= k {
        StreamLength(all, cs, 0, i, b);
        TotalMonotone(all, 0, i, b, k);
        assert false;
      }
      assert k < |cs| <= |net.Program(s.packets(0))|;
      ShorterProgram(net, s.packets(i), s.packets(0));
      assert s.packets(i) == s.packets(0)[..q];
      assert PacketSent(net, s, q);
      StreamAt(all, cs, 0, i, k, b, x);
    }
  }

  lemma ThreadInRange(net: Net, i: nat, j: nat)
    requires net.Valid() && i != j
    ensures Thread(net, i, j) < net.nThreads(i)
  {
    Division(Socket(i, j), net.nThreads(i));
  }

  /** A worker applies exactly the packets the root sent, in order. */
  lemma ApplyInv(net: Net, s: State, s': State, i: nat)
    requires Inv(net, s) && Apply(net, s, s', i)
    ensures Inv(net, s')
    ensures |s.packets(i)| < |s.packets(0)| && s'.packets(i) == s.packets(i) + [s.packets(0)[|s.packets(i)|]]
  {
    var q, all := |s.packets(i)|, All(net, s);
    AppliedPacket(net, s, i);
    assert s'.packets(i) == s.packets(0)[..q + 1];
    net.ProgramPrefix(s.packets(i), s'.packets(i));
    net.ProgramPrefix(s'.packets(i), s.packets(0));
    hide Net.Program, Total, Stream, Thread;
    if q + 1 == |s.packets(0)| {
      assert s'.packets(i) == s.packets(0);
    }
    forall a: nat | a < net.nNodes
      ensures NodeOk(net, s', a)
    {
      assert NodeOk(net, s, a);
    }
    forall a: nat, b: nat | Peer(net, a, b)
      ensures LaneOk(net, s', a, b)
    {
      assert LaneOk(net, s, a, b);
    }
    forall m: nat | m < |s'.packets(0)|
      ensures PacketSent(net, s', m)
    {
      assert PacketSent(net, s, m);
    }
  }

  lemma AppliedPacket(net: Net, s: State, i: nat)
    requires Inv(net, s) && 0 < i < net.nNodes && !Stopped(s.packets(i)) && |s.inbox(i, 0)| >= net.packetBytes
    requires forall t: nat | t < net.nThreads(i) :: s.began(i, t) == |net.Program(s.packets(i))| + 1 && Complete(net, s, i, t)
    ensures |s.packets(i)| < |s.packets(0)| && s.packets(i) == s.packets(0)[..|s.packets(i)|]
    ensures net.decode(s.inbox(i, 0)[|s.inbox(i, 0)| - net.packetBytes..]) == s.packets(0)[|s.packets(i)|]
  {
    ThreadInRange(net, i, 0);
    hide Net.Program, Total, Stream, Thread;
    assert Peer(net, i, 0) && Peer(net, 0, i) && LaneOk(net, s, 0, i);
    assert Complete(net, s, i, Thread(net, i, 0)) && ReadAll(net, s, i, 0);
    var x := s.inbox(i, 0);
    assert x <= Sent(s, 0, i);
    PacketAtHead(net, s, i, x);
    var at := Total(All(net, s), 0, i, |net.Program(s.packets(i))|);
    assert |x| == at + net.packetBytes && x[at..] == x[at..at + net.packetBytes];
  }

  lemma NextInv(net: Net, s: State, s': State, step: Step)
    requires Inv(net, s) && Next(net, s, s', step)
    ensures Inv(net, s')
  {
    match step
    case RootPacketStep(p) => RootPacketInv(net, s, s', p);
    case BeginStep(i, t, c) => BeginInv(net, s, s', i, t, c);
    case SendStep(i, j, n) => SendInv(net, s, s', i, j, n);
    case RecvStep(i, j, n) => RecvInv(net, s, s', i, j, n);
    case ApplyStep(i) => ApplyInv(net, s, s', i);
  }

  /** A run: any interleaving of steps from the start. */
  ghost predicate IsRun(net: Net, run: seq<State>, steps: seq<Step>) {
    && |run| == |steps| + 1 && Init(net, run[0])
    && forall k | 0 <= k < |steps| :: Next(net, run[k], run[k + 1], steps[k])
  }

  lemma {:induction false} RunInv(net: Net, run: seq<State>, steps: seq<Step>, k: nat)
    requires IsRun(net, run, steps) && k < |run|
    ensures Inv(net, run[k])
  {
    if k == 0 {
      InitInv(net, run[0]);
    } else {
      RunInv(net, run, steps, k - 1);
      NextInv(net, run[k - 1], run[k], steps[k - 1]);
    }
  }

  /** Streams never lose alignment: whenever a worker has read everything before its next packet and
      nothing of it, a packet is at the head of its root stream: the next one the root sent, or as much
      of it as is in flight, or nothing if none was sent. Applied packets are a prefix of sent ones. */
  lemma Aligned(net: Net, run: seq<State>, steps: seq<Step>, k: nat, i: nat)
    requires IsRun(net, run, steps) && k < |run| && 0 < i < net.nNodes && !Stopped(run[k].packets(i))
    requires |run[k].inbox(i, 0)| == Total(All(net, run[k]), 0, i, |net.Program(run[k].packets(i))|)
    ensures run[k].packets(i) <= run[k].packets(0)
    ensures var q, head := |run[k].packets(i)|, run[k].chan(0, i);
            && (q == |run[k].packets(0)| ==> head == [])
            && (q < |run[k].packets(0)| ==> head <= net.encode(run[k].packets(0)[q]) || net.encode(run[k].packets(0)[q]) <= head)
  {
    hide Net.Program, Total, Stream, Thread;
    var s := run[k];
    RunInv(net, run, steps, k);
    assert NodeOk(net, s, i);
    var x := Sent(s, 0, i);
    PacketAtHead(net, s, i, x);
    var at := |s.inbox(i, 0)|;
    assert x[at..] == s.chan(0, i);
    if |x| >= at + net.packetBytes {
      assert x[at..at + net.packetBytes] == s.chan(0, i)[..net.packetBytes];
    }
  }

  /** What node `i` has read from node `j` for exchange `k`. */
  function Received(net: Net, s: State, i: nat, j: nat, k: nat): seq<Byte> {
    var from, to := Total(All(net, s), j, i, k), Total(All(net, s), j, i, k + 1);
    if from <= to <= |s.inbox(i, j)| then s.inbox(i, j)[from..to] else []
  }

  /** A thread that is past exchange `k` has read the writer's contribution to it, byte for byte. */
  lemma GatheredFrom(net: Net, s: State, i: nat, j: nat, k: nat)
    requires Inv(net, s) && Peer(net, i, j) && k < |All(net, s)| && OutBytes(All(net, s)[k], j, i) > 0
    requires Past(net, s, i, Thread(net, i, j), k + 1)
    ensures k < |s.contrib(j)| && Received(net, s, i, j, k) == s.contrib(j)[k]
  {
    hide Net.Program, Thread, Stream, Total;
    var all, cs := All(net, s), s.contrib(j);
    var b := s.began(j, Thread(net, j, i));
    assert Peer(net, j, i) && LaneOk(net, s, j, i) && NodeOk(net, s, j);
    ReadEnough(net, s, i, j, k + 1);
    if b <= k {
      StreamLength(all, cs, j, i, b);
      TotalMonotone(all, j, i, b, k);
      TotalStep(all, j, i, k);
      assert false;
    }
    StreamAt(all, cs, j, i, k, b, s.inbox(i, j));
  }

  lemma TotalStep(ops: seq<Op>, i: nat, j: nat, k: nat)
    requires k < |ops|
    ensures Total(ops, i, j, k + 1) == Total(ops, i, j, k) + OutBytes(ops[k], i, j)
  {
  }

  lemma ReadEnough(net: Net, s: State, i: nat, j: nat, k: nat)
    requires Inv(net, s) && Peer(net, i, j) && Past(net, s, i, Thread(net, i, j), k)
    ensures |s.inbox(i, j)| >= Total(All(net, s), j, i, k)
  {
    hide Net.Program, Thread, Stream, Total;
    var r := s.began(i, Thread(net, i, j));
    assert Peer(net, j, i) && LaneOk(net, s, j, i) && NodeOk(net, s, i);
    if r > k {
      TotalMonotone(All(net, s), j, i, k, r - 1);
    } else {
      assert ReadAll(net, s, i, j);
    }
  }

  /** The pipe of node `i` after exchange `k`: its own slice and what it has read for the others. */
  ghost function Pipe(net: Net, s: State, i: nat, k: nat): seq<seq<Byte>>
    requires k < |s.contrib(i)|
  {
    seq(net.nNodes, j requires 0 <= j < net.nNodes => if j == i then s.contrib(i)[k] else Received(net, s, i, j, k))
  }

  ghost predicate NodePast(net: Net, s: State, i: nat, k: nat) {
    forall t: nat | t < net.nThreads(i) :: Past(net, s, i, t, k)
  }

  ghost predicate AllPast(net: Net, s: State, k: nat) {
    forall i: nat | i < net.nNodes :: NodePast(net, s, i, k)
  }

  /** All-gather: when every node has finished a SYNC_NODE_SLICES exchange, all pipes are the slices of
      all nodes in node order. */
  lemma AllGather(net: Net, run: seq<State>, steps: seq<Step>, m: nat, k: nat, i: nat)
    requires IsRun(net, run, steps) && m < |run| && i < net.nNodes
    requires k < |All(net, run[m])| && All(net, run[m])[k].kind == NodeSlices && All(net, run[m])[k].n > 0
    requires AllPast(net, run[m], k + 1)
    ensures forall j: nat | j < net.nNodes :: k < |run[m].contrib(j)|
    ensures Pipe(net, run[m], i, k) == seq(net.nNodes, j requires 0 <= j < net.nNodes => run[m].contrib(j)[k])
  {
    var s := run[m];
    RunInv(net, run, steps, m);
    forall j: nat | j < net.nNodes
      ensures k < |s.contrib(j)|
      ensures j != i ==> Received(net, s, i, j, k) == s.contrib(j)[k]
    {
      hide Net.Program, Thread, Received;
      assert NodeOk(net, s, j) && NodePast(net, s, j, k + 1) && Past(net, s, j, 0, k + 1);
      if j != i {
        ThreadInRange(net, i, j);
        assert NodePast(net, s, i, k + 1) && Peer(net, i, j);
        GatheredFrom(net, s, i, j, k);
      }
    }
  }

  /** SYNC_NODE_SLICES_EXCEPT_ROOT gathers the slices at the root. */
  lemma RootGather(net: Net, run: seq<State>, steps: seq<Step>, m: nat, k: nat)
    requires IsRun(net, run, steps) && m < |run|
    requires k < |All(net, run[m])| && All(net, run[m])[k].kind == NodeSlicesExceptRoot && All(net, run[m])[k].n > 0
    requires NodePast(net, run[m], 0, k + 1)
    ensures forall j: nat | j < net.nNodes :: k < |run[m].contrib(j)|
    ensures Pipe(net, run[m], 0, k) == seq(net.nNodes, j requires 0 <= j < net.nNodes => run[m].contrib(j)[k])
  {
    var s := run[m];
    RunInv(net, run, steps, m);
    forall j: nat | j < net.nNodes
      ensures k < |s.contrib(j)|
      ensures j != 0 ==> Received(net, s, 0, j, k) == s.contrib(j)[k]
    {
      hide Net.Program, Thread, Received;
      assert NodeOk(net, s, 0) && Past(net, s, 0, 0, k + 1);
      if j != 0 {
        ThreadInRange(net, 0, j);
        assert Peer(net, 0, j);
        GatheredFrom(net, s, 0, j, k);
      }
    }
  }

  /** SYNC_WITH_ROOT gives every worker the root's data. */
  lemma FromRoot(net: Net, run: seq<State>, steps: seq<Step>, m: nat, k: nat, i: nat)
    requires IsRun(net, run, steps) && m < |run| && 0 < i < net.nNodes
    requires k < |All(net, run[m])| && All(net, run[m])[k].kind == WithRoot && All(net, run[m])[k].n > 0
    requires NodePast(net, run[m], i, k + 1)
    ensures k < |run[m].contrib(0)| && Received(net, run[m], i, 0, k) == run[m].contrib(0)[k]
  {
    RunInv(net, run, steps, m);
    ThreadInRange(net, i, 0);
    assert Peer(net, i, 0);
    GatheredFrom(net, run[m], i, 0, k);
  }

  /** Row `r` of sync `y` of segment `g` of packet `m`, at its place among the exchanges. */
  lemma PlaceIs(net: Net, s: State, m: nat, g: nat, y: nat, r: nat)
    requires m < |s.packets(0)| && g < |net.segments| && y < |net.segments[g]| && r < s.packets(0)[m].batchSize
    ensures var k, sync := net.Place(s.packets(0), m, g, y, r), net.segments[g][y];
            && k + 1 <= net.ExchangeCount(s.packets(0)[..m + 1])
            && k < |All(net, s)| && All(net, s)[k].kind == sync.kind && All(net, s)[k].n == sync.n
  {
    net.ProgramAt(s.packets(0), m, g, y, r);
    hide Net.Program, Net.Place, Net.ExchangeCount, Net.PacketOp;
  }

  lemma PastEarlier(net: Net, s: State, i: nat, k: nat, j: nat)
    requires NodePast(net, s, i, j) && k <= j
    ensures NodePast(net, s, i, k)
  {
    hide Complete;
    forall t: nat | t < net.nThreads(i)
      ensures Past(net, s, i, t, k)
    {
      assert Past(net, s, i, t, j);
    }
  }

  /** Node `i` has finished packet `m`. */
  ghost predicate PacketDone(net: Net, s: State, i: nat, m: nat)
    requires m < |s.packets(0)|
  {
    NodePast(net, s, i, net.ExchangeCount(s.packets(0)[..m + 1]))
  }

  /** Once all nodes have finished a packet, every row of every SYNC_NODE_SLICES of its batch has been gathered
      on every node. */
  lemma BatchGathered(net: Net, run: seq<State>, steps: seq<Step>, t: nat, m: nat, g: nat, y: nat, r: nat, i: nat)
    requires IsRun(net, run, steps) && t < |run| && i < net.nNodes && m < |run[t].packets(0)|
    requires g < |net.segments| && y < |net.segments[g]| && r < run[t].packets(0)[m].batchSize
    requires net.segments[g][y].kind == NodeSlices && net.segments[g][y].n > 0
    requires forall j: nat | j < net.nNodes :: PacketDone(net, run[t], j, m)
    ensures var k := net.Place(run[t].packets(0), m, g, y, r);
            && (forall j: nat | j < net.nNodes :: k < |run[t].contrib(j)|)
            && Pipe(net, run[t], i, k) == seq(net.nNodes, j requires 0 <= j < net.nNodes => run[t].contrib(j)[k])
  {
    hide NodePast, Net.Program, Net.Place, Net.ExchangeCount;
    var k := net.Place(run[t].packets(0), m, g, y, r);
    PlaceIs(net, run[t], m, g, y, r);
    var end := k + 1;
    forall j: nat | j < net.nNodes
      ensures NodePast(net, run[t], j, end)
    {
      assert PacketDone(net, run[t], j, m);
      PastEarlier(net, run[t], j, end, net.ExchangeCount(run[t].packets(0)[..m + 1]));
    }
    AllGather(net, run, steps, t, k, i);
  }

  /** Every row of every SYNC_NODE_SLICES_EXCEPT_ROOT, once the root has finished the packet. */
  lemma BatchAtRoot(net: Net, run: seq<State>, steps: seq<Step>, t: nat, m: nat, g: nat, y: nat, r: nat)
    requires IsRun(net, run, steps) && t < |run| && m < |run[t].packets(0)|
    requires g < |net.segments| && y < |net.segments[g]| && r < run[t].packets(0)[m].batchSize
    requires net.segments[g][y].kind == NodeSlicesExceptRoot && net.segments[g][y].n > 0
    requires PacketDone(net, run[t], 0, m)
    ensures var k := net.Place(run[t].packets(0), m, g, y, r);
            && (forall j: nat | j < net.nNodes :: k < |run[t].contrib(j)|)
            && Pipe(net, run[t], 0, k) == seq(net.nNodes, j requires 0 <= j < net.nNodes => run[t].contrib(j)[k])
  {
    hide NodePast, Net.Program, Net.Place, Net.ExchangeCount;
    var k := net.Place(run[t].packets(0), m, g, y, r);
    PlaceIs(net, run[t], m, g, y, r);
    PastEarlier(net, run[t], 0, k + 1, net.ExchangeCount(run[t].packets(0)[..m + 1]));
    RootGather(net, run, steps, t, k);
  }

  /** Every row of every SYNC_WITH_ROOT, once a worker has finished the packet. */
  lemma BatchFromRoot(net: Net, run: seq<State>, steps: seq<Step>, t: nat, m: nat, g: nat, y: nat, r: nat, i: nat)
    requires IsRun(net, run, steps) && t < |run| && 0 < i < net.nNodes && m < |run[t].packets(0)|
    requires g < |net.segments| && y < |net.segments[g]| && r < run[t].packets(0)[m].batchSize
    requires net.segments[g][y].kind == WithRoot && net.segments[g][y].n > 0
    requires PacketDone(net, run[t], i, m)
    ensures var k := net.Place(run[t].packets(0), m, g, y, r);
            && k < |run[t].contrib(0)| && Received(net, run[t], i, 0, k) == run[t].contrib(0)[k]
            && |run[t].contrib(0)[k]| == net.segments[g][y].n
  {
    hide NodePast, Net.Program, Net.Place, Net.ExchangeCount, Received;
    var k := net.Place(run[t].packets(0), m, g, y, r);
    PlaceIs(net, run[t], m, g, y, r);
    PastEarlier(net, run[t], i, k + 1, net.ExchangeCount(run[t].packets(0)[..m + 1]));
    FromRoot(net, run, steps, t, k, i);
    RunInv(net, run, steps, t);
    assert NodeOk(net, run[t], 0);
  }

  /** What a thread has finished stays finished. */
  lemma PastStays(net: Net, s: State, s': State, step: Step, i: nat, t: nat, k: nat)
    requires Inv(net, s) && Next(net, s, s', step) && i < net.nNodes && Past(net, s, i, t, k)
    ensures Past(net, s', i, t, k)
  {
    if s'.began(i, t) == k {
      forall j: nat {:trigger Peer(net, i, j)} | Peer(net, i, j) && Thread(net, i, j) == t
        ensures SentAll(net, s', i, j) && ReadAll(net, s', i, j)
      {
        hide Net.Program, Thread, Stream, Total, Complete, Inv, Next;
        assert Complete(net, s, i, t);
        LaneStays(net, s, s', step, i, j);
      }
    }
  }

  lemma LaneStays(net: Net, s: State, s': State, step: Step, i: nat, j: nat)
    requires Inv(net, s) && Next(net, s, s', step) && Peer(net, i, j)
    requires s'.began(i, Thread(net, i, j)) == s.began(i, Thread(net, i, j))
    requires Complete(net, s, i, Thread(net, i, j))
    ensures SentAll(net, s', i, j) && ReadAll(net, s', i, j)
  {
    var b := s.began(i, Thread(net, i, j));
    assert SentAll(net, s, i, j) && ReadAll(net, s, i, j) && NodeOk(net, s, i);
    hide Net.Forward, Thread, Stream, Total;
    StreamLength(All(net, s), s.contrib(i), i, j, b);
    if step.RootPacketStep? {
      assert s'.packets(0)[..|s.packets(0)|] == s.packets(0);
      assert All(net, s) <= All(net, s');
      TotalExtends(All(net, s), All(net, s'), i, j, b);
      TotalExtends(All(net, s), All(net, s'), j, i, b);
    }
  }

  /** Exchange `k` is a barrier, and thread `t` of node `i` has started it. */
  ghost predicate Started(net: Net, s: State, i: nat, t: nat, t': nat, k: nat) {
    && i < net.nNodes && t < net.nThreads(i) && t' < net.nThreads(i)
    && k < |All(net, s)| && All(net, s)[k].barrier && s.began(i, t) > k
  }

  lemma BarrierNext(net: Net, s: State, s': State, step: Step, i: nat, t: nat, t': nat, k: nat)
    requires Inv(net, s) && Next(net, s, s', step) && (Started(net, s, i, t, t', k) ==> Past(net, s, i, t', k))
    ensures Started(net, s', i, t, t', k) ==> Past(net, s', i, t', k)
  {
    hide Thread, Stream, Total, Complete, Past, Net.Forward;
    if Started(net, s', i, t, t', k) {
      assert NodeOk(net, s, i);
      assert step.RootPacketStep? ==> s'.packets(0)[..|s.packets(0)|] == s.packets(0) && All(net, s) <= All(net, s');
      PastStays(net, s, s', step, i, t', k);
    }
  }

  /** At a barrier: a thread starts the first exchange of a sync step, or a packet, only when all threads of its node
      have finished everything before. */
  lemma {:induction false} Barrier(net: Net, run: seq<State>, steps: seq<Step>, m: nat, i: nat, t: nat, t': nat, k: nat)
    requires IsRun(net, run, steps) && m < |run|
    ensures Started(net, run[m], i, t, t', k) ==> Past(net, run[m], i, t', k)
  {
    if m > 0 {
      Barrier(net, run, steps, m - 1, i, t, t', k);
      RunInv(net, run, steps, m - 1);
      hide Inv, Started, Past, Next;
      BarrierNext(net, run[m - 1], run[m], steps[m - 1], i, t, t', k);
    }
  }

  /** The thread that serves a socket is the one among whose sockets the code counts it. */
  lemma ThreadServes(net: Net, i: nat, j: nat)
    requires net.Valid() && Peer(net, i, j)
    ensures var t := Thread(net, i, j);
            && t < net.nThreads(i)
            && exists k: nat :: k < SocketsPerThread(net.nNodes - 1, net.nThreads(i), t) && Socket(i, j) == t + Mul(k, net.nThreads(i))
  {
    ThreadInRange(net, i, j);
    hide Mul, Div, Rem;
    ThreadOfSocket(net.nNodes - 1, net.nThreads(i), Thread(net, i, j), Socket(i, j));
  }

  /** Whether a kind of exchange moves bytes from `i` to `j`: slices go from all to all, or to the root, everything
      else comes from the root. */
  predicate Moves(kind: Kind, i: nat, j: nat) {
    if i == 0 then kind != NodeSlicesExceptRoot else kind == NodeSlices || (kind == NodeSlicesExceptRoot && j == 0)
  }

  /** The bytes that one batch row of some segments moves from `i` to `j`. */
  function RowBytes(segs: seq<seq<Sync>>, i: nat, j: nat): nat {
    if segs == [] then 0 else RowBytes(segs[..|segs| - 1], i, j) + SegmentBytes(segs[|segs| - 1], i, j)
  }

  function SegmentBytes(syncs: seq<Sync>, i: nat, j: nat): nat {
    if syncs == [] then 0
    else SegmentBytes(syncs[..|syncs| - 1], i, j) + var y := syncs[|syncs| - 1]; if Moves(y.kind, i, j) then y.n else 0
  }

  /** The bytes that packets move from `i` to `j`: the packets themselves from the root, and every row of every batch. */
  function PacketBytes(net: Net, packets: seq<Packet>, i: nat, j: nat): nat {
    if packets == [] then 0
    else
      PacketBytes(net, packets[..|packets| - 1], i, j) + (if i == 0 then net.packetBytes else 0)
      + Mul(packets[|packets| - 1].batchSize, RowBytes(net.segments, i, j))
  }

  lemma {:induction false} TotalConcat(a: seq<Op>, b: seq<Op>, i: nat, j: nat, k: nat)
    requires k <= |b|
    ensures Total(a + b, i, j, |a| + k) == Total(a, i, j, |a|) + Total(b, i, j, k)
  {
    if k == 0 {
      TotalExtends(a, a + b, i, j, |a|);
    } else {
      TotalConcat(a, b, i, j, k - 1);
    }
  }

  lemma {:induction false} RowsTotal(net: Net, y: Sync, batchSize: nat, first: bool, i: nat, j: nat)
    requires i != j
    ensures Total(net.Rows(y, batchSize, first), i, j, batchSize) == Mul(batchSize, if Moves(y.kind, i, j) then y.n else 0)
  {
    net.RowsAre(y, batchSize, first);
    if batchSize > 0 {
      RowsTotal(net, y, batchSize - 1, first, i, j);
      net.RowsAre(y, batchSize - 1, first);
      hide Mul;
      MulNext(batchSize - 1, if Moves(y.kind, i, j) then y.n else 0);
      var last := [Op(y.kind, y.n, first && batchSize == 1)];
      TotalConcat(net.Rows(y, batchSize - 1, first), last, i, j, 1);
      OneTotal(last[0], i, j);
    } else {
      MulNext(0, if Moves(y.kind, i, j) then y.n else 0);
    }
  }

  lemma OneTotal(op: Op, i: nat, j: nat)
    requires i != j
    ensures Total([op], i, j, 1) == if Moves(op.kind, i, j) then op.n else 0
  {
    assert Total([op], i, j, 0) == 0;
  }

  lemma {:induction false} SegmentTotal(net: Net, syncs: seq<Sync>, batchSize: nat, i: nat, j: nat)
    requires i != j
    ensures Total(net.Segment(syncs, batchSize), i, j, |net.Segment(syncs, batchSize)|) == Mul(batchSize, SegmentBytes(syncs, i, j))
  {
    hide Mul, Net.Rows, Moves;
    if syncs == [] {
      MulNext(batchSize, 0);
      MulNext(0, batchSize);
    } else {
      var front, y := syncs[..|syncs| - 1], syncs[|syncs| - 1];
      SegmentTotal(net, front, batchSize, i, j);
      RowsTotal(net, y, batchSize, |syncs| == 1, i, j);
      net.RowsAre(y, batchSize, |syncs| == 1);
      TotalConcat(net.Segment(front, batchSize), net.Rows(y, batchSize, |syncs| == 1), i, j, batchSize);
      MulOfSum(batchSize, SegmentBytes(front, i, j), if Moves(y.kind, i, j) then y.n else 0);
    }
  }

  lemma MulOfSum(a: nat, b: nat, c: nat)
    ensures Mul(a, b + c) == Mul(a, b) + Mul(a, c)
  {
    MulDistributes(b, c, a);
    assert Mul(a, b + c) == Mul(b + c, a) && Mul(a, b) == Mul(b, a) && Mul(a, c) == Mul(c, a);
  }

  lemma {:induction false} ForwardTotal(net: Net, segs: seq<seq<Sync>>, batchSize: nat, i: nat, j: nat)
    requires i != j
    ensures Total(net.Forward(segs, batchSize), i, j, |net.Forward(segs, batchSize)|) == Mul(batchSize, RowBytes(segs, i, j))
  {
    hide Mul, Net.Segment, SegmentBytes;
    if segs == [] {
      MulNext(batchSize, 0);
      MulNext(0, batchSize);
    } else {
      var front, last := segs[..|segs| - 1], segs[|segs| - 1];
      ForwardTotal(net, front, batchSize, i, j);
      SegmentTotal(net, last, batchSize, i, j);
      TotalConcat(net.Forward(front, batchSize), net.Segment(last, batchSize), i, j, |net.Segment(last, batchSize)|);
      MulOfSum(batchSize, RowBytes(front, i, j), SegmentBytes(last, i, j));
    }
  }

  /** All exchanges of a list of packets move exactly these bytes. */
  lemma {:induction false} ProgramTotal(net: Net, packets: seq<Packet>, i: nat, j: nat)
    requires i != j
    ensures Total(net.Program(packets), i, j, |net.Program(packets)|) == PacketBytes(net, packets, i, j)
  {
    hide Mul, Net.Forward, RowBytes;
    if packets != [] {
      var front, p := packets[..|packets| - 1], packets[|packets| - 1];
      var a, f := net.Program(front), net.Forward(net.segments, p.batchSize);
      ProgramTotal(net, front, i, j);
      ForwardTotal(net, net.segments, p.batchSize, i, j);
      OneTotal(net.PacketOp(), i, j);
      TotalConcat(a, [net.PacketOp()], i, j, 1);
      TotalConcat(a + [net.PacketOp()], f, i, j, |f|);
    }
  }

  /** Conservation: once both ends have finished all packets, the stream from `i` to `j` has carried exactly their
      bytes, and none are in flight. */
  lemma Traffic(net: Net, run: seq<State>, steps: seq<Step>, t: nat, i: nat, j: nat)
    requires IsRun(net, run, steps) && t < |run| && Peer(net, i, j)
    requires NodePast(net, run[t], i, |net.Program(run[t].packets(0))|) && NodePast(net, run[t], j, |net.Program(run[t].packets(0))|)
    ensures run[t].chan(i, j) == [] && |run[t].inbox(j, i)| == PacketBytes(net, run[t].packets(0), i, j)
  {
    var s := run[t];
    var k, b := |net.Program(s.packets(0))|, s.began(i, Thread(net, i, j));
    RunInv(net, run, steps, t);
    ProgramTotal(net, s.packets(0), i, j);
    ThreadInRange(net, i, j);
    ThreadInRange(net, j, i);
    assert All(net, s)[k] == net.PacketOp() && |All(net, s)| == k + 1;
    TotalStep(All(net, s), i, j, k);
    hide Net.Program, Thread, Stream, Total, PacketBytes;
    assert Peer(net, j, i) && Past(net, s, j, Thread(net, j, i), k) && Past(net, s, i, Thread(net, i, j), k);
    assert NodeOk(net, s, i) && LaneOk(net, s, i, j);
    TotalExtends(net.Program(s.packets(0)), All(net, s), i, j, k);
    ReadEnough(net, s, j, i, k);
    StreamLength(All(net, s), s.contrib(i), i, j, b);
  }
}
