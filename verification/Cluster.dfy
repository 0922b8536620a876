/** The run phase of a cluster (src/nn/nn-network.cpp, src/app.cpp, src/nn/nn-executor.cpp): a root and
    its workers exchange control packets and slices over unframed byte streams. Every thread of every
    node is a process; a send or a read moves any number of bytes; interleaving is arbitrary. */
module Cluster {
  import opened Arith
  import opened Wrappers
  import C = ConfigCodec

  /** LlmControlPacket; a batch size of 0 is the stop signal. */
  datatype Packet = Packet(position: C.U32, batchSize: C.U32, slot: C.U32, cacheSaveId: C.U64, cacheLoadId: C.U64)

  /** Control is a packet from the root; the others are the sync types of a segment. */
  datatype Kind = Control | WithRoot | NodeSlices | NodeSlicesExceptRoot

  /** One exchange of `n` bytes a writer. A `barrier` op starts only when all threads of the node have
      finished all earlier ops: it is the first of a sync step, or a packet. */
  datatype Op = Op(kind: Kind, n: nat, barrier: bool)

  datatype Sync = Sync(kind: Kind, n: nat)

  /** `segments` lists the syncs of each segment with the bytes one batch row exchanges. */
  datatype Net = Net(nNodes: nat, nThreads: nat -> nat, segments: seq<seq<Sync>>, packetBytes: nat,
                     encode: Packet -> seq<Byte>, decode: seq<Byte> -> Packet) {
    ghost predicate Valid() {
      && nNodes > 0 && packetBytes > 0 && (forall i: nat :: nThreads(i) > 0)
      && forall p: Packet :: |encode(p)| == packetBytes && decode(encode(p)) == p
    }

    function PacketOp(): Op {
      Op(Control, packetBytes, true)
    }

    /** The batch rows of one sync of a segment. */
    function Rows(sync: Sync, batchSize: nat, first: bool): seq<Op> {
      if batchSize == 0 then [] else Rows(sync, batchSize - 1, first) + [Op(sync.kind, sync.n, first && batchSize == 1)]
    }

    function Segment(syncs: seq<Sync>, batchSize: nat): seq<Op> {
      if syncs == [] then [] else Segment(syncs[..|syncs| - 1], batchSize) + Rows(syncs[|syncs| - 1], batchSize, |syncs| == 1)
    }

    function Forward(segs: seq<seq<Sync>>, batchSize: nat): seq<Op> {
      if segs == [] then [] else Forward(segs[..|segs| - 1], batchSize) + Segment(segs[|segs| - 1], batchSize)
    }

    /** All exchanges that a list of packets stands for, in order. */
    function Program(packets: seq<Packet>): seq<Op> {
      if packets == [] then []
      else Program(packets[..|packets| - 1]) + [PacketOp()] + Forward(segments, packets[|packets| - 1].batchSize)
    }

    /** How many syncs the segments have, and how many exchanges a list of packets stands for: one for each
        packet itself, and one for each sync and row of its batch. */
    function SyncCount(segs: seq<seq<Sync>>): nat {
      if segs == [] then 0 else SyncCount(segs[..|segs| - 1]) + |segs[|segs| - 1]|
    }

    function ExchangeCount(packets: seq<Packet>): nat {
      if packets == [] then 0
      else ExchangeCount(packets[..|packets| - 1]) + 1 + Mul(SyncCount(segments), packets[|packets| - 1].batchSize)
    }

    /** The place of row `r` of sync `y` of segment `g` for packet `m`, counted from all that comes before: earlier
        packets, the packet itself, earlier syncs with their rows, earlier rows. */
    function Place(packets: seq<Packet>, m: nat, g: nat, y: nat, r: nat): nat
      requires m < |packets| && g <= |segments|
    {
      ExchangeCount(packets[..m]) + 1 + Mul(SyncCount(segments[..g]) + y, packets[m].batchSize) + r
    }

    lemma {:induction false} RowsAre(sync: Sync, batchSize: nat, first: bool)
      ensures var ops := Rows(sync, batchSize, first);
              && |ops| == batchSize
              && forall r: nat | r < batchSize :: ops[r] == Op(sync.kind, sync.n, first && r == 0)
    {
      if batchSize > 0 {
        RowsAre(sync, batchSize - 1, first);
      }
    }

    lemma {:induction false} SegmentLength(syncs: seq<Sync>, batchSize: nat)
      ensures |Segment(syncs, batchSize)| == Mul(|syncs|, batchSize)
    {
      hide Mul, Rows;
      if syncs == [] {
        MulNext(0, batchSize);
      } else {
        SegmentLength(syncs[..|syncs| - 1], batchSize);
        RowsAre(syncs[|syncs| - 1], batchSize, |syncs| == 1);
        MulNext(|syncs| - 1, batchSize);
      }
    }

    lemma {:induction false} SegmentAt(syncs: seq<Sync>, batchSize: nat, y: nat, r: nat)
      requires y < |syncs| && r < batchSize
      ensures var k := Mul(y, batchSize) + r;
              && k < |Segment(syncs, batchSize)|
              && Segment(syncs, batchSize)[k] == Op(syncs[y].kind, syncs[y].n, y == 0 && r == 0)
      decreases |syncs|
    {
      hide Mul, Rows;
      var front := syncs[..|syncs| - 1];
      SegmentLength(front, batchSize);
      if y < |front| {
        SegmentAt(front, batchSize, y, r);
      } else {
        RowsAre(syncs[y], batchSize, |syncs| == 1);
      }
    }

    lemma {:induction false} ForwardLength(segs: seq<seq<Sync>>, batchSize: nat)
      ensures |Forward(segs, batchSize)| == Mul(SyncCount(segs), batchSize)
    {
      hide Mul, Segment;
      if segs == [] {
        MulNext(0, batchSize);
      } else {
        var front, last := segs[..|segs| - 1], segs[|segs| - 1];
        ForwardLength(front, batchSize);
        SegmentLength(last, batchSize);
        MulDistributes(SyncCount(front), |last|, batchSize);
      }
    }

    lemma {:induction false} ForwardAt(segs: seq<seq<Sync>>, batchSize: nat, g: nat, y: nat, r: nat)
      requires g < |segs| && y < |segs[g]| && r < batchSize
      ensures var k := Mul(SyncCount(segs[..g]) + y, batchSize) + r;
              && k < |Forward(segs, batchSize)|
              && Forward(segs, batchSize)[k] == Op(segs[g][y].kind, segs[g][y].n, y == 0 && r == 0)
      decreases |segs|
    {
      hide Mul, Segment;
      var front := segs[..|segs| - 1];
      ForwardLength(front, batchSize);
      if g < |front| {
        assert front[..g] == segs[..g];
        ForwardAt(front, batchSize, g, y, r);
      } else {
        assert segs[..g] == front;
        SegmentAt(segs[g], batchSize, y, r);
        MulDistributes(SyncCount(front), y, batchSize);
      }
    }

    /** As many exchanges as counted. */
    lemma {:induction false} ProgramLength(packets: seq<Packet>)
      ensures |Program(packets)| == ExchangeCount(packets)
    {
      hide Mul, Forward;
      if packets != [] {
        ProgramLength(packets[..|packets| - 1]);
        ForwardLength(segments, packets[|packets| - 1].batchSize);
      }
    }

    /** The exchanges of packet `m`, after those of the packets before it. */
    lemma PacketAt(packets: seq<Packet>, m: nat)
      requires m < |packets|
      ensures Program(packets[..m]) + [PacketOp()] + Forward(segments, packets[m].batchSize) <= Program(packets)
      ensures ExchangeCount(packets[..m + 1]) == |Program(packets[..m + 1])| <= |Program(packets)|
      ensures ExchangeCount(packets[..m + 1]) == ExchangeCount(packets[..m]) + 1 + |Forward(segments, packets[m].batchSize)|
    {
      hide Mul, Forward, PacketOp;
      var all := packets[..m + 1];
      assert all[..m] == packets[..m] && all[m] == packets[m];
      ForwardLength(segments, packets[m].batchSize);
      ProgramLength(all);
      ProgramPrefix(all, packets);
    }

    /** At its place stands each exchange: the packet itself, and every row of every sync of every segment. */
    lemma ProgramAt(packets: seq<Packet>, m: nat, g: nat, y: nat, r: nat)
      requires m < |packets| && g < |segments| && y < |segments[g]| && r < packets[m].batchSize
      ensures var at, k, sync := ExchangeCount(packets[..m]), Place(packets, m, g, y, r), segments[g][y];
              && at < k < ExchangeCount(packets[..m + 1]) <= |Program(packets)|
              && Program(packets)[at] == Op(Control, packetBytes, true)
              && Program(packets)[k] == Op(sync.kind, sync.n, y == 0 && r == 0)
    {
      hide *;
      PacketAt(packets, m);
      ProgramLength(packets[..m]);
      ForwardAt(segments, packets[m].batchSize, g, y, r);
      var off := Offset(packets, m, g, y, r);
      var p, f := Program(packets[..m]), Forward(segments, packets[m].batchSize);
      Behind(Program(packets), p, PacketOp(), f, off);
      PacketOpIs();
    }

    /** The place behind the packet. */
    lemma Offset(packets: seq<Packet>, m: nat, g: nat, y: nat, r: nat) returns (off: nat)
      requires m < |packets| && g <= |segments|
      ensures off == Mul(SyncCount(segments[..g]) + y, packets[m].batchSize) + r
      ensures Place(packets, m, g, y, r) == ExchangeCount(packets[..m]) + 1 + off
    {
      hide Mul, SyncCount, ExchangeCount;
      off := Mul(SyncCount(segments[..g]) + y, packets[m].batchSize) + r;
    }

    lemma PacketOpIs()
      ensures PacketOp() == Op(Control, packetBytes, true)
    {
    }

    static lemma Behind(all: seq<Op>, p: seq<Op>, op: Op, f: seq<Op>, k: nat)
      requires p + [op] + f <= all && k < |f|
      ensures |p| + 1 + k < |all| && all[|p|] == op && all[|p| + 1 + k] == f[k]
    {
      var front := p + [op] + f;
      assert all[..|front|] == front && front[|p|] == op && front[|p| + 1 + k] == f[k];
    }

    lemma {:induction false} ProgramPrefix(q: seq<Packet>, p: seq<Packet>)
      requires q <= p
      ensures Program(q) <= Program(p)
      ensures |q| < |p| ==> Program(q) + [PacketOp()] <= Program(p)
      decreases |p|
    {
      if |q| < |p| {
        var p' := p[..|p| - 1];
        ProgramPrefix(q, p');
        if |q| == |p'| {
          assert q == p';
        }
      } else {
        assert q == p;
      }
    }
  }

  /** A packet as it is sent: its fields, low byte first. */
  function EncodePacket(p: Packet): (b: seq<Byte>)
    ensures |b| == 28
  {
    C.Low(p.position, 4) + C.Low(p.batchSize, 4) + C.Low(p.slot, 4) + C.Low(p.cacheSaveId, 8) + C.Low(p.cacheLoadId, 8)
  }

  function DecodePacket(b: seq<Byte>): Packet {
    if |b| == 28 && C.Number(b[..4]) < 0x1_0000_0000 && C.Number(b[4..8]) < 0x1_0000_0000 && C.Number(b[8..12]) < 0x1_0000_0000
       && C.Number(b[12..20]) < 0x1_0000_0000_0000_0000 && C.Number(b[20..]) < 0x1_0000_0000_0000_0000
    then Packet(C.Number(b[..4]), C.Number(b[4..8]), C.Number(b[8..12]), C.Number(b[12..20]), C.Number(b[20..]))
    else Packet(0, 0, 0, 0, 0)
  }

  lemma PacketRoundTrip(p: Packet)
    ensures DecodePacket(EncodePacket(p)) == p
  {
    C.NumberOfLow(p.position, 4);
    C.NumberOfLow(p.batchSize, 4);
    C.NumberOfLow(p.slot, 4);
    C.NumberOfLow(p.cacheSaveId, 8);
    C.NumberOfLow(p.cacheLoadId, 8);
    C.Powers();
    hide C.Low, C.Number;
    Fields(C.Low(p.position, 4), C.Low(p.batchSize, 4), C.Low(p.slot, 4), C.Low(p.cacheSaveId, 8), C.Low(p.cacheLoadId, 8));
  }

  lemma Fields(a: seq<Byte>, b: seq<Byte>, c: seq<Byte>, d: seq<Byte>, e: seq<Byte>)
    requires |a| == |b| == |c| == 4 && |d| == |e| == 8
    ensures var s := a + b + c + d + e; s[..4] == a && s[4..8] == b && s[8..12] == c && s[12..20] == d && s[20..] == e
  {
  }

  /** There are such nets: any segments over any nodes, with packets sent field by field. */
  lemma SomeNet(nNodes: nat, nThreads: nat -> nat, segments: seq<seq<Sync>>)
    requires nNodes > 0 && forall i: nat :: nThreads(i) > 0
    ensures Net(nNodes, nThreads, segments, 28, EncodePacket, DecodePacket).Valid()
  {
    forall p: Packet
      ensures |EncodePacket(p)| == 28 && DecodePacket(EncodePacket(p)) == p
    {
      PacketRoundTrip(p);
    }
  }

  /** The socket of node `i` that leads to node `j`, and the slice index the code computes for a socket. */
  function Socket(i: nat, j: nat): nat
    requires i != j
  {
    if j < i then j else j - 1
  }

  function SliceIndex(i: nat, socketIndex: nat): nat {
    if socketIndex >= i then socketIndex + 1 else socketIndex
  }

  /** The sockets of a node lead to the slices of exactly the other nodes, one each. */
  lemma SocketsAreOtherNodes(nNodes: nat, i: nat)
    requires i < nNodes
    ensures forall s: nat | s < nNodes - 1 :: SliceIndex(i, s) < nNodes && SliceIndex(i, s) != i && Socket(i, SliceIndex(i, s)) == s
    ensures forall j: nat | j < nNodes && j != i :: Socket(i, j) < nNodes - 1 && SliceIndex(i, Socket(i, j)) == j
  {
  }

  /** How many sockets a thread serves; its `k`-th one is `threadIndex + k * nThreads`. */
  function SocketsPerThread(nSockets: nat, nThreads: nat, threadIndex: nat): nat
    requires nThreads > 0
  {
    Div(nSockets, nThreads) + if Rem(nSockets, nThreads) > threadIndex then 1 else 0
  }

  /** Those are the sockets with index `threadIndex` modulo the threads: every socket has one thread. */
  lemma ThreadOfSocket(nSockets: nat, nThreads: nat, threadIndex: nat, s: nat)
    requires threadIndex < nThreads
    ensures s < nSockets && Rem(s, nThreads) == threadIndex
       <==> exists k: nat :: k < SocketsPerThread(nSockets, nThreads, threadIndex) && s == threadIndex + Mul(k, nThreads)
  {
    hide Mul, Div, Rem;
    var q, a := Div(s, nThreads), Div(nSockets, nThreads);
    Division(s, nThreads);
    Division(nSockets, nThreads);
    if s < nSockets && Rem(s, nThreads) == threadIndex {
      if q > a {
        MulMonotone(a + 1, q, nThreads);
        MulNext(a, nThreads);
      }
    }
    if k: nat :| k < SocketsPerThread(nSockets, nThreads, threadIndex) && s == threadIndex + Mul(k, nThreads) {
      Quotient(s, k, nThreads);
      if k < a {
        MulMonotone(k + 1, a, nThreads);
        MulNext(k, nThreads);
      }
    }
  }
}
