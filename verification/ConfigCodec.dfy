/** The configuration streams of src/nn/nn-network.cpp: what the root writes to a worker before it
    starts, and what the worker reads. Numbers are in the machine's byte order, low byte first. */
module ConfigCodec {
  import opened Wrappers
  import Arith

  type U32 = x: int | 0 <= x < 0x1_0000_0000

  type U64 = x: int | 0 <= x < 0x1_0000_0000_0000_0000

  type Bytes = seq<Byte>

  const ACK: U32 := 23571114

  datatype Size2D = Size2D(floatType: U32, y: U32, x: U32, length: U64, nBytes: U64)

  datatype Named = Named(size: Size2D, name: Bytes)

  datatype Pointer = Pointer(source: U32, index: U32, kind: U32)

  datatype Pair = Pair(first: U32, second: U32)

  datatype OpConfig = OpConfig(code: U32, index: U32, weightSize: Size2D, name: Bytes, input: Pointer, output: Pointer, config: Bytes)

  datatype Segment = Segment(syncs: seq<Pair>, ops: seq<OpConfig>, cacheSyncs: seq<Pair>)

  datatype NetConfig = NetConfig(nBatches: U32, nNodes: U32, nSlots: U32, pipes: seq<Named>, preSyncs: seq<U32>)

  datatype NodeConfig = NodeConfig(nodeIndex: U32, buffers: seq<Named>, segments: seq<Segment>)

  /** Lists have 32-bit counts; names are C strings. */
  predicate Count<T>(s: seq<T>) {
    |s| < 0x1_0000_0000
  }

  predicate CString(s: Bytes) {
    |s| + 1 < 0x1_0000_0000 && forall i | 0 <= i < |s| :: s[i] != 0
  }

  predicate OpFits(op: OpConfig) {
    CString(op.name) && Count(op.config)
  }

  predicate SegmentFits(s: Segment) {
    Count(s.syncs) && Count(s.ops) && Count(s.cacheSyncs) && forall i | 0 <= i < |s.ops| :: OpFits(s.ops[i])
  }

  predicate NamesFit(ns: seq<Named>) {
    Count(ns) && forall i | 0 <= i < |ns| :: CString(ns[i].name)
  }

  predicate NetFits(c: NetConfig) {
    NamesFit(c.pipes) && Count(c.preSyncs)
  }

  predicate NodeFits(c: NodeConfig) {
    NamesFit(c.buffers) && Count(c.segments) && forall i | 0 <= i < |c.segments| :: SegmentFits(c.segments[i])
  }

  /** Any short lists and names can be sent, such as one of each. */
  lemma SomeConfigs(size: Size2D, name: Bytes, sync: Pair, op: OpConfig, x: U32)
    requires |name| < 0xffff_ffff && |op.name| < 0xffff_ffff && |op.config| <= 0xffff_ffff
    requires (forall i | 0 <= i < |name| :: name[i] != 0) && (forall i | 0 <= i < |op.name| :: op.name[i] != 0)
    ensures NetFits(NetConfig(x, x, x, [Named(size, name)], [x]))
    ensures NodeFits(NodeConfig(x, [Named(size, name)], [Segment([sync], [op], [sync])]))
  {
    assert CString(name) && OpFits(op);
    assert SegmentFits(Segment([sync], [op], [sync]));
  }

  function Low(x: nat, n: nat): (b: Bytes)
    ensures |b| == n
  {
    if n == 0 then [] else [x % 256] + Low(x / 256, n - 1)
  }

  function Number(b: Bytes): nat {
    if b == [] then 0 else b[0] + 256 * Number(b[1..])
  }

  function Power(n: nat): (p: nat)
    ensures p > 0
  {
    if n == 0 then 1 else 256 * Power(n - 1)
  }

  /** Numbers are little-endian: byte `i` is the digit of 256 to the `i`. */
  lemma {:induction false} LowAt(x: nat, n: nat, i: nat)
    requires i < n
    ensures Low(x, n)[i] == x / Power(i) % 256
  {
    if i > 0 {
      LowAt(x / 256, n - 1, i - 1);
      Digits(x, Power(i - 1));
    }
  }

  lemma Digits(x: nat, p: nat)
    requires p > 0
    ensures x / (256 * p) == x / 256 / p
  {
    var y := x / 256;
    var q := y / p;
    assert y == p * q + y % p && x == 256 * y + x % 256;
    assert 256 * (p * q) == q * (256 * p);
    assert Arith.Mul(q, 256 * p) <= x < Arith.Mul(q, 256 * p) + 256 * p;
    Arith.Quotient(x, q, 256 * p);
    assert Arith.Div(x, 256 * p) == x / (256 * p);
  }

  lemma {:induction false} NumberOfLow(x: nat, n: nat)
    requires x < Power(n)
    ensures Number(Low(x, n)) == x
  {
    if n > 0 {
      NumberOfLow(x / 256, n - 1);
      assert Low(x, n)[1..] == Low(x / 256, n - 1);
    }
  }

  lemma Powers()
    ensures Power(4) == 0x1_0000_0000 && Power(8) == 0x1_0000_0000_0000_0000
  {
    assert Power(4) == 0x1_0000_0000;
  }

  /** Every encoder takes what follows on the stream. */
  function Enc32(x: U32, rest: Bytes): Bytes {
    Low(x, 4) + rest
  }

  function Enc64(x: U64, rest: Bytes): Bytes {
    Low(x, 8) + rest
  }

  /** The struct as it lies in memory, with four bytes of padding. */
  function EncSize(s: Size2D, rest: Bytes): Bytes {
    Enc32(s.floatType, Enc32(s.y, Enc32(s.x, Enc32(0, Enc64(s.length, Enc64(s.nBytes, rest))))))
  }

  function EncString(s: Bytes, rest: Bytes): Bytes
    requires CString(s)
  {
    Enc32(|s| + 1, (s + [0]) + rest)
  }

  function EncPointer(p: Pointer, rest: Bytes): Bytes {
    Enc32(p.source, Enc32(p.index, Enc32(p.kind, rest)))
  }

  function EncOp(op: OpConfig, rest: Bytes): Bytes
    requires OpFits(op)
  {
    Enc32(op.code, Enc32(op.index, EncSize(op.weightSize, Enc32(|op.config|, EncString(op.name,
      EncPointer(op.input, EncPointer(op.output, op.config + rest)))))))
  }

  function EncNameds(ns: seq<Named>, i: nat, rest: Bytes): Bytes
    requires NamesFit(ns) && i <= |ns|
    decreases |ns| - i
  {
    if i == |ns| then rest else EncSize(ns[i].size, EncString(ns[i].name, EncNameds(ns, i + 1, rest)))
  }

  function EncNumbers(xs: seq<U32>, i: nat, rest: Bytes): Bytes
    requires i <= |xs|
    decreases |xs| - i
  {
    if i == |xs| then rest else Enc32(xs[i], EncNumbers(xs, i + 1, rest))
  }

  function EncPairs(ps: seq<Pair>, i: nat, rest: Bytes): Bytes
    requires i <= |ps|
    decreases |ps| - i
  {
    if i == |ps| then rest else Enc32(ps[i].first, Enc32(ps[i].second, EncPairs(ps, i + 1, rest)))
  }

  function EncOps(ops: seq<OpConfig>, i: nat, rest: Bytes): Bytes
    requires i <= |ops| && forall k | 0 <= k < |ops| :: OpFits(ops[k])
    decreases |ops| - i
  {
    if i == |ops| then rest else EncOp(ops[i], EncOps(ops, i + 1, rest))
  }

  function EncSegment(s: Segment, rest: Bytes): Bytes
    requires SegmentFits(s)
  {
    Enc32(|s.syncs|, Enc32(|s.ops|, Enc32(|s.cacheSyncs|, EncPairs(s.syncs, 0, EncOps(s.ops, 0, EncPairs(s.cacheSyncs, 0, rest))))))
  }

  function EncSegments(ss: seq<Segment>, i: nat, rest: Bytes): Bytes
    requires i <= |ss| && forall k | 0 <= k < |ss| :: SegmentFits(ss[k])
    decreases |ss| - i
  {
    if i == |ss| then rest else EncSegment(ss[i], EncSegments(ss, i + 1, rest))
  }

  function EncNet(c: NetConfig, rest: Bytes): Bytes
    requires NetFits(c)
  {
    Enc32(ACK, Enc32(c.nBatches, Enc32(c.nNodes, Enc32(|c.pipes|, Enc32(c.nSlots,
      EncNameds(c.pipes, 0, Enc32(|c.preSyncs|, EncNumbers(c.preSyncs, 0, rest))))))))
  }

  function EncNode(c: NodeConfig, rest: Bytes): Bytes
    requires NodeFits(c)
  {
    Enc32(ACK, Enc32(c.nodeIndex, Enc32(|c.buffers|, Enc32(|c.segments|, EncNameds(c.buffers, 0, EncSegments(c.segments, 0, rest))))))
  }

  /** One direction of a socket: the writer appends, the reader takes from the front. A writer's ghost
      argument is what will follow; a reader's are what was written and what follows. */
  class Channel {
    var bytes: Bytes

    constructor ()
      ensures bytes == []
    {
      bytes := [];
    }

    method Write(b: Bytes, ghost rest: Bytes)
      modifies this
      ensures bytes + rest == old(bytes) + (b + rest)
    {
      bytes := bytes + b;
    }

    /** A blocking read. */
    method Read(n: nat, ghost b: Bytes, ghost rest: Bytes) returns (r: Bytes)
      requires bytes == b + rest && |b| == n
      modifies this
      ensures r == b && bytes == rest
    {
      r := bytes[..n];
      bytes := bytes[n..];
    }

    method Write32(x: U32, ghost rest: Bytes)
      modifies this
      ensures bytes + rest == old(bytes) + Enc32(x, rest)
    {
      Write(Low(x, 4), rest);
    }

    method Read32(ghost x: U32, ghost rest: Bytes) returns (r: U32)
      requires bytes == Enc32(x, rest)
      modifies this
      ensures r == x && bytes == rest
    {
      Powers();
      NumberOfLow(x, 4);
      var b := Read(4, Low(x, 4), rest);
      r := Number(b);
    }

    method Write64(x: U64, ghost rest: Bytes)
      modifies this
      ensures bytes + rest == old(bytes) + Enc64(x, rest)
    {
      Write(Low(x, 8), rest);
    }

    method Read64(ghost x: U64, ghost rest: Bytes) returns (r: U64)
      requires bytes == Enc64(x, rest)
      modifies this
      ensures r == x && bytes == rest
    {
      Powers();
      NumberOfLow(x, 8);
      var b := Read(8, Low(x, 8), rest);
      r := Number(b);
    }

    method WriteSize(s: Size2D, ghost rest: Bytes)
      modifies this
      ensures bytes + rest == old(bytes) + EncSize(s, rest)
    {
      hide Enc32, Enc64;
      Write32(s.floatType, Enc32(s.y, Enc32(s.x, Enc32(0, Enc64(s.length, Enc64(s.nBytes, rest))))));
      Write32(s.y, Enc32(s.x, Enc32(0, Enc64(s.length, Enc64(s.nBytes, rest)))));
      Write32(s.x, Enc32(0, Enc64(s.length, Enc64(s.nBytes, rest))));
      Write32(0, Enc64(s.length, Enc64(s.nBytes, rest)));
      Write64(s.length, Enc64(s.nBytes, rest));
      Write64(s.nBytes, rest);
    }

    method ReadSize(ghost s: Size2D, ghost rest: Bytes) returns (r: Size2D)
      requires bytes == EncSize(s, rest)
      modifies this
      ensures r == s && bytes == rest
    {
      hide Enc32, Enc64;
      var floatType := Read32(s.floatType, Enc32(s.y, Enc32(s.x, Enc32(0, Enc64(s.length, Enc64(s.nBytes, rest))))));
      var y := Read32(s.y, Enc32(s.x, Enc32(0, Enc64(s.length, Enc64(s.nBytes, rest)))));
      var x := Read32(s.x, Enc32(0, Enc64(s.length, Enc64(s.nBytes, rest))));
      var padding := Read32(0, Enc64(s.length, Enc64(s.nBytes, rest)));
      var length := Read64(s.length, Enc64(s.nBytes, rest));
      var nBytes := Read64(s.nBytes, rest);
      r := Size2D(floatType, y, x, length, nBytes);
    }

    method WriteString(s: Bytes, ghost rest: Bytes)
      requires CString(s)
      modifies this
      ensures bytes + rest == old(bytes) + EncString(s, rest)
    {
      hide Enc32;
      Write32(|s| + 1, (s + [0]) + rest);
      Write(s + [0], rest);
    }

    /** The string is what precedes the terminating zero. */
    method ReadString(ghost s: Bytes, ghost rest: Bytes) returns (r: Bytes)
      requires CString(s) && bytes == EncString(s, rest)
      modifies this
      ensures r == s && bytes == rest
    {
      hide Enc32;
      var n := Read32(|s| + 1, (s + [0]) + rest);
      var b := Read(n, s + [0], rest);
      var i := 0;
      while b[i] != 0
        invariant i <= |s|
        decreases |b| - i
      {
        i := i + 1;
      }
      assert i == |s|;
      r := b[..i];
    }

    method WritePointer(p: Pointer, ghost rest: Bytes)
      modifies this
      ensures bytes + rest == old(bytes) + EncPointer(p, rest)
    {
      hide Enc32;
      Write32(p.source, Enc32(p.index, Enc32(p.kind, rest)));
      Write32(p.index, Enc32(p.kind, rest));
      Write32(p.kind, rest);
    }

    method ReadPointer(ghost p: Pointer, ghost rest: Bytes) returns (r: Pointer)
      requires bytes == EncPointer(p, rest)
      modifies this
      ensures r == p && bytes == rest
    {
      hide Enc32;
      var source := Read32(p.source, Enc32(p.index, Enc32(p.kind, rest)));
      var index := Read32(p.index, Enc32(p.kind, rest));
      var kind := Read32(p.kind, rest);
      r := Pointer(source, index, kind);
    }

    method WriteOp(op: OpConfig, ghost rest: Bytes)
      requires OpFits(op)
      modifies this
      ensures bytes + rest == old(bytes) + EncOp(op, rest)
    {
      hide Enc32, EncSize, EncString, EncPointer;
      ghost var r5 := EncPointer(op.output, op.config + rest);
      ghost var r4 := EncPointer(op.input, r5);
      ghost var r3 := EncString(op.name, r4);
      ghost var r2 := Enc32(|op.config|, r3);
      ghost var r1 := EncSize(op.weightSize, r2);
      Write32(op.code, Enc32(op.index, r1));
      Write32(op.index, r1);
      WriteSize(op.weightSize, r2);
      Write32(|op.config|, r3);
      WriteString(op.name, r4);
      WritePointer(op.input, r5);
      WritePointer(op.output, op.config + rest);
      if |op.config| > 0 {
        Write(op.config, rest);
      }
    }

    method ReadOp(ghost op: OpConfig, ghost rest: Bytes) returns (r: OpConfig)
      requires OpFits(op) && bytes == EncOp(op, rest)
      modifies this
      ensures r == op && bytes == rest
    {
      hide Enc32, EncSize, EncString, EncPointer;
      ghost var r5 := EncPointer(op.output, op.config + rest);
      ghost var r4 := EncPointer(op.input, r5);
      ghost var r3 := EncString(op.name, r4);
      ghost var r2 := Enc32(|op.config|, r3);
      ghost var r1 := EncSize(op.weightSize, r2);
      var code := Read32(op.code, Enc32(op.index, r1));
      var index := Read32(op.index, r1);
      var weightSize := ReadSize(op.weightSize, r2);
      var configSize := Read32(|op.config|, r3);
      var name := ReadString(op.name, r4);
      var input := ReadPointer(op.input, r5);
      var output := ReadPointer(op.output, op.config + rest);
      var config: Bytes := [];
      if configSize > 0 {
        config := Read(configSize, op.config, rest);
      }
      r := OpConfig(code, index, weightSize, name, input, output, config);
    }

    method WriteNameds(ns: seq<Named>, ghost rest: Bytes)
      requires NamesFit(ns)
      modifies this
      ensures bytes + rest == old(bytes) + EncNameds(ns, 0, rest)
    {
      hide EncSize, EncString;
      for i := 0 to |ns|
        invariant bytes + EncNameds(ns, i, rest) == old(bytes) + EncNameds(ns, 0, rest)
      {
        WriteSize(ns[i].size, EncString(ns[i].name, EncNameds(ns, i + 1, rest)));
        WriteString(ns[i].name, EncNameds(ns, i + 1, rest));
      }
    }

    method ReadNameds(n: nat, ghost ns: seq<Named>, ghost rest: Bytes) returns (r: seq<Named>)
      requires NamesFit(ns) && n == |ns| && bytes == EncNameds(ns, 0, rest)
      modifies this
      ensures r == ns && bytes == rest
    {
      hide EncSize, EncString;
      r := [];
      for i := 0 to n
        invariant bytes == EncNameds(ns, i, rest) && r == ns[..i]
      {
        var size := ReadSize(ns[i].size, EncString(ns[i].name, EncNameds(ns, i + 1, rest)));
        var name := ReadString(ns[i].name, EncNameds(ns, i + 1, rest));
        r := r + [Named(size, name)];
      }
    }

    method WriteNumbers(xs: seq<U32>, ghost rest: Bytes)
      modifies this
      ensures bytes + rest == old(bytes) + EncNumbers(xs, 0, rest)
    {
      hide Enc32;
      for i := 0 to |xs|
        invariant bytes + EncNumbers(xs, i, rest) == old(bytes) + EncNumbers(xs, 0, rest)
      {
        Write32(xs[i], EncNumbers(xs, i + 1, rest));
      }
    }

    method ReadNumbers(n: nat, ghost xs: seq<U32>, ghost rest: Bytes) returns (r: seq<U32>)
      requires n == |xs| && bytes == EncNumbers(xs, 0, rest)
      modifies this
      ensures r == xs && bytes == rest
    {
      hide Enc32;
      r := [];
      for i := 0 to n
        invariant bytes == EncNumbers(xs, i, rest) && r == xs[..i]
      {
        var x := Read32(xs[i], EncNumbers(xs, i + 1, rest));
        r := r + [x];
      }
    }

    method WritePairs(ps: seq<Pair>, ghost rest: Bytes)
      modifies this
      ensures bytes + rest == old(bytes) + EncPairs(ps, 0, rest)
    {
      hide Enc32;
      for i := 0 to |ps|
        invariant bytes + EncPairs(ps, i, rest) == old(bytes) + EncPairs(ps, 0, rest)
      {
        Write32(ps[i].first, Enc32(ps[i].second, EncPairs(ps, i + 1, rest)));
        Write32(ps[i].second, EncPairs(ps, i + 1, rest));
      }
    }

    method ReadPairs(n: nat, ghost ps: seq<Pair>, ghost rest: Bytes) returns (r: seq<Pair>)
      requires n == |ps| && bytes == EncPairs(ps, 0, rest)
      modifies this
      ensures r == ps && bytes == rest
    {
      hide Enc32;
      r := [];
      for i := 0 to n
        invariant bytes == EncPairs(ps, i, rest) && r == ps[..i]
      {
        var first := Read32(ps[i].first, Enc32(ps[i].second, EncPairs(ps, i + 1, rest)));
        var second := Read32(ps[i].second, EncPairs(ps, i + 1, rest));
        r := r + [Pair(first, second)];
      }
    }

    method WriteSegment(s: Segment, ghost rest: Bytes)
      requires SegmentFits(s)
      modifies this
      ensures bytes + rest == old(bytes) + EncSegment(s, rest)
    {
      hide Enc32, EncOp, EncPairs;
      ghost var r4 := EncPairs(s.cacheSyncs, 0, rest);
      ghost var r3 := EncOps(s.ops, 0, r4);
      ghost var r2 := EncPairs(s.syncs, 0, r3);
      Write32(|s.syncs|, Enc32(|s.ops|, Enc32(|s.cacheSyncs|, r2)));
      Write32(|s.ops|, Enc32(|s.cacheSyncs|, r2));
      Write32(|s.cacheSyncs|, r2);
      WritePairs(s.syncs, r3);
      for i := 0 to |s.ops|
        invariant bytes + EncOps(s.ops, i, r4) == old(bytes) + EncSegment(s, rest)
      {
        WriteOp(s.ops[i], EncOps(s.ops, i + 1, r4));
      }
      WritePairs(s.cacheSyncs, rest);
    }

    method ReadSegment(ghost s: Segment, ghost rest: Bytes) returns (r: Segment)
      requires SegmentFits(s) && bytes == EncSegment(s, rest)
      modifies this
      ensures r == s && bytes == rest
    {
      hide Enc32, EncOp, EncPairs;
      ghost var r4 := EncPairs(s.cacheSyncs, 0, rest);
      ghost var r3 := EncOps(s.ops, 0, r4);
      ghost var r2 := EncPairs(s.syncs, 0, r3);
      var nSyncs := Read32(|s.syncs|, Enc32(|s.ops|, Enc32(|s.cacheSyncs|, r2)));
      var nOps := Read32(|s.ops|, Enc32(|s.cacheSyncs|, r2));
      var nCacheSyncs := Read32(|s.cacheSyncs|, r2);
      var syncs := ReadPairs(nSyncs, s.syncs, r3);
      var ops: seq<OpConfig> := [];
      for i := 0 to nOps
        invariant bytes == EncOps(s.ops, i, r4) && ops == s.ops[..i]
      {
        var op := ReadOp(s.ops[i], EncOps(s.ops, i + 1, r4));
        ops := ops + [op];
      }
      var cacheSyncs := ReadPairs(nCacheSyncs, s.cacheSyncs, rest);
      r := Segment(syncs, ops, cacheSyncs);
    }

    method WriteNet(c: NetConfig, ghost rest: Bytes)
      requires NetFits(c)
      modifies this
      ensures bytes + rest == old(bytes) + EncNet(c, rest)
    {
      hide Enc32, EncNameds, EncNumbers;
      ghost var r2 := EncNumbers(c.preSyncs, 0, rest);
      ghost var r1 := EncNameds(c.pipes, 0, Enc32(|c.preSyncs|, r2));
      Write32(ACK, Enc32(c.nBatches, Enc32(c.nNodes, Enc32(|c.pipes|, Enc32(c.nSlots, r1)))));
      Write32(c.nBatches, Enc32(c.nNodes, Enc32(|c.pipes|, Enc32(c.nSlots, r1))));
      Write32(c.nNodes, Enc32(|c.pipes|, Enc32(c.nSlots, r1)));
      Write32(|c.pipes|, Enc32(c.nSlots, r1));
      Write32(c.nSlots, r1);
      WriteNameds(c.pipes, Enc32(|c.preSyncs|, r2));
      Write32(|c.preSyncs|, r2);
      WriteNumbers(c.preSyncs, rest);
    }

    /** None is the exception for a wrong acknowledgement. */
    method ReadNet(ghost c: NetConfig, ghost rest: Bytes) returns (r: Option<NetConfig>)
      requires NetFits(c) && bytes == EncNet(c, rest)
      modifies this
      ensures r == Some(c) && bytes == rest
    {
      hide Enc32, EncNameds, EncNumbers;
      ghost var r2 := EncNumbers(c.preSyncs, 0, rest);
      ghost var r1 := EncNameds(c.pipes, 0, Enc32(|c.preSyncs|, r2));
      var ack := Read32(ACK, Enc32(c.nBatches, Enc32(c.nNodes, Enc32(|c.pipes|, Enc32(c.nSlots, r1)))));
      if ack != ACK {
        return None;
      }
      var nBatches := Read32(c.nBatches, Enc32(c.nNodes, Enc32(|c.pipes|, Enc32(c.nSlots, r1))));
      var nNodes := Read32(c.nNodes, Enc32(|c.pipes|, Enc32(c.nSlots, r1)));
      var nPipes := Read32(|c.pipes|, Enc32(c.nSlots, r1));
      var nSlots := Read32(c.nSlots, r1);
      var pipes := ReadNameds(nPipes, c.pipes, Enc32(|c.preSyncs|, r2));
      var nPreSyncs := Read32(|c.preSyncs|, r2);
      var preSyncs := ReadNumbers(nPreSyncs, c.preSyncs, rest);
      return Some(NetConfig(nBatches, nNodes, nSlots, pipes, preSyncs));
    }

    method WriteNode(c: NodeConfig, ghost rest: Bytes)
      requires NodeFits(c)
      modifies this
      ensures bytes + rest == old(bytes) + EncNode(c, rest)
    {
      hide Enc32, EncNameds, EncSegment;
      ghost var r2 := EncSegments(c.segments, 0, rest);
      ghost var r1 := EncNameds(c.buffers, 0, r2);
      Write32(ACK, Enc32(c.nodeIndex, Enc32(|c.buffers|, Enc32(|c.segments|, r1))));
      Write32(c.nodeIndex, Enc32(|c.buffers|, Enc32(|c.segments|, r1)));
      Write32(|c.buffers|, Enc32(|c.segments|, r1));
      Write32(|c.segments|, r1);
      WriteNameds(c.buffers, r2);
      for i := 0 to |c.segments|
        invariant bytes + EncSegments(c.segments, i, rest) == old(bytes) + EncNode(c, rest)
      {
        WriteSegment(c.segments[i], EncSegments(c.segments, i + 1, rest));
      }
    }

    method ReadNode(ghost c: NodeConfig, ghost rest: Bytes) returns (r: Option<NodeConfig>)
      requires NodeFits(c) && bytes == EncNode(c, rest)
      modifies this
      ensures r == Some(c) && bytes == rest
    {
      hide Enc32, EncNameds, EncSegment;
      ghost var r2 := EncSegments(c.segments, 0, rest);
      ghost var r1 := EncNameds(c.buffers, 0, r2);
      var ack := Read32(ACK, Enc32(c.nodeIndex, Enc32(|c.buffers|, Enc32(|c.segments|, r1))));
      if ack != ACK {
        return None;
      }
      var nodeIndex := Read32(c.nodeIndex, Enc32(|c.buffers|, Enc32(|c.segments|, r1)));
      var nBuffers := Read32(|c.buffers|, Enc32(|c.segments|, r1));
      var nSegments := Read32(|c.segments|, r1);
      var buffers := ReadNameds(nBuffers, c.buffers, r2);
      var segments: seq<Segment> := [];
      for i := 0 to nSegments
        invariant bytes == EncSegments(c.segments, i, rest) && segments == c.segments[..i]
      {
        var segment := ReadSegment(c.segments[i], EncSegments(c.segments, i + 1, rest));
        segments := segments + [segment];
      }
      assert segments == c.segments;
      return Some(NodeConfig(nodeIndex, buffers, segments));
    }
  }

  /** A worker's configuration: what the root writes for it is what the worker reads, and nothing is
      left on the stream. */
  method Configure(net: NetConfig, node: NodeConfig)
    returns (net': Option<NetConfig>, node': Option<NodeConfig>, channel: Channel)
    requires NetFits(net) && NodeFits(node)
    ensures net' == Some(net) && node' == Some(node)
    ensures fresh(channel) && channel.bytes == []
  {
    channel := new Channel();
    channel.WriteNet(net, EncNode(node, []));
    channel.WriteNode(node, []);
    assert channel.bytes + [] == channel.bytes && [] + EncNet(net, EncNode(node, [])) == EncNet(net, EncNode(node, []));
    net' := channel.ReadNet(net, EncNode(node, []));
    node' := channel.ReadNode(node, []);
  }
}
