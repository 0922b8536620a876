/** The weight streams of src/nn/nn-network.cpp: the root splits every weight and writes each worker its
    slices by name; a worker reads until the end mark and loads what it is sent. */
module WeightStream {
  import opened Wrappers
  import opened Arith
  import opened Vectors
  import opened Matrix
  import opened ConfigCodec
  import WeightSplit

  /** A loaded weight: op name, op index, content. */
  datatype Record = Record(name: Bytes, index: U32, weight: Bytes)

  /** The name is a C string and its length fits 32 bits; the size is sent in 64 bits, but see BufferHolds. */
  predicate Fits(r: Record) {
    CString(r.name) && |r.weight| < 0x1_0000_0000
  }

  predicate AllFit(rs: seq<Record>) {
    forall i | 0 <= i < |rs| :: Fits(rs[i])
  }

  function EncRecords(rs: seq<Record>, i: nat, rest: Bytes): Bytes
    requires AllFit(rs) && i <= |rs|
    decreases |rs| - i
  {
    if i == |rs| then rest
    else EncString(rs[i].name, Enc32(rs[i].index, Enc64(|rs[i].weight|, rs[i].weight + EncRecords(rs, i + 1, rest))))
  }

  /** The records and the end mark. */
  function EncStream(rs: seq<Record>, i: nat, rest: Bytes): Bytes
    requires AllFit(rs) && i <= |rs|
  {
    EncRecords(rs, i, Enc32(0, rest))
  }

  /** A stream opens with the length of its next record's name, or with the end mark. */
  lemma Header(rs: seq<Record>, i: nat, rest: Bytes) returns (x: U32, after: Bytes)
    requires AllFit(rs) && i <= |rs|
    ensures EncStream(rs, i, rest) == Enc32(x, after)
    ensures i == |rs| ==> x == 0 && after == rest
    ensures i < |rs| ==> x == |rs[i].name| + 1
    ensures i < |rs| ==> after == (rs[i].name + [0]) + Enc32(rs[i].index, Enc64(|rs[i].weight|, rs[i].weight + EncStream(rs, i + 1, rest)))
  {
    if i == |rs| {
      x, after := 0, rest;
    } else {
      x := |rs[i].name| + 1;
      after := (rs[i].name + [0])
        + Enc32(rs[i].index, Enc64(|rs[i].weight|, rs[i].weight + EncStream(rs, i + 1, rest)));
    }
  }

  method WriteWeight(channel: Channel, r: Record, ghost rest: Bytes)
    requires Fits(r)
    modifies channel
    ensures channel.bytes + rest
         == old(channel.bytes) + EncString(r.name, Enc32(r.index, Enc64(|r.weight|, r.weight + rest)))
  {
    hide Enc32, Enc64, EncString;
    channel.WriteString(r.name, Enc32(r.index, Enc64(|r.weight|, r.weight + rest)));
    channel.Write32(r.index, Enc64(|r.weight|, r.weight + rest));
    channel.Write64(|r.weight|, r.weight + rest);
    channel.Write(r.weight, rest);
  }

  /** The reader's buffer after allocate, whose parameter keeps the low 32 bits of the size. */
  function Allocated(tempSize: U32, nBytes: U64): U32 {
    if tempSize < nBytes % 0x1_0000_0000 then nBytes % 0x1_0000_0000 else tempSize
  }

  /** The size of the buffer when the first `n` weights have been read. */
  function BufferSize(rs: seq<Record>, n: nat): U32
    requires AllFit(rs) && n <= |rs|
  {
    if n == 0 then 0 else Allocated(BufferSize(rs, n - 1), |rs[n - 1].weight|)
  }

  /** The buffer only grows: its size is the largest size, cut to 32 bits, of the weights so far. */
  lemma {:induction false} BufferIsLargest(rs: seq<Record>, n: nat, i: nat)
    requires AllFit(rs) && i < n <= |rs|
    ensures |rs[i].weight| % 0x1_0000_0000 <= BufferSize(rs, n)
    ensures exists k: nat :: k < n && |rs[k].weight| % 0x1_0000_0000 == BufferSize(rs, n)
    decreases n
  {
    if n > 1 {
      BufferIsLargest(rs, n - 1, if i < n - 1 then i else 0);
    }
    assert |rs[n - 1].weight| % 0x1_0000_0000 <= BufferSize(rs, n);
  }

  /** Whatever was allocated before, the buffer holds the weight exactly when its size fits 32 bits. */
  lemma BufferHolds(tempSize: U32, nBytes: U64)
    ensures nBytes <= Allocated(tempSize, nBytes) <==> nBytes < 0x1_0000_0000
  {
    if nBytes < 0x1_0000_0000 {
      assert nBytes % 0x1_0000_0000 == nBytes;
    }
  }

  /** NnWorkerWeightReader::read: everything up to the end mark, and not a byte more. `sizes` are the sizes of the
      buffer when the weights are read into it. */
  method Read(channel: Channel, ghost rs: seq<Record>, ghost rest: Bytes) returns (loaded: seq<Record>, sizes: seq<U32>)
    requires AllFit(rs) && channel.bytes == EncStream(rs, 0, rest)
    modifies channel
    ensures loaded == rs && channel.bytes == rest
    ensures |sizes| == |rs| && forall i: nat | i < |rs| :: |rs[i].weight| <= sizes[i] == BufferSize(rs, i + 1)
  {
    hide Enc32, Enc64, Allocated;
    loaded, sizes := [], [];
    var tempSize: U32 := 0;
    while true
      invariant |loaded| <= |rs| && loaded == rs[..|loaded|] && channel.bytes == EncStream(rs, |loaded|, rest)
      invariant |sizes| == |loaded| && tempSize == BufferSize(rs, |loaded|)
      invariant forall k: nat | k < |sizes| :: |rs[k].weight| <= sizes[k] == BufferSize(rs, k + 1)
      decreases |rs| - |loaded|
    {
      ghost var i := |loaded|;
      ghost var x: U32, after: Bytes := Header(rs, i, rest);
      var nameSize := channel.Read32(x, after);
      if nameSize == 0 {
        break;
      }
      ghost var r := rs[i];
      ghost var tail := EncStream(rs, i + 1, rest);
      var opName := channel.Read(nameSize, r.name + [0], Enc32(r.index, Enc64(|r.weight|, r.weight + tail)));
      var index := channel.Read32(r.index, Enc64(|r.weight|, r.weight + tail));
      var nBytes := channel.Read64(|r.weight|, r.weight + tail);
      BufferHolds(tempSize, nBytes);
      tempSize := Allocated(tempSize, nBytes);
      sizes := sizes + [tempSize];
      var weight := channel.Read(nBytes, r.weight, tail);
      loaded := loaded + [Record(opName[..|opName| - 1], index, weight)];
    }
  }

  /** What one call of the root's loader is told: a weight for the root, for all nodes, or to be sliced.
      Sizes are in bytes: `n` bytes to a row, `n0` of them for a column slice. */
  datatype Shape =
    | Root(name: Bytes, index: U32, size: nat)
    | All(name: Bytes, index: U32, size: nat)
    | Row(name: Bytes, index: U32, n: nat, d0: nat)
    | Col(name: Bytes, index: U32, n: nat, d: nat, n0: nat)
  {
    /** Bytes of the whole weight in the file. */
    function Size(nNodes: nat): nat {
      match this
      case Row(_, _, n, d0) => Mul(nNodes, Mul(d0, n))
      case Col(_, _, n, d, _) => Mul(d, n)
      case _ => size
    }

    function SliceSize(): nat {
      match this
      case Row(_, _, n, d0) => Mul(d0, n)
      case Col(_, _, _, d, n0) => Mul(d, n0)
      case _ => size
    }

    /** What is sent to a worker fits its buffer, and the columns divide over the nodes. */
    predicate Sendable(nNodes: nat) {
      && (nNodes > 1 && !Root? ==> CString(name) && SliceSize() < 0x1_0000_0000)
      && (Col? ==> n == Mul(nNodes, n0))
    }

    /** What node `node` is to load, if anything. */
    function For(weight: Bytes, nNodes: nat, node: nat): (rs: seq<Record>)
      requires Sendable(nNodes) && |weight| == Size(nNodes) && node < nNodes
      ensures node > 0 ==> AllFit(rs)
    {
      match this
      case Root(name, index, _) => if node == 0 then [Record(name, index, weight)] else []
      case All(name, index, _) => [Record(name, index, weight)]
      case Row(name, index, n, d0) =>
        SliceInside(node, nNodes, Mul(d0, n));
        [Record(name, index, RowSlice(weight, n, d0, node))]
      case Col(name, index, n, d, n0) =>
        SliceInside(node, nNodes, n0);
        [Record(name, index, ColSlice(weight, n, d, n0, node))]
    }
  }

  datatype Load = Load(shape: Shape, weight: Bytes)

  ghost predicate AllSendable(loads: seq<Load>, nNodes: nat) {
    forall i | 0 <= i < |loads| :: loads[i].shape.Sendable(nNodes) && |loads[i].weight| == loads[i].shape.Size(nNodes)
  }

  /** Everything a node is to load, in order. */
  ghost function Records(loads: seq<Load>, nNodes: nat, node: nat): (rs: seq<Record>)
    requires AllSendable(loads, nNodes) && node < nNodes
    ensures node > 0 ==> AllFit(rs)
  {
    if loads == [] then []
    else
      var last := loads[|loads| - 1];
      Records(loads[..|loads| - 1], nNodes, node) + last.shape.For(last.weight, nNodes, node)
  }

  lemma {:induction false} EncRecordsAppend(rs: seq<Record>, more: seq<Record>, i: nat, rest: Bytes)
    requires AllFit(rs) && AllFit(more) && i <= |rs|
    ensures AllFit(rs + more) && EncRecords(rs + more, i, rest) == EncRecords(rs, i, EncRecords(more, 0, rest))
    decreases |rs| - i
  {
    hide Enc32, Enc64, EncString;
    if i < |rs| {
      EncRecordsAppend(rs, more, i + 1, rest);
    } else {
      EncRecordsShift(rs, more, 0, rest);
    }
  }

  lemma {:induction false} EncRecordsShift(rs: seq<Record>, more: seq<Record>, i: nat, rest: Bytes)
    requires AllFit(rs) && AllFit(more) && i <= |more|
    ensures AllFit(rs + more) && EncRecords(rs + more, |rs| + i, rest) == EncRecords(more, i, rest)
    decreases |more| - i
  {
    hide Enc32, Enc64, EncString;
    if i < |more| {
      EncRecordsShift(rs, more, i + 1, rest);
    }
  }

  /** NnRootWeightLoader, with the root's executor as the list of what it has loaded. */
  class RootWeightLoader {
    const nNodes: nat
    const sockets: seq<Channel>
    var loaded: seq<Record>
    ghost var queued: seq<seq<Record>>
    ghost var loads: seq<Load>

    constructor (sockets: seq<Channel>)
      requires forall i, j | 0 <= i < j < |sockets| :: sockets[i] != sockets[j]
      requires forall i | 0 <= i < |sockets| :: sockets[i].bytes == []
      ensures Valid() && this.sockets == sockets && nNodes == |sockets| + 1 && loads == []
    {
      this.nNodes := |sockets| + 1;
      this.sockets := sockets;
      this.loaded := [];
      this.loads := [];
      this.queued := seq(|sockets|, _ => []);
      new;
      assert Enc32(0, []) == [] + Enc32(0, []);
    }

    /** Every socket carries what was queued for its worker, with the end mark still to come. */
    ghost predicate Carrying()
      reads this, sockets
    {
      && nNodes == |sockets| + 1 && |queued| == |sockets|
      && (forall i, j | 0 <= i < j < |sockets| :: sockets[i] != sockets[j])
      && (forall i | 0 <= i < |sockets| :: Carries(sockets[i], queued[i]))
    }

    /** The root holds its records and every worker's are queued. */
    ghost predicate Valid()
      reads this, sockets
    {
      && Carrying()
      && AllSendable(loads, nNodes)
      && HasAll(loads, nNodes, loaded, queued)
    }

    method WriteWeight(node: nat, r: Record)
      requires Carrying() && 0 < node < nNodes && Fits(r)
      modifies this`queued, sockets[node - 1]
      ensures Carrying() && queued == old(queued)[node - 1 := old(queued)[node - 1] + [r]]
    {
      hide Carries, AllFit, Fits;
      WriteMore(sockets[node - 1], queued[node - 1], r);
      queued := queued[node - 1 := queued[node - 1] + [r]];
    }

    /** Node `node` is given its slice: the root loads it, a worker is sent it. */
    method Deliver(node: nat, r: Record)
      requires Carrying() && node < nNodes && (node > 0 ==> Fits(r))
      modifies this`queued, this`loaded, sockets
      ensures Carrying() && loaded == (if node == 0 then old(loaded) + [r] else old(loaded))
      ensures queued == if node == 0 then old(queued) else old(queued)[node - 1 := old(queued)[node - 1] + [r]]
    {
      hide Carries, AllFit, Fits;
      if node == 0 {
        loaded := loaded + [r];
      } else {
        WriteWeight(node, r);
      }
    }

    method LoadRoot(shape: Shape, weight: Bytes) returns (nBytes: nat)
      requires Valid() && shape.Root? && shape.Sendable(nNodes) && |weight| == shape.Size(nNodes)
      modifies this`loaded, this`loads
      ensures Valid() && loads == old(loads) + [Load(shape, weight)] && nBytes == |weight|
    {
      hide Carries, AllFit, Fits, AllSendable, Records;
      ghost var before := loaded;
      loaded := loaded + [Record(shape.name, shape.index, weight)];
      HasNext(loads, Load(shape, weight), nNodes, before, queued, loaded, queued);
      loads := loads + [Load(shape, weight)];
      return |weight|;
    }

    method LoadAll(shape: Shape, weight: Bytes) returns (nBytes: nat)
      requires Valid() && shape.All? && shape.Sendable(nNodes) && |weight| == shape.Size(nNodes)
      modifies this`loaded, this`loads, this`queued, sockets
      ensures Valid() && loads == old(loads) + [Load(shape, weight)] && nBytes == |weight|
    {
      hide Carries, AllFit, AllSendable, Records, HasAll;
      ghost var before, sent := loaded, queued;
      var r := Record(shape.name, shape.index, weight);
      loaded := loaded + [r];
      for node := 1 to nNodes
        invariant Carrying() && loads == old(loads) && loaded == before + [r]
        invariant forall i | 0 <= i < |sent| :: queued[i] == if i < node - 1 then sent[i] + [r] else sent[i]
      {
        WriteWeight(node, r);
      }
      HasNext(loads, Load(shape, weight), nNodes, before, sent, loaded, queued);
      loads := loads + [Load(shape, weight)];
      return |weight|;
    }

    method LoadRow(shape: Shape, weight: Bytes) returns (nBytes: nat)
      requires Valid() && shape.Row? && shape.Sendable(nNodes) && |weight| == shape.Size(nNodes)
      modifies this`loaded, this`loads, this`queued, sockets
      ensures Valid() && loads == old(loads) + [Load(shape, weight)] && nBytes == |weight|
    {
      hide Carries, AllFit, AllSendable, Records, HasAll, Mul, RowSlice, Fits, Shape.For;
      ghost var before, sent := loaded, queued;
      if nNodes == 1 {
        OnlySlice(shape, weight);
        loaded := loaded + [Record(shape.name, shape.index, weight)];
      } else {
        var temp := new Byte[shape.SliceSize()](_ => 0);
        for node := 0 to nNodes
          invariant Carrying() && loads == old(loads) && fresh(temp)
          invariant loaded == if node == 0 then before else before + shape.For(weight, nNodes, 0)
          invariant forall i | 0 <= i < |sent| ::
                      queued[i] == if i + 1 < node then sent[i] + shape.For(weight, nNodes, i + 1) else sent[i]
        {
          var r := RowPart(shape, weight, node, temp);
          Deliver(node, r);
        }
      }
      HasNext(loads, Load(shape, weight), nNodes, before, sent, loaded, queued);
      loads := loads + [Load(shape, weight)];
      return |weight|;
    }

    method RowPart(shape: Shape, weight: Bytes, node: nat, temp: array<Byte>) returns (r: Record)
      requires shape.Row? && shape.Sendable(nNodes) && |weight| == shape.Size(nNodes) && node < nNodes
      requires temp.Length == shape.SliceSize()
      modifies temp
      ensures (node > 0 ==> Fits(r)) && shape.For(weight, nNodes, node) == [r]
    {
      hide Mul, RowSlice;
      SliceInside(node, nNodes, Mul(shape.d0, shape.n));
      var _ := WeightSplit.SplitRow(shape.n, shape.d0, node, 1, weight, temp);
      assert temp[..] == RowSlice(weight, shape.n, shape.d0, node);
      r := Record(shape.name, shape.index, temp[..]);
    }

    method LoadCol(shape: Shape, weight: Bytes) returns (nBytes: nat)
      requires Valid() && shape.Col? && shape.Sendable(nNodes) && |weight| == shape.Size(nNodes)
      modifies this`loaded, this`loads, this`queued, sockets
      ensures Valid() && loads == old(loads) + [Load(shape, weight)] && nBytes == |weight|
    {
      hide Carries, AllFit, AllSendable, Records, HasAll, Mul, ColSlice;
      ghost var before, sent := loaded, queued;
      if nNodes == 1 {
        OnlySlice(shape, weight);
        loaded := loaded + [Record(shape.name, shape.index, weight)];
      } else {
        var temp := new Byte[shape.SliceSize()](_ => 0);
        for node := 0 to nNodes
          invariant Carrying() && loads == old(loads) && fresh(temp)
          invariant loaded == if node == 0 then before else before + shape.For(weight, nNodes, 0)
          invariant forall i | 0 <= i < |sent| ::
                      queued[i] == if i + 1 < node then sent[i] + shape.For(weight, nNodes, i + 1) else sent[i]
        {
          var r := ColPart(shape, weight, node, temp);
          Deliver(node, r);
        }
      }
      HasNext(loads, Load(shape, weight), nNodes, before, sent, loaded, queued);
      loads := loads + [Load(shape, weight)];
      return |weight|;
    }

    method ColPart(shape: Shape, weight: Bytes, node: nat, temp: array<Byte>) returns (r: Record)
      requires shape.Col? && shape.Sendable(nNodes) && |weight| == shape.Size(nNodes) && node < nNodes
      requires temp.Length == shape.SliceSize()
      modifies temp
      ensures (node > 0 ==> Fits(r)) && shape.For(weight, nNodes, node) == [r]
    {
      hide Mul, ColSlice;
      SliceInside(node, nNodes, shape.n0);
      var _ := WeightSplit.SplitCol(shape.n, shape.n0, shape.d, node, 1, weight, temp);
      assert temp[..] == ColSlice(weight, shape.n, shape.d, shape.n0, node);
      r := Record(shape.name, shape.index, temp[..]);
    }

    /** The end marks: each socket then carries exactly its worker's stream. */
    method Finish()
      requires Valid()
      modifies sockets
      ensures loads == old(loads) && loaded == old(loaded) && queued == old(queued)
      ensures forall i | 0 <= i < |sockets| :: AllFit(queued[i]) && sockets[i].bytes == EncStream(queued[i], 0, [])
    {
      hide Records, AllSendable, AllFit, Enc32, EncRecords;
      for i := 0 to nNodes - 1
        invariant forall k | 0 <= k < i :: AllFit(queued[k]) && sockets[k].bytes == EncStream(queued[k], 0, [])
        invariant forall k | i <= k < |sockets| :: Carries(sockets[k], queued[k])
      {
        sockets[i].Write32(0, []);
        assert sockets[i].bytes + [] == sockets[i].bytes;
      }
    }
  }

  /** The root has loaded its records and every worker's are queued. */
  ghost predicate HasAll(loads: seq<Load>, nNodes: nat, loaded: seq<Record>, queued: seq<seq<Record>>)
    requires AllSendable(loads, nNodes)
  {
    && |queued| + 1 == nNodes
    && loaded == Records(loads, nNodes, 0)
    && forall i | 0 <= i < |queued| :: queued[i] == Records(loads, nNodes, i + 1)
  }

  lemma HasNext(loads: seq<Load>, load: Load, nNodes: nat,
                loaded: seq<Record>, queued: seq<seq<Record>>, loaded': seq<Record>, queued': seq<seq<Record>>)
    requires AllSendable(loads, nNodes) && load.shape.Sendable(nNodes) && |load.weight| == load.shape.Size(nNodes)
    requires HasAll(loads, nNodes, loaded, queued) && |queued'| == |queued|
    requires loaded' == loaded + load.shape.For(load.weight, nNodes, 0)
    requires forall i | 0 <= i < |queued| :: queued'[i] == queued[i] + load.shape.For(load.weight, nNodes, i + 1)
    ensures AllSendable(loads + [load], nNodes) && HasAll(loads + [load], nNodes, loaded', queued')
  {
    hide Shape.For, Shape.Size;
    assert (loads + [load])[..|loads|] == loads;
  }

  method Connect(count: nat) returns (sockets: seq<Channel>)
    ensures |sockets| == count && fresh(sockets)
    ensures forall i, j | 0 <= i < j < count :: sockets[i] != sockets[j]
    ensures forall i | 0 <= i < count :: sockets[i].bytes == []
  {
    sockets := [];
    for i := 0 to count
      invariant |sockets| == i && fresh(sockets)
      invariant forall a, b | 0 <= a < b < i :: sockets[a] != sockets[b]
      invariant forall a | 0 <= a < i :: sockets[a].bytes == []
    {
      var c := new Channel();
      sockets := sockets + [c];
    }
  }

  /** One call for each weight of the file, each moving on by what it says it has consumed. None is a weight that
      is read past the end of the file: the size is compared only afterwards. */
  method LoadWeights(loader: RootWeightLoader, plan: seq<Shape>, file: Bytes, headerSize: nat) returns (missing: Option<int>)
    requires loader.Valid() && loader.loads == [] && AllShapesSendable(plan, loader.nNodes) && headerSize <= |file|
    modifies loader, loader.sockets
    ensures missing == None <==> headerSize + Total(plan, loader.nNodes) > |file|
    ensures missing.Some? ==>
              && missing.value == headerSize + Total(plan, loader.nNodes) - |file| && loader.Valid()
              && loader.loads == Loads(plan, loader.nNodes, file[headerSize..])
  {
    hide Records, AllFit, Carries, Shape.For, Shape.Size, Shape.SliceSize;
    var b := headerSize;
    var data := file[headerSize..];
    for i := 0 to |plan|
      invariant loader.Valid() && Total(plan[..i], loader.nNodes) <= |data|
      invariant b == headerSize + Total(plan[..i], loader.nNodes)
      invariant loader.loads == Loads(plan[..i], loader.nNodes, data)
    {
      assert plan[..i + 1][..i] == plan[..i];
      TotalPrefix(plan, loader.nNodes, i + 1);
      var shape := plan[i];
      if b + shape.Size(loader.nNodes) > |file| {
        return None;
      }
      var weight := file[b..b + shape.Size(loader.nNodes)];
      assert weight == data[b - headerSize..b - headerSize + shape.Size(loader.nNodes)];
      var nBytes: nat;
      match shape {
        case Root(_, _, _) => nBytes := loader.LoadRoot(shape, weight);
        case All(_, _, _) => nBytes := loader.LoadAll(shape, weight);
        case Row(_, _, _, _) => nBytes := loader.LoadRow(shape, weight);
        case Col(_, _, _, _, _) => nBytes := loader.LoadCol(shape, weight);
      }
      b := b + nBytes;
    }
    assert plan[..|plan|] == plan;
    return Some(b - |file|);
  }

  /** loadLlmNetWeight and the workers' readers: the size of the file is checked to the byte, and every node
      ends with exactly its records. */
  method LoadNet(plan: seq<Shape>, nNodes: nat, file: Bytes, headerSize: nat)
    returns (missing: Option<int>, root: seq<Record>, workers: seq<seq<Record>>)
    requires nNodes > 0 && AllShapesSendable(plan, nNodes) && headerSize <= |file|
    ensures missing == None <==> headerSize + Total(plan, nNodes) > |file|
    ensures missing == Some(0) <==> headerSize + Total(plan, nNodes) == |file|
    ensures missing == Some(0) ==> HasAll(Loads(plan, nNodes, file[headerSize..]), nNodes, root, workers)
  {
    hide Records, EncRecords, Enc32, AllFit, Carries, AllSendable, Loads;
    var sockets := Connect(nNodes - 1);
    var loader := new RootWeightLoader(sockets);
    missing := LoadWeights(loader, plan, file, headerSize);
    root, workers := loader.loaded, [];
    if missing != Some(0) {
      return;
    }
    ghost var queued := loader.queued;
    assert HasAll(Loads(plan, nNodes, file[headerSize..]), nNodes, root, queued);
    loader.Finish();
    hide HasAll;
    for k := 0 to nNodes - 1
      invariant |workers| == k && workers == queued[..k] && fresh(sockets)
      invariant forall i | k <= i < nNodes - 1 :: sockets[i].bytes == EncStream(queued[i], 0, [])
    {
      var w, _ := Read(sockets[k], queued[k], []);
      workers := workers + [w];
    }
  }

  predicate AllShapesSendable(plan: seq<Shape>, nNodes: nat) {
    forall i | 0 <= i < |plan| :: plan[i].Sendable(nNodes)
  }

  /** One node loads any weights at all; more need C strings and slices below 4 GiB for what they send, and columns
      that divide. */
  lemma SomePlan(name: Bytes, index: U32, size: nat, n: nat, d: nat, nNodes: nat)
    requires nNodes > 0 && (nNodes > 1 ==> CString(name) && size < 0x1_0000_0000 && Mul(d, n) < 0x1_0000_0000)
    ensures AllShapesSendable([Root(name, index, size), All(name, index, size), Row(name, index, n, d),
                               Col(name, index, Mul(nNodes, n), d, n)], nNodes)
  {
    hide Mul;
  }

  function Total(plan: seq<Shape>, nNodes: nat): nat {
    if plan == [] then 0 else Total(plan[..|plan| - 1], nNodes) + plan[|plan| - 1].Size(nNodes)
  }

  /** The weights as they lie in the file, one after the other. */
  ghost function Loads(plan: seq<Shape>, nNodes: nat, data: Bytes): (loads: seq<Load>)
    requires AllShapesSendable(plan, nNodes) && Total(plan, nNodes) <= |data|
    ensures AllSendable(loads, nNodes)
  {
    if plan == [] then []
    else
      var front, shape := plan[..|plan| - 1], plan[|plan| - 1];
      var at := Total(front, nNodes);
      Loads(front, nNodes, data) + [Load(shape, data[at..at + shape.Size(nNodes)])]
  }

  lemma {:induction false} TotalPrefix(plan: seq<Shape>, nNodes: nat, i: nat)
    requires i <= |plan|
    ensures Total(plan[..i], nNodes) <= Total(plan, nNodes)
  {
    hide Shape.Size;
    if i < |plan| {
      TotalPrefix(plan[..|plan| - 1], nNodes, i);
      assert plan[..|plan| - 1][..i] == plan[..i];
    } else {
      assert plan[..i] == plan;
    }
  }

  /** With one node the slice is the weight, which is why it is loaded without a copy. */
  lemma OnlySlice(shape: Shape, weight: Bytes)
    requires (shape.Row? || shape.Col?) && shape.Sendable(1) && |weight| == shape.Size(1)
    ensures shape.For(weight, 1, 0) == [Record(shape.name, shape.index, weight)]
  {
    match shape {
      case Row(_, _, n, d0) =>
        assert weight[0..|weight|] == weight;
      case Col(_, _, n, d, n0) =>
        assert n == n0;
        OnlyColumns(weight, n, d);
    }
  }

  lemma {:induction false} OnlyColumns(w: Bytes, n: nat, d: nat)
    requires |w| == Mul(d, n)
    ensures Mul(0, n) + n <= n && ColSlice(w, n, d, n, 0) == w
  {
    if d > 0 {
      MulNext(d - 1, n);
      OnlyColumns(w[..Mul(d - 1, n)], n, d - 1);
      WeightSplit.ColSliceStep(w, n, n, d - 1, 0);
      assert w[..Mul(d, n)] == w;
    }
  }

  /** The channel holds the encoding of the records, except for the end mark. */
  ghost predicate Carries(channel: Channel, rs: seq<Record>)
    reads channel
  {
    AllFit(rs) && channel.bytes + Enc32(0, []) == EncRecords(rs, 0, Enc32(0, []))
  }

  method WriteMore(channel: Channel, ghost done: seq<Record>, r: Record)
    requires Carries(channel, done) && Fits(r)
    modifies channel
    ensures Carries(channel, done + [r])
  {
    hide Enc32, Enc64, EncString;
    ghost var before := channel.bytes;
    ghost var end := Enc32(0, []);
    WriteWeight(channel, r, end);
    assert EncRecords([r], 1, end) == end;
    assert EncRecords([r], 0, end) == EncString(r.name, Enc32(r.index, Enc64(|r.weight|, r.weight + end)));
    EncRecordsAppend(done, [r], 0, end);
    Extends(before, done, 0, end, EncRecords([r], 0, end));
  }

  /** A stream that is the encoding with one continuation is the encoding with any other. */
  lemma Extends(before: Bytes, rs: seq<Record>, i: nat, rest: Bytes, rest': Bytes)
    requires AllFit(rs) && i <= |rs| && before + rest == EncRecords(rs, i, rest)
    ensures before + rest' == EncRecords(rs, i, rest')
  {
    hide Enc32, Enc64, EncString;
    Prefix(rs, i, rest);
    Prefix(rs, i, rest');
    Prefix(rs, i, []);
    var x := EncRecords(rs, i, []);
    assert x + [] == x;
    assert before + rest == x + rest;
    assert |before| == |x|;
    assert before == (before + rest)[..|before|] == (x + rest)[..|x|] == x;
  }

  lemma {:induction false} Prefix(rs: seq<Record>, i: nat, rest: Bytes)
    requires AllFit(rs) && i <= |rs|
    ensures EncRecords(rs, i, rest) == EncRecords(rs, i, []) + rest
    decreases |rs| - i
  {
    hide Enc32, Enc64, EncString;
    if i < |rs| {
      Prefix(rs, i + 1, rest);
      var r, tail := rs[i], EncRecords(rs, i + 1, []);
      assert r.weight + (tail + rest) == (r.weight + tail) + rest;
      Then64(|r.weight|, r.weight + tail, rest);
      Then32(r.index, Enc64(|r.weight|, r.weight + tail), rest);
      ThenString(r.name, Enc32(r.index, Enc64(|r.weight|, r.weight + tail)), rest);
    } else {
      assert [] + rest == rest;
    }
  }

  lemma Then32(x: U32, a: Bytes, b: Bytes)
    ensures Enc32(x, a + b) == Enc32(x, a) + b
  {
    assert Low(x, 4) + (a + b) == (Low(x, 4) + a) + b;
  }

  lemma Then64(x: U64, a: Bytes, b: Bytes)
    ensures Enc64(x, a + b) == Enc64(x, a) + b
  {
    assert Low(x, 8) + (a + b) == (Low(x, 8) + a) + b;
  }

  lemma ThenString(s: Bytes, a: Bytes, b: Bytes)
    requires CString(s)
    ensures EncString(s, a + b) == EncString(s, a) + b
  {
    assert (s + [0]) + (a + b) == ((s + [0]) + a) + b;
    Then32(|s| + 1, (s + [0]) + a, b);
  }

  /** The row slices that the nodes load are the weight. */
  lemma RowsRebuild(shape: Shape, weight: Bytes, nNodes: nat, slices: seq<Bytes>)
    requires shape.Row? && shape.Sendable(nNodes) && |weight| == shape.Size(nNodes) && |slices| == nNodes
    requires forall k: nat | k < nNodes :: shape.For(weight, nNodes, k) == [Record(shape.name, shape.index, slices[k])]
    ensures Concat(slices) == weight
  {
    hide Mul;
    forall k: nat | k < nNodes
      ensures Mul(k, Mul(shape.d0, shape.n)) + Mul(shape.d0, shape.n) <= |weight|
      ensures slices[k] == RowSlice(weight, shape.n, shape.d0, k)
    {
      SliceInside(k, nNodes, Mul(shape.d0, shape.n));
      assert shape.For(weight, nNodes, k)[0].weight == RowSlice(weight, shape.n, shape.d0, k);
    }
    WeightSplit.RowSlicesRebuild(weight, shape.n, shape.d0, nNodes, slices);
  }

  /** The column slices that the nodes load give back every row of the weight. */
  lemma ColsRebuild(shape: Shape, weight: Bytes, nNodes: nat, slices: seq<Bytes>, i: nat, rows: seq<Bytes>)
    requires shape.Col? && shape.Sendable(nNodes) && |weight| == shape.Size(nNodes) && |slices| == |rows| == nNodes
    requires forall k: nat | k < nNodes :: shape.For(weight, nNodes, k) == [Record(shape.name, shape.index, slices[k])]
    requires i < shape.d
    requires forall k: nat | k < nNodes :: Mul(i, shape.n0) + shape.n0 <= |slices[k]| && rows[k] == Slice(slices[k], shape.n0, i)
    ensures Mul(i, shape.n) + shape.n <= |weight| && Concat(rows) == Slice(weight, shape.n, i)
  {
    hide Mul, Slice, ColSlice;
    forall k: nat | k < nNodes
      ensures Mul(k, shape.n0) + shape.n0 <= shape.n && slices[k] == ColSlice(weight, shape.n, shape.d, shape.n0, k)
    {
      SliceInside(k, nNodes, shape.n0);
      assert shape.For(weight, nNodes, k)[0].weight == ColSlice(weight, shape.n, shape.d, shape.n0, k);
    }
    WeightSplit.ColSlicesRebuild(weight, shape.n, shape.d, shape.n0, nNodes, slices, i, rows);
  }
}
