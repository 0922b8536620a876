/** The socket loops of src/nn/nn-network.cpp over the answers of the operating system: any split of
    sends and reads, with would-block answers in between. A script that runs out is a broken connection. */
module Sockets {
  import opened Wrappers

  /** The answer to one send or recv call: would block, up to `n` bytes, closed, or an error. */
  datatype Answer = Again | Bytes(n: nat) | Closed | Error

  datatype Io = Io(socketIndex: nat, data: nat, size: nat)

  datatype Outcome = Done | NothingYet | Exception

  /** The streams behind the sockets: what will still arrive, and what was sent. */
  class Os {
    var script: seq<Answer>
    var incoming: seq<seq<Byte>>
    var outgoing: seq<seq<Byte>>

    /** recv: between 1 and `size` bytes from the front of the stream, or none. */
    method Recv(socket: nat, size: nat) returns (answer: Answer, data: seq<Byte>)
      requires socket < |incoming| && size > 0
      modifies this`script, this`incoming
      ensures |incoming| == |old(incoming)| && forall k | 0 <= k < |incoming| && k != socket :: incoming[k] == old(incoming)[k]
      ensures old(incoming)[socket] == data + incoming[socket]
      ensures if answer.Bytes? then 0 < |data| <= size else data == []
      ensures |script| < |old(script)| || (script == [] && answer == Error)
    {
      data := [];
      if script == [] {
        return Error, data;
      }
      answer := script[0];
      script := script[1..];
      if answer.Bytes? {
        var n := if answer.n < size then answer.n else size;
        n := if n < |incoming[socket]| then n else |incoming[socket]|;
        if n == 0 {
          return Again, data;
        }
        data := incoming[socket][..n];
        incoming := incoming[socket := incoming[socket][n..]];
      }
    }

    /** send: between 1 and `|data|` bytes are taken, or none. */
    method Send(socket: nat, data: seq<Byte>) returns (answer: Answer, n: nat)
      requires socket < |outgoing| && data != []
      modifies this`script, this`outgoing
      ensures |outgoing| == |old(outgoing)| && forall k | 0 <= k < |outgoing| && k != socket :: outgoing[k] == old(outgoing)[k]
      ensures n <= |data| && outgoing[socket] == old(outgoing)[socket] + data[..n]
      ensures answer.Bytes? <==> n > 0
      ensures |script| < |old(script)| || (script == [] && answer == Error)
    {
      n := 0;
      if script == [] {
        return Error, 0;
      }
      answer := script[0];
      script := script[1..];
      if answer.Bytes? {
        n := if answer.n < |data| then answer.n else |data|;
        if n == 0 {
          return Again, 0;
        }
        outgoing := outgoing[socket := outgoing[socket] + data[..n]];
      }
    }
  }

  /** tryReadSocket: all `size` bytes, or NothingYet with not a single byte consumed. */
  method TryReadSocket(os: Os, socket: nat, data: array<Byte>, size: nat, maxAttempts: nat) returns (r: Outcome)
    requires socket < |os.incoming| && size <= data.Length
    modifies os`script, os`incoming, data
    ensures |os.incoming| == |old(os.incoming)|
    ensures forall k | 0 <= k < |os.incoming| && k != socket :: os.incoming[k] == old(os.incoming)[k]
    ensures r == Done ==> old(os.incoming)[socket] == data[..size] + os.incoming[socket]
    ensures r == NothingYet ==> maxAttempts > 0 && size > 0 && os.incoming == old(os.incoming) && data[..] == old(data[..])
    ensures forall k | size <= k < data.Length :: data[k] == old(data[k])
  {
    var s: nat, at: nat, attempts: nat := size, 0, maxAttempts;
    while s > 0
      invariant at + s == size && |os.incoming| == |old(os.incoming)| && (maxAttempts > 0 <==> attempts > 0)
      invariant forall k | 0 <= k < |os.incoming| && k != socket :: os.incoming[k] == old(os.incoming)[k]
      invariant old(os.incoming)[socket] == data[..at] + os.incoming[socket]
      invariant forall k | at <= k < data.Length :: data[k] == old(data[k])
      decreases |os.script|, s
    {
      var answer, bytes := os.Recv(socket, s);
      match answer {
        case Again =>
          if s == size && attempts > 0 {
            attempts := attempts - 1;
            if attempts == 0 {
              assert os.incoming[socket] == old(os.incoming)[socket];
              return NothingYet;
            }
          }
        case Bytes(_) =>
          Store(data, at, bytes);
          at, s := at + |bytes|, s - |bytes|;
        case _ =>
          return Exception;
      }
    }
    return Done;
  }

  method Store(data: array<Byte>, at: nat, bytes: seq<Byte>)
    requires at + |bytes| <= data.Length
    modifies data
    ensures data[..at + |bytes|] == old(data[..at]) + bytes
    ensures forall k | 0 <= k < data.Length && !(at <= k < at + |bytes|) :: data[k] == old(data[k])
  {
    for i := 0 to |bytes|
      invariant forall k | 0 <= k < data.Length :: data[k] == if at <= k < at + i then bytes[k - at] else old(data[k])
    {
      data[at + i] := bytes[i];
    }
  }

  /** The transfers of one call go through different sockets and to different parts of the buffer. */
  ghost predicate Separate(ios: seq<Io>, nSockets: nat, bufferLength: nat) {
    && (forall i | 0 <= i < |ios| :: ios[i].socketIndex < nSockets && ios[i].data + ios[i].size <= bufferLength)
    && (forall i, j | 0 <= i < j < |ios| :: ios[i].socketIndex != ios[j].socketIndex &&
          (ios[i].data + ios[i].size <= ios[j].data || ios[j].data + ios[j].size <= ios[i].data))
  }

  /** How far a read has come: the first bytes of the stream are in the buffer. */
  ghost predicate Reading(start: Io, now: Io, before: seq<Byte>, after: seq<Byte>, buffer: seq<Byte>) {
    && now.socketIndex == start.socketIndex && start.data + start.size <= |buffer|
    && now.data + now.size == start.data + start.size && start.data <= now.data
    && before == buffer[start.data..now.data] + after
  }

  ghost predicate AllReading(start: seq<Io>, now: seq<Io>, before: seq<seq<Byte>>, after: seq<seq<Byte>>, buffer: seq<Byte>) {
    && |now| == |start| && |after| == |before| && Separate(start, |before|, |buffer|)
    && forall i {:trigger start[i]} {:trigger now[i]} | 0 <= i < |start| ::
         Reading(start[i], now[i], before[start[i].socketIndex], after[start[i].socketIndex], buffer)
  }

  /** Nothing outside the parts of the transfers has changed. */
  ghost predicate OnlyParts(start: seq<Io>, before: seq<Byte>, after: seq<Byte>) {
    |after| == |before| &&
    forall p {:trigger after[p]} | 0 <= p < |after| && (forall i | 0 <= i < |start| :: !(start[i].data <= p < start[i].data + start[i].size)) ::
      after[p] == before[p]
  }

  /** readMany: every stream delivers its bytes to its part of the buffer, however they arrive. */
  method ReadMany(os: Os, ios: array<Io>, buffer: array<Byte>) returns (r: Outcome)
    requires Separate(ios[..], |os.incoming|, buffer.Length)
    modifies os`script, os`incoming, ios, buffer
    ensures r != NothingYet && |os.incoming| == |old(os.incoming)|
    ensures r == Done ==> forall i | 0 <= i < ios.Length ::
              var io := old(ios[..])[i];
              old(os.incoming)[io.socketIndex] == buffer[io.data..io.data + io.size] + os.incoming[io.socketIndex]
    ensures r == Done ==> OnlyParts(old(ios[..]), old(buffer[..]), buffer[..])
  {
    hide OnlyParts;
    ghost var start, before, buf := ios[..], os.incoming, buffer[..];
    AllKept(start, buf);
    var isReading := true;
    while isReading
      invariant AllReading(start, ios[..], before, os.incoming, buffer[..]) && OnlyParts(start, buf, buffer[..])
      invariant !isReading ==> forall i | 0 <= i < ios.Length :: ios[i].size == 0
      decreases |os.script|, isReading
    {
      isReading := false;
      label L:
      for i := 0 to ios.Length
        invariant AllReading(start, ios[..], before, os.incoming, buffer[..]) && OnlyParts(start, buf, buffer[..])
        invariant |os.script| <= |old@L(os.script)| && (isReading ==> |os.script| < |old@L(os.script)|)
        invariant !isReading ==> forall k | 0 <= k < i :: ios[k].size == 0
      {
        if ios[i].size > 0 {
          isReading := true;
          ghost var mid := buffer[..];
          var ok := ReadSome(os, ios, i, buffer, start, before);
          if !ok {
            return Exception;
          }
          StillKept(start, buf, mid, buffer[..], i);
        }
      }
    }
    return Done;
  }

  lemma AllKept(start: seq<Io>, buf: seq<Byte>)
    ensures OnlyParts(start, buf, buf)
  {
  }

  lemma StillKept(start: seq<Io>, buf: seq<Byte>, mid: seq<Byte>, after: seq<Byte>, i: nat)
    requires OnlyParts(start, buf, mid) && i < |start| && |after| == |mid|
    requires forall p | 0 <= p < |mid| && !(start[i].data <= p < start[i].data + start[i].size) :: after[p] == mid[p]
    ensures OnlyParts(start, buf, after)
  {
    forall p | 0 <= p < |after| && forall k | 0 <= k < |start| :: !(start[k].data <= p < start[k].data + start[k].size)
      ensures after[p] == buf[p]
    {
      assert after[p] == mid[p];
    }
  }

  /** One recv of the inner loop. */
  method ReadSome(os: Os, ios: array<Io>, i: nat, buffer: array<Byte>, ghost start: seq<Io>, ghost before: seq<seq<Byte>>)
    returns (ok: bool)
    requires i < ios.Length && ios[i].size > 0 && AllReading(start, ios[..], before, os.incoming, buffer[..])
    modifies os`script, os`incoming, ios, buffer
    ensures |os.incoming| == |before|
    ensures ok ==> AllReading(start, ios[..], before, os.incoming, buffer[..]) && |os.script| < |old(os.script)|
    ensures ok ==> forall p | 0 <= p < buffer.Length && !(start[i].data <= p < start[i].data + start[i].size) ::
                     buffer[p] == old(buffer[p])
    ensures forall k | 0 <= k < ios.Length && k != i :: ios[k] == old(ios[k])
  {
    var io := ios[i];
    assert start[i].socketIndex == io.socketIndex;
    ghost var now, after, buf := ios[..], os.incoming, buffer[..];
    var answer, bytes := os.Recv(io.socketIndex, io.size);
    if answer == Again {
      assert os.incoming[io.socketIndex] == after[io.socketIndex];
      assert os.incoming == after;
      return true;
    }
    if !answer.Bytes? {
      return false;
    }
    Store(buffer, io.data, bytes);
    ios[i] := io.(data := io.data + |bytes|, size := io.size - |bytes|);
    Advanced(start, now, ios[..], before, after, os.incoming, buf, buffer[..], i, bytes);
    ok := true;
  }

  lemma Advanced(start: seq<Io>, now: seq<Io>, now': seq<Io>, before: seq<seq<Byte>>, after: seq<seq<Byte>>, after': seq<seq<Byte>>,
                 buf: seq<Byte>, buf': seq<Byte>, i: nat, bytes: seq<Byte>)
    requires AllReading(start, now, before, after, buf) && i < |start| && |after'| == |after| && |buf'| == |buf|
    requires |bytes| <= now[i].size && now' == now[i := now[i].(data := now[i].data + |bytes|, size := now[i].size - |bytes|)]
    requires forall k | 0 <= k < |after| && k != now[i].socketIndex :: after'[k] == after[k]
    requires now[i].socketIndex < |after| && after[now[i].socketIndex] == bytes + after'[now[i].socketIndex]
    requires buf'[..now[i].data + |bytes|] == buf[..now[i].data] + bytes
    requires forall k | 0 <= k < |buf| && !(now[i].data <= k < now[i].data + |bytes|) :: buf'[k] == buf[k]
    ensures AllReading(start, now', before, after', buf')
  {
    forall k | 0 <= k < |start|
      ensures Reading(start[k], now'[k], before[start[k].socketIndex], after'[start[k].socketIndex], buf')
    {
      assert Reading(start[k], now[k], before[start[k].socketIndex], after[start[k].socketIndex], buf);
      if k == i {
        var a, b, c := start[i].data, now[i].data, now[i].data + |bytes|;
        assert buf'[a..c] == buf'[..c][a..] == buf[a..b] + bytes;
      } else {
        assert start[k].socketIndex != start[i].socketIndex;
        assert buf'[start[k].data..now[k].data] == buf[start[k].data..now[k].data];
      }
    }
  }

  const MAX_CHUNK_SIZE := 4096

  /** The transfers of one call go through different sockets; they may share their data. */
  ghost predicate SocketsApart(ios: seq<Io>, nSockets: nat, bufferLength: nat) {
    && (forall i | 0 <= i < |ios| :: ios[i].socketIndex < nSockets && ios[i].data + ios[i].size <= bufferLength)
    && (forall i, j | 0 <= i < j < |ios| :: ios[i].socketIndex != ios[j].socketIndex)
  }

  /** How far a write has come: the first bytes of its data are on the stream. */
  ghost predicate Writing(start: Io, now: Io, before: seq<Byte>, after: seq<Byte>, buffer: seq<Byte>) {
    && now.socketIndex == start.socketIndex && start.data + start.size <= |buffer|
    && now.data + now.size == start.data + start.size && start.data <= now.data
    && after == before + buffer[start.data..now.data]
  }

  ghost predicate AllWriting(start: seq<Io>, now: seq<Io>, before: seq<seq<Byte>>, after: seq<seq<Byte>>, buffer: seq<Byte>) {
    && |now| == |start| && |after| == |before| && SocketsApart(start, |before|, |buffer|)
    && forall i {:trigger start[i]} {:trigger now[i]} | 0 <= i < |start| ::
         Writing(start[i], now[i], before[start[i].socketIndex], after[start[i].socketIndex], buffer)
  }

  /** writeMany: every stream gets exactly its data, in order, whatever each send takes. */
  method WriteMany(os: Os, ios: array<Io>, buffer: seq<Byte>) returns (r: Outcome)
    requires SocketsApart(ios[..], |os.outgoing|, |buffer|)
    modifies os`script, os`outgoing, ios
    ensures r != NothingYet && |os.outgoing| == |old(os.outgoing)|
    ensures r == Done ==> forall i | 0 <= i < ios.Length ::
              var io := old(ios[..])[i];
              os.outgoing[io.socketIndex] == old(os.outgoing)[io.socketIndex] + buffer[io.data..io.data + io.size]
  {
    ghost var start, before := ios[..], os.outgoing;
    var isWriting := true;
    while isWriting
      invariant AllWriting(start, ios[..], before, os.outgoing, buffer)
      invariant !isWriting ==> forall i | 0 <= i < ios.Length :: ios[i].size == 0
      decreases |os.script|, isWriting
    {
      isWriting := false;
      label L:
      for i := 0 to ios.Length
        invariant AllWriting(start, ios[..], before, os.outgoing, buffer)
        invariant |os.script| <= |old@L(os.script)| && (isWriting ==> |os.script| < |old@L(os.script)|)
        invariant !isWriting ==> forall k | 0 <= k < i :: ios[k].size == 0
      {
        if ios[i].size > 0 {
          isWriting := true;
          var ok := WriteSome(os, ios, i, buffer, start, before);
          if !ok {
            return Exception;
          }
        }
      }
    }
    return Done;
  }

  /** One send of the inner loop: at most a chunk. */
  method WriteSome(os: Os, ios: array<Io>, i: nat, buffer: seq<Byte>, ghost start: seq<Io>, ghost before: seq<seq<Byte>>)
    returns (ok: bool)
    requires i < ios.Length && ios[i].size > 0 && AllWriting(start, ios[..], before, os.outgoing, buffer)
    modifies os`script, os`outgoing, ios
    ensures |os.outgoing| == |before|
    ensures ok ==> AllWriting(start, ios[..], before, os.outgoing, buffer) && |os.script| < |old(os.script)|
    ensures forall k | 0 <= k < ios.Length && k != i :: ios[k] == old(ios[k])
  {
    var io := ios[i];
    assert start[i].socketIndex == io.socketIndex;
    var chunkSize := if io.size > MAX_CHUNK_SIZE then MAX_CHUNK_SIZE else io.size;
    ghost var now, after := ios[..], os.outgoing;
    var chunk := buffer[io.data..io.data + chunkSize];
    var answer, n := os.Send(io.socketIndex, chunk);
    if answer != Again && !answer.Bytes? {
      return false;
    }
    ios[i] := io.(data := io.data + n, size := io.size - n);
    assert chunk[..n] == buffer[io.data..io.data + n];
    Taken(start, now, ios[..], before, after, os.outgoing, buffer, i, n);
    ok := true;
  }

  lemma Taken(start: seq<Io>, now: seq<Io>, now': seq<Io>, before: seq<seq<Byte>>, after: seq<seq<Byte>>, after': seq<seq<Byte>>,
              buffer: seq<Byte>, i: nat, n: nat)
    requires AllWriting(start, now, before, after, buffer) && i < |start| && |after'| == |after|
    requires n <= now[i].size && now' == now[i := now[i].(data := now[i].data + n, size := now[i].size - n)]
    requires forall k | 0 <= k < |after| && k != now[i].socketIndex :: after'[k] == after[k]
    requires now[i].socketIndex < |after| && now[i].data + n <= |buffer|
    requires after'[now[i].socketIndex] == after[now[i].socketIndex] + buffer[now[i].data..now[i].data + n]
    ensures AllWriting(start, now', before, after', buffer)
  {
    forall k | 0 <= k < |start|
      ensures Writing(start[k], now'[k], before[start[k].socketIndex], after'[start[k].socketIndex], buffer)
    {
      assert Writing(start[k], now[k], before[start[k].socketIndex], after[start[k].socketIndex], buffer);
      if k == i {
        var a, b, c := start[i].data, now[i].data, now[i].data + n;
        assert buffer[a..c] == buffer[a..b] + buffer[b..c];
      } else {
        assert start[k].socketIndex != start[i].socketIndex;
      }
    }
  }
}
