/** The device side of inference: a forward pass over a batch of positions that writes the key and
    value rows of the active slot and reads them back in attention (src/nn/nn-executor.cpp,
    src/nn/nn-cpu-ops.cpp), with the cache database steps around each layer (src/nn/nn-cpu.cpp,
    src/rocksdb-cache.cpp). */
module Inference {
  import opened Wrappers
  import opened TokenBytes
  import opened Transformer
  import opened PrefixCacheManager

  datatype Buffer = KvBuffer(layer: nat) | PrefixBuffer | LruBuffer

  datatype Content = KvRows(rows: seq<Row>) | PrefixTokens(tokens: seq<Token>) | LruScore(score: nat)

  type Staged = map<Buffer, Content>

  type Committed = map<(CacheId, Buffer), Content>

  ghost function AfterCommit(c: Committed, id: CacheId, s: Staged): Committed {
    c + map b | b in s :: (id, b) := s[b]
  }

  /** Writes are staged per cache id and reach the store all at once. */
  class NnCacheDatabase {
    var committed: Committed
    var stage: map<CacheId, Staged>

    constructor ()
      ensures committed == map[] && stage == map[]
    {
      committed, stage := map[], map[];
    }

    method Write(id: CacheId, buffer: Buffer, content: Content)
      modifies this`stage
      ensures stage == old(stage)[id := (if id in old(stage) then old(stage)[id] else map[])[buffer := content]]
    {
      stage := stage[id := (if id in stage then stage[id] else map[])[buffer := content]];
    }

    method Commit(id: CacheId)
      modifies this
      ensures stage == old(stage) - {id}
      ensures committed == if id in old(stage) then AfterCommit(old(committed), id, old(stage)[id]) else old(committed)
    {
      if id !in stage {
        return;
      }
      var s := stage[id];
      committed := committed + map b | b in s :: (id, b) := s[b];
      stage := stage - {id};
    }

    /** loadMetadata: all records, the highest id first. None is the failed assertion on the length of a prefix. */
    method LoadMetadata() returns (r: Option<seq<(CacheId, DbMetadata)>>)
      requires AllReadable(committed)
      ensures r == None <==> AnyLong(StoredMetas(committed))
      ensures r.Some? ==> MetaMap(r.value) == StoredMetas(committed)
      ensures r.Some? ==> forall i | 0 <= i < |r.value| :: r.value[i].0 in StoredIds(committed) && |r.value[i].1.prefix| < MAX_LEN
      ensures r.Some? ==> forall i, j | 0 <= i < j < |r.value| :: r.value[i].0 > r.value[j].0
    {
      hide StoredIds, StoredMeta, Readable, MetaMap;
      NoMetas();
      var rest := StoredIds(committed);
      var metas: seq<(CacheId, DbMetadata)> := [];
      while rest != {}
        invariant rest <= StoredIds(committed)
        invariant MetaMap(metas) == map id | id in StoredIds(committed) - rest :: StoredMeta(committed, id)
        invariant forall id <- StoredIds(committed) - rest :: |StoredMeta(committed, id).prefix| < MAX_LEN
        invariant forall i | 0 <= i < |metas| :: metas[i].0 in StoredIds(committed) - rest && |metas[i].1.prefix| < MAX_LEN
        invariant forall i, x | 0 <= i < |metas| && x in rest :: metas[i].0 > x
        invariant forall i, j | 0 <= i < j < |metas| :: metas[i].0 > metas[j].0
        decreases |rest|
      {
        ghost var top := Largest(rest);
        var id :| id in rest && forall i <- rest :: i <= id;
        var meta := StoredMeta(committed, id);
        if |meta.prefix| >= MAX_LEN {
          assert StoredMetas(committed)[id] == meta;
          return None;
        }
        MetaMapNext(metas, id, meta);
        metas, rest := metas + [(id, meta)], rest - {id};
      }
      return Some(metas);
    }

    /** The stored rows of a layer; nothing is read for a missing key. */
    method ReadKv(id: CacheId, layer: nat) returns (rows: seq<Row>)
      ensures rows == StoredRows(committed, id, layer)
    {
      if (id, KvBuffer(layer)) in committed {
        var c := committed[(id, KvBuffer(layer))];
        rows := if c.KvRows? then c.rows else [];
      } else {
        rows := [];
      }
    }
  }

  /** The ids that have a score stored, and what is stored for them. */
  function StoredIds(c: Committed): set<CacheId> {
    set k | k in c && k.1 == LruBuffer :: k.0
  }

  function StoredMeta(c: Committed, id: CacheId): DbMetadata
    requires Readable(c, id)
  {
    DbMetadata(c[(id, PrefixBuffer)].tokens, c[(id, LruBuffer)].score)
  }

  predicate Readable(c: Committed, id: CacheId) {
    && (id, LruBuffer) in c && c[(id, LruBuffer)].LruScore?
    && (id, PrefixBuffer) in c && c[(id, PrefixBuffer)].PrefixTokens?
  }

  ghost predicate AllReadable(c: Committed) {
    forall id <- StoredIds(c) :: Readable(c, id)
  }

  /** All metadata in the store. */
  ghost function StoredMetas(c: Committed): map<CacheId, DbMetadata>
    requires AllReadable(c)
  {
    map id | id in StoredIds(c) :: StoredMeta(c, id)
  }

  /** Some record is as long as records get. */
  ghost predicate AnyLong(metas: map<CacheId, DbMetadata>) {
    exists id <- metas :: |metas[id].prefix| >= MAX_LEN
  }

  lemma {:induction false} Largest(ids: set<CacheId>) returns (id: CacheId)
    requires ids != {}
    ensures id in ids && forall i <- ids :: i <= id
  {
    id :| id in ids;
    if ids != {id} {
      var i := Largest(ids - {id});
      assert forall x <- ids :: x == id || x in ids - {id};
      if i > id {
        id := i;
      }
    }
  }

  /** A prefix is recorded and loaded again: that fails exactly from the maximum length on. */
  method FullRecordExample(id: CacheId, tokens: seq<Token>, lru: nat) returns (r: Option<seq<(CacheId, DbMetadata)>>)
    ensures r == None <==> |tokens| >= 8192
    ensures r.Some? ==> MetaMap(r.value) == map[id := DbMetadata(tokens, lru)]
  {
    hide AllReadable, StoredMetas, AnyLong;
    var db := new NnCacheDatabase();
    db.Write(id, PrefixBuffer, PrefixTokens(Capped(tokens)));
    db.Write(id, LruBuffer, LruScore(lru));
    db.Commit(id);
    OneRecord(db.committed, id, Capped(tokens), lru);
    r := db.LoadMetadata();
  }

  lemma OneRecord(c: Committed, id: CacheId, t: seq<Token>, lru: nat)
    requires c == map[(id, PrefixBuffer) := PrefixTokens(t), (id, LruBuffer) := LruScore(lru)]
    ensures AllReadable(c) && (AnyLong(StoredMetas(c)) <==> |t| >= MAX_LEN) && StoredMetas(c) == map[id := DbMetadata(t, lru)]
  {
    assert (id, LruBuffer) in c;
    assert StoredIds(c) == {id};
    assert StoredMetas(c)[id].prefix == t;
  }

  ghost function StoredRows(c: Committed, id: CacheId, layer: nat): seq<Row> {
    if (id, KvBuffer(layer)) in c && c[(id, KvBuffer(layer))].KvRows? then c[(id, KvBuffer(layer))].rows else []
  }

  /** The stored rows of cache `id` start with those of the first `n` of `tokens`. */
  ghost predicate RecordHolds(net: Net, c: Committed, id: CacheId, tokens: seq<Token>, n: nat) {
    n <= |tokens| && forall l | 0 <= l < net.nLayers :: RecordLayerHolds(net, c, id, tokens, n, l)
  }

  ghost predicate RecordLayerHolds(net: Net, c: Committed, id: CacheId, tokens: seq<Token>, n: nat, l: nat)
    requires n <= |tokens|
  {
    var rows := StoredRows(c, id, l);
    n <= |rows| && forall p | 0 <= p < n :: rows[p] == RowAt(net, tokens, l, p)
  }

  class RootLlmInference {
    const net: Net
    const nBatches: nat
    const seqLen: nat
    const kv: array3<Row>
    const tokenPipe: array<Token>
    const db: NnCacheDatabase?
    var logitsPipe: seq<Vec>
    var batchSize: nat
    var position: nat
    var slot: nat
    var cacheSaveId: CacheId
    var cacheLoadId: CacheId
    /** How many positions have been evaluated so far. */
    ghost var evaluated: nat

    constructor (net: Net, nBatches: nat, seqLen: nat, nSlots: nat, db: NnCacheDatabase?)
      requires nSlots > 0
      ensures Valid() && slot == 0 && fresh(kv) && fresh(tokenPipe)
      ensures this.net == net && this.nBatches == nBatches && this.seqLen == seqLen && this.db == db
    {
      this.net, this.nBatches, this.seqLen, this.db := net, nBatches, seqLen, db;
      kv := new Row[nSlots, net.nLayers, seqLen]((s, l, p) => Row([], []));
      tokenPipe := new Token[nBatches];
      logitsPipe, batchSize, position, slot := [], 0, 0, 0;
      cacheSaveId, cacheLoadId, evaluated := CACHE_SKIP, CACHE_SKIP, 0;
    }

    ghost predicate Valid()
      reads this
    {
      && kv.Length1 == net.nLayers && kv.Length2 == seqLen && tokenPipe.Length == nBatches && slot < kv.Length0
      && batchSize <= nBatches
    }

    ghost predicate Loading()
      reads this
    {
      db != null && cacheLoadId != CACHE_SKIP
    }

    ghost predicate Saving()
      reads this
    {
      db != null && cacheSaveId != CACHE_SKIP
    }

    ghost function Database(): set<object> {
      if db != null then {db} else {}
    }

    /** Slot `s` holds the rows of the first `n` of `tokens` in layer `l`. */
    ghost predicate HoldsLayer(s: nat, tokens: seq<Token>, l: nat, n: nat)
      requires s < kv.Length0 && l < kv.Length1 && kv.Length2 == seqLen
      reads kv
    {
      n <= |tokens| && n <= seqLen && forall p | 0 <= p < n :: kv[s, l, p] == RowAt(net, tokens, l, p)
    }

    ghost predicate Holds(s: nat, tokens: seq<Token>, n: nat)
      requires s < kv.Length0 && kv.Length1 == net.nLayers && kv.Length2 == seqLen
      reads kv
    {
      n <= |tokens| && n <= seqLen && forall l | 0 <= l < net.nLayers :: HoldsLayer(s, tokens, l, n)
    }

    /** STEP_SYNC_CACHE_LOAD of a layer: stored rows are copied over the slot's rows. */
    method SyncLoad(layer: nat, ghost tokens: seq<Token>)
      requires Valid() && layer < net.nLayers && position <= |tokens| && position <= seqLen
      requires if Loading() then RecordLayerHolds(net, db.committed, cacheLoadId, tokens, position, layer)
               else HoldsLayer(slot, tokens, layer, position)
      modifies kv
      ensures HoldsLayer(slot, tokens, layer, position) && OnlyLayer(layer)
    {
      if db == null || cacheLoadId == CACHE_SKIP {
        return;
      }
      var rows := db.ReadKv(cacheLoadId, layer);
      var n := if |rows| < seqLen then |rows| else seqLen;
      for p := 0 to n
        invariant forall q | 0 <= q < p :: kv[slot, layer, q] == rows[q]
        invariant OnlyLayer(layer)
      {
        kv[slot, layer, p] := rows[p];
      }
    }

    /** Rows outside layer `layer` of the active slot are as before. */
    twostate predicate OnlyLayer(layer: nat)
      reads this, kv
    {
      forall s, l, p | 0 <= s < kv.Length0 && 0 <= l < kv.Length1 && 0 <= p < kv.Length2 && (s != slot || l != layer) ::
        kv[s, l, p] == old(kv[s, l, p])
    }

    /** The ops of a layer up to the shift ops: every batch row writes its key and value. */
    method WriteRows(layer: nat, x: seq<Vec>, ghost tokens: seq<Token>)
      requires Valid() && layer < net.nLayers && position + batchSize <= |tokens| && position + batchSize <= seqLen
      requires |x| == batchSize && forall j | 0 <= j < batchSize :: x[j] == Hidden(net, tokens, layer, position + j)
      requires HoldsLayer(slot, tokens, layer, position)
      modifies kv
      ensures HoldsLayer(slot, tokens, layer, position + batchSize) && OnlyLayer(layer)
    {
      for j := 0 to batchSize
        invariant HoldsLayer(slot, tokens, layer, position + j) && OnlyLayer(layer)
      {
        kv[slot, layer, position + j] := net.row(layer, position + j, x[j]);
      }
    }

    /** The rows attention at a position reads: those up to the position. */
    method ReadRows(layer: nat, n: nat, ghost tokens: seq<Token>) returns (rows: seq<Row>)
      requires Valid() && layer < net.nLayers && HoldsLayer(slot, tokens, layer, n)
      ensures rows == Rows(net, tokens, layer, n)
    {
      rows := [];
      for p := 0 to n
        invariant rows == Rows(net, tokens, layer, p)
      {
        rows := rows + [kv[slot, layer, p]];
      }
    }

    /** Attention and feed-forward of a layer for the batch. */
    method Attend(layer: nat, x: seq<Vec>, ghost tokens: seq<Token>) returns (y: seq<Vec>)
      requires Valid() && layer < net.nLayers && position + batchSize <= |tokens|
      requires |x| == batchSize && forall j | 0 <= j < batchSize :: x[j] == Hidden(net, tokens, layer, position + j)
      requires HoldsLayer(slot, tokens, layer, position + batchSize)
      ensures |y| == batchSize && forall j | 0 <= j < batchSize :: y[j] == Hidden(net, tokens, layer + 1, position + j)
    {
      y := [];
      for j := 0 to batchSize
        invariant |y| == j && forall i | 0 <= i < j :: y[i] == Hidden(net, tokens, layer + 1, position + i)
      {
        var rows := ReadRows(layer, position + j + 1, tokens);
        y := y + [net.block(layer, position + j, x[j], rows)];
      }
    }

    /** STEP_SYNC_CACHE_SAVE of a layer: the rows before the batch's first position are staged. */
    method SyncSave(layer: nat, ghost tokens: seq<Token>)
      requires Valid() && layer < net.nLayers && HoldsLayer(slot, tokens, layer, position)
      modifies Database()
      ensures db != null ==> db.committed == old(db.committed)
      ensures db != null && !Saving() ==> db.stage == old(db.stage)
      ensures Saving() ==> db.stage == old(db.stage)[cacheSaveId :=
                  (if cacheSaveId in old(db.stage) then old(db.stage)[cacheSaveId] else map[])
                  [KvBuffer(layer) := KvRows(Rows(net, tokens, layer, position))]]
    {
      if db == null || cacheSaveId == CACHE_SKIP {
        return;
      }
      var rows := ReadRows(layer, position, tokens);
      db.Write(cacheSaveId, KvBuffer(layer), KvRows(rows));
    }

    /** The load, operator and save steps of one layer's segments. */
    method ForwardLayer(layer: nat, x: seq<Vec>, ghost tokens: seq<Token>) returns (y: seq<Vec>)
      requires Valid() && layer < net.nLayers && position + batchSize <= |tokens| && position + batchSize <= seqLen
      requires |x| == batchSize && forall j | 0 <= j < batchSize :: x[j] == Hidden(net, tokens, layer, position + j)
      requires if Loading() then RecordLayerHolds(net, db.committed, cacheLoadId, tokens, position, layer)
               else HoldsLayer(slot, tokens, layer, position)
      modifies kv, Database()
      ensures |y| == batchSize && forall j | 0 <= j < batchSize :: y[j] == Hidden(net, tokens, layer + 1, position + j)
      ensures HoldsLayer(slot, tokens, layer, position + batchSize) && OnlyLayer(layer)
      ensures db != null ==> db.committed == old(db.committed)
      ensures db != null && !Saving() ==> db.stage == old(db.stage)
      ensures Saving() ==> db.stage == StageLayer(old(db.stage), tokens, layer)
    {
      SyncLoad(layer, tokens);
      WriteRows(layer, x, tokens);
      y := Attend(layer, x, tokens);
      SyncSave(layer, tokens);
    }

    /** What saving layer `layer` at the current position stages. */
    ghost function StageLayer(stage: map<CacheId, Staged>, tokens: seq<Token>, layer: nat): map<CacheId, Staged>
      requires position <= |tokens|
      reads this`position, this`cacheSaveId
    {
      stage[cacheSaveId := (if cacheSaveId in stage then stage[cacheSaveId] else map[])
                           [KvBuffer(layer) := KvRows(Rows(net, tokens, layer, position))]]
    }

    /** The rows before `position` of the first `n` layers are staged for `cacheSaveId`, and nothing
        else changed in the stage `before`. */
    ghost predicate StagedLayers(before: map<CacheId, Staged>, after: map<CacheId, Staged>, tokens: seq<Token>, n: nat)
      requires position <= |tokens|
      reads this`position, this`cacheSaveId
    {
      var b := if cacheSaveId in before then before[cacheSaveId] else map[];
      && (n > 0 ==> cacheSaveId in after)
      && after.Keys == before.Keys + (if n > 0 then {cacheSaveId} else {})
      && (forall id | id in before && id != cacheSaveId :: after[id] == before[id])
      && (cacheSaveId in after ==>
            forall u: Buffer :: if u.KvBuffer? && u.layer < n
                          then u in after[cacheSaveId] && after[cacheSaveId][u] == KvRows(Rows(net, tokens, u.layer, position))
                          else (u in after[cacheSaveId] <==> u in b) && (u in b ==> after[cacheSaveId][u] == b[u]))
    }

    lemma StageStart(stage: map<CacheId, Staged>, tokens: seq<Token>)
      requires position <= |tokens|
      ensures StagedLayers(stage, stage, tokens, 0)
    {
    }

    lemma StageStep(before: map<CacheId, Staged>, mid: map<CacheId, Staged>, tokens: seq<Token>, n: nat)
      requires position <= |tokens| && StagedLayers(before, mid, tokens, n)
      ensures StagedLayers(before, StageLayer(mid, tokens, n), tokens, n + 1)
    {
    }

    /** The step list of the executor over all layers. */
    method ForwardLayers(x: seq<Vec>, ghost tokens: seq<Token>) returns (y: seq<Vec>)
      requires Valid() && position + batchSize <= |tokens| && position + batchSize <= seqLen
      requires |x| == batchSize && forall j | 0 <= j < batchSize :: x[j] == Hidden(net, tokens, 0, position + j)
      requires if Loading() then RecordHolds(net, db.committed, cacheLoadId, tokens, position)
               else Holds(slot, tokens, position)
      modifies kv, Database()
      ensures |y| == batchSize && forall j | 0 <= j < batchSize :: y[j] == Hidden(net, tokens, net.nLayers, position + j)
      ensures Holds(slot, tokens, position + batchSize) && OnlySlot()
      ensures db != null ==> db.committed == old(db.committed)
      ensures db != null && !Saving() ==> db.stage == old(db.stage)
      ensures Saving() ==> StagedLayers(old(db.stage), db.stage, tokens, net.nLayers)
    {
      hide StagedLayers, StageLayer, RecordLayerHolds, Rows, Hidden;
      y := x;
      ghost var start, end := position, position + batchSize;
      if Saving() {
        StageStart(db.stage, tokens);
      }
      for l := 0 to net.nLayers
        invariant |y| == batchSize && forall j | 0 <= j < batchSize :: y[j] == Hidden(net, tokens, l, position + j)
        invariant forall m | 0 <= m < l :: HoldsLayer(slot, tokens, m, end)
        invariant !Loading() ==> forall m | l <= m < net.nLayers :: HoldsLayer(slot, tokens, m, start)
        invariant OnlySlot()
        invariant db != null ==> db.committed == old(db.committed)
        invariant db != null && !Saving() ==> db.stage == old(db.stage)
        invariant Saving() ==> StagedLayers(old(db.stage), db.stage, tokens, l)
      {
        label L:
        y := ForwardLayer(l, y, tokens);
        if Saving() {
          StageStep(old(db.stage), old@L(db.stage), tokens, l);
        }
        forall m | 0 <= m < net.nLayers && m != l
          ensures m < l ==> HoldsLayer(slot, tokens, m, end)
          ensures m > l && !Loading() ==> HoldsLayer(slot, tokens, m, start)
        {
          assert m < l ==> old@L(HoldsLayer(slot, tokens, m, end));
          assert m > l && !Loading() ==> old@L(HoldsLayer(slot, tokens, m, start));
        }
      }
    }

    /** NnExecutor::forward over a batch: the logits of every batch position are those of the tokens
        evaluated from position 0, and the slot then holds the rows of the batch too. */
    method Forward(ghost tokens: seq<Token>)
      requires Valid() && position + batchSize <= |tokens| && position + batchSize <= seqLen
      requires tokenPipe[..batchSize] == tokens[position..position + batchSize]
      requires if Loading() then RecordHolds(net, db.committed, cacheLoadId, tokens, position)
               else Holds(slot, tokens, position)
      modifies this`logitsPipe, this`evaluated, kv, Database()
      ensures |logitsPipe| == batchSize && evaluated == old(evaluated) + batchSize
      ensures forall j | 0 <= j < batchSize :: logitsPipe[j] == Logits(net, tokens, position + j)
      ensures Holds(slot, tokens, position + batchSize) && OnlySlot()
      ensures db != null ==> db.committed == old(db.committed)
      ensures db != null && !Saving() ==> db.stage == old(db.stage)
      ensures Saving() ==> StagedLayers(old(db.stage), db.stage, tokens, net.nLayers)
    {
      hide StagedLayers, HoldsLayer, RecordLayerHolds;
      var x := [];
      for j := 0 to batchSize
        invariant |x| == j && forall i | 0 <= i < j :: x[i] == Hidden(net, tokens, 0, position + i)
      {
        assert tokenPipe[j] == tokenPipe[..batchSize][j] == tokens[position + j];
        x := x + [net.embed(tokenPipe[j])];
      }
      x := ForwardLayers(x, tokens);
      var logits := [];
      for j := 0 to batchSize
        invariant |logits| == j && forall i | 0 <= i < j :: logits[i] == Logits(net, tokens, position + i)
      {
        logits := logits + [net.head(x[j])];
      }
      logitsPipe, evaluated := logits, evaluated + batchSize;
    }

    /** Rows of other slots are as before. */
    twostate predicate OnlySlot()
      reads this, kv
    {
      forall s, l, p | 0 <= s < kv.Length0 && 0 <= l < kv.Length1 && 0 <= p < kv.Length2 && s != slot ::
        kv[s, l, p] == old(kv[s, l, p])
    }
  }
}
