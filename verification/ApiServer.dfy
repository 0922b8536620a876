/** ApiServer::provideContent of src/dllama-api.cpp with its prefix cache: which slot and database
    record to start from, the scan and decode loops, and what is recorded afterwards. One slot is
    configured (src/app.cpp:31). */
module ApiServer {
  import opened Wrappers
  import opened HatTrie
  import opened TokenBytes
  import opened Transformer
  import opened PrefixCacheManager
  import opened Inference
  import opened Generation

  /** What the database says about cache id `id`. */
  ghost predicate Mirrors(c: Committed, id: CacheId, meta: DbMetadata) {
    && (id, PrefixBuffer) in c && c[(id, PrefixBuffer)] == PrefixTokens(meta.prefix)
    && (id, LruBuffer) in c && c[(id, LruBuffer)] == LruScore(meta.lruScore)
  }

  ghost predicate Recorded(net: Net, c: Committed, id: CacheId, meta: DbMetadata) {
    Mirrors(c, id, meta) && RecordHolds(net, c, id, meta.prefix, |meta.prefix|)
  }

  /** Every database record holds the rows of the prefix its metadata names. */
  ghost predicate AllRecorded(net: Net, c: Committed, metas: map<CacheId, DbMetadata>) {
    forall id <- metas :: Recorded(net, c, id, metas[id])
  }

  /** The record of `id` now has this prefix, the others are as before. */
  ghost predicate Updates(before: map<CacheId, DbMetadata>, after: map<CacheId, DbMetadata>, id: CacheId, prefix: seq<Token>) {
    && after.Keys == before.Keys + {id} && after[id].prefix == Capped(prefix)
    && forall i <- before | i != id :: after[i] == before[i]
  }

  lemma UpdatesTwice(a: map<CacheId, DbMetadata>, b: map<CacheId, DbMetadata>, c: map<CacheId, DbMetadata>, id: CacheId,
                     p: seq<Token>, q: seq<Token>)
    requires Updates(a, b, id, p) && Updates(b, c, id, q)
    ensures Updates(a, c, id, q)
  {
  }

  /** Nothing recorded is lost or cut. */
  ghost predicate RecordsKept(before: map<CacheId, DbMetadata>, after: map<CacheId, DbMetadata>) {
    forall id <- before :: id in after && before[id].prefix <= after[id].prefix
  }

  /** Some record is for these tokens, or for more. */
  ghost predicate RecordFor(metas: map<CacheId, DbMetadata>, tokens: seq<Token>) {
    exists id <- metas :: tokens <= metas[id].prefix
  }

  lemma UpdatesOpen(slots: seq<DeviceSlotStatus>, a: map<CacheId, DbMetadata>, b: map<CacheId, DbMetadata>, id: CacheId,
                    p: seq<Token>, first: Token)
    requires AllOpen(slots, a, first) && Updates(a, b, id, p) && Opens(p, first)
    ensures AllOpen(slots, b, first)
  {
    assert Opens(Capped(p), first);
    forall i | i in b
      ensures Opens(b[i].prefix, first)
    {
      assert i != id ==> b[i] == a[i];
    }
  }

  /** Records only grow, so there is a longest one now exactly when there was one or this is one. */
  lemma UpdatesLong(a: map<CacheId, DbMetadata>, b: map<CacheId, DbMetadata>, id: CacheId, p: seq<Token>)
    requires Updates(a, b, id, p) && (id in a ==> a[id].prefix <= p)
    ensures AnyLong(b) <==> AnyLong(a) || |p| >= MAX_LEN
  {
    assert |b[id].prefix| >= MAX_LEN <==> |p| >= MAX_LEN;
    if AnyLong(a) {
      var i :| i in a && |a[i].prefix| >= MAX_LEN;
      assert |b[i].prefix| >= MAX_LEN;
    }
    if AnyLong(b) {
      var i :| i in b && |b[i].prefix| >= MAX_LEN;
      assert i != id ==> i in a && b[i] == a[i];
    }
  }

  /** What a run leaves in the store: readable records that hold the rows of their prefixes, all of which open
      with the same token. */
  ghost predicate Intact(net: Net, c: Committed, first: Token) {
    && AllReadable(c) && AllRecorded(net, c, StoredMetas(c))
    && forall id <- StoredIds(c) :: id > CACHE_SKIP && Opens(StoredMeta(c, id).prefix, first)
  }

  /** The prompt up to its last token: what is looked up and scanned. */
  function Scanned(req: Request): seq<Token>
    requires req.prompt.Some? && req.prompt.value != []
  {
    req.prompt.value[..|req.prompt.value| - 1]
  }

  /** A request whose prompt goes on from these tokens, at least 128, starts behind them. */
  predicate Behind(tokens: seq<Token>, req: Request, start: nat) {
    req.prompt.Some? && req.prompt.value != [] ==>
      |tokens| >= 128 && tokens <= req.prompt.value[..|req.prompt.value| - 1] ==> |tokens| <= start
  }

  class ApiServer<!S(!new)> {
    const manager: NnPrefixCacheManager
    const inference: RootLlmInference
    const db: NnCacheDatabase?
    const gen: Generator<S>
    const publicPrompt: Text
    /** Every prompt opens with it. */
    const bos: Token
    var state: S

    constructor (inference: RootLlmInference, db: NnCacheDatabase?, metas: seq<(CacheId, DbMetadata)>, gen: Generator<S>,
                 publicPrompt: Text, bos: Token, state: S)
      requires inference.Valid() && inference.db == db && inference.slot == 0 && inference.nBatches > 0
      requires db == null ==> metas == []
      requires forall i | 0 <= i < |metas| :: metas[i].0 > CACHE_SKIP && |metas[i].1.prefix| < MAX_LEN
      requires forall i, j | 0 <= i < j < |metas| :: metas[i].0 != metas[j].0
      requires db != null ==>
                 db.stage == map[] && Intact(inference.net, db.committed, bos) && MetaMap(metas) == StoredMetas(db.committed)
      ensures Valid() && fresh(manager) && fresh(manager.trie) && fresh(manager.trie.nodes)
      ensures this.inference == inference && this.db == db && this.gen == gen && this.publicPrompt == publicPrompt
      ensures this.bos == bos && this.state == state && manager.dbMetas == MetaMap(metas) && manager.AllEntered()
    {
      manager := new NnPrefixCacheManager(1, db != null, metas);
      this.inference, this.db, this.gen, this.publicPrompt := inference, db, gen, publicPrompt;
      this.bos, this.state := bos, state;
      new;
      hide NnPrefixCacheManager.Valid, NnPrefixCacheManager.Compact, NnPrefixCacheManager.AllEntered, HtrieMap.RootUnburst,
           Intact, MetaMap, StoredMetas, Valid;
      StartValid(metas);
    }

    /** What the constructor leaves is in step. */
    lemma StartValid(metas: seq<(CacheId, DbMetadata)>)
      requires Wired() && manager.deviceSlots == FreeSlots(1) && manager.dbMetas == MetaMap(metas)
      requires manager.trie.RootUnburst() || exists k <- manager.trie.contents :: k != []
      requires forall k <- manager.trie.contents :: manager.trie.contents[k].dstType == CacheDb
      requires if db == null then metas == []
               else && db.stage == map[] && Intact(inference.net, db.committed, bos)
                    && MetaMap(metas) == StoredMetas(db.committed)
      ensures Valid()
    {
      hide NnPrefixCacheManager.Valid, NnPrefixCacheManager.Compact, HtrieMap.RootUnburst;
    }

    /** A server process starts: the metadata of the database is loaded, then everything is set up. None is the
        failed assertion on the length of a prefix. */
    static method Open(inference: RootLlmInference, db: NnCacheDatabase?, gen: Generator<S>, publicPrompt: Text, bos: Token,
                       state: S)
      returns (r: Option<ApiServer<S>>)
      requires inference.Valid() && inference.db == db && inference.slot == 0 && inference.nBatches > 0
      requires db != null ==> db.stage == map[] && Intact(inference.net, db.committed, bos)
      ensures r == None <==> db != null && AnyLong(StoredMetas(db.committed))
      ensures r.Some? ==>
                && r.value.Valid() && fresh(r.value) && fresh(r.value.manager) && fresh(r.value.manager.trie)
                && fresh(r.value.manager.trie.nodes) && r.value.inference == inference && r.value.db == db
                && r.value.gen == gen && r.value.publicPrompt == publicPrompt && r.value.bos == bos && r.value.state == state
                && (db != null ==> r.value.manager.dbMetas == StoredMetas(db.committed)) && r.value.manager.AllEntered()
    {
      hide AnyLong, AllRecorded, MetaMap;
      var metas: seq<(CacheId, DbMetadata)> := [];
      if db != null {
        var loaded := db.LoadMetadata();
        if loaded == None {
          return None;
        }
        metas := loaded.value;
      }
      var server := new ApiServer(inference, db, metas, gen, publicPrompt, bos, state);
      return Some(server);
    }

    ghost predicate Wired()
      reads manager, manager.trie, manager.trie.nodes, inference
    {
      && manager.Valid() && manager.Compact() && |manager.deviceSlots| == 1 && manager.hasDb == (db != null)
      && inference.Valid() && inference.db == db && inference.slot == 0 && inference.nBatches > 0
    }

    ghost function Database(): set<object> {
      if db != null then {db} else {}
    }

    ghost predicate Records()
      reads manager`dbMetas, Database()
    {
      db != null ==>
        && db.stage == map[] && AllRecorded(inference.net, db.committed, manager.dbMetas)
        && StoredIds(db.committed) == manager.dbMetas.Keys
    }

    /** What another process can start from, even after an overrun. */
    ghost predicate Recoverable()
      reads manager, manager.trie, manager.trie.nodes, inference, Database()
    {
      Wired() && Records() && AllOpen(manager.deviceSlots, manager.dbMetas, bos)
    }

    lemma RecoverableIntact()
      requires Recoverable() && db != null
      ensures Intact(inference.net, db.committed, bos) && StoredMetas(db.committed) == manager.dbMetas
    {
      forall id | id in StoredIds(db.committed)
        ensures Readable(db.committed, id) && StoredMeta(db.committed, id) == manager.dbMetas[id]
      {
        assert Recorded(inference.net, db.committed, id, manager.dbMetas[id]);
      }
      assert StoredMetas(db.committed) == manager.dbMetas;
    }

    /** Between requests: the slot holds the rows of the prefix recorded for it, and so does every
        database record. */
    ghost predicate Valid()
      reads this, manager, manager.trie, manager.trie.nodes, inference, inference.kv, Database()
    {
      && Recoverable() && manager.Anchored(bos)
      && SlotHolds(manager.deviceSlots[0].prefix, |manager.deviceSlots[0].prefix|)
      && SlotsRecorded(manager.trie.contents, manager.deviceSlots, manager.dbMetas)
    }

    /** The slot holds the rows of the first `n` of `tokens`. */
    ghost predicate SlotHolds(tokens: seq<Token>, n: nat)
      reads inference.kv
    {
      && inference.kv.Length0 > 0 && inference.kv.Length1 == inference.net.nLayers
      && inference.kv.Length2 == inference.seqLen && inference.Holds(0, tokens, n)
    }

    /** The rows a forward pass at `pos` starts from. */
    ghost predicate Start(tokens: seq<Token>, pos: nat, loadFrom: CacheId)
      reads inference.kv, Database()
    {
      if db != null && loadFrom != CACHE_SKIP then RecordHolds(inference.net, db.committed, loadFrom, tokens, pos)
      else SlotHolds(tokens, pos)
    }

    /** Rows hold for any tokens with the same leading ones. */
    lemma HoldsCausal(a: seq<Token>, b: seq<Token>, n: nat, m: nat)
      requires SlotHolds(a, n)
      requires m <= n && m <= |b| && a[..m] == b[..m]
      ensures SlotHolds(b, m)
    {
      forall l | 0 <= l < inference.net.nLayers
        ensures inference.HoldsLayer(0, b, l, m)
      {
        assert inference.HoldsLayer(0, a, l, n);
        forall p | 0 <= p < m {
          RowAtCausal(inference.net, a, b, l, p, m);
        }
      }
    }

    lemma RecordCausal(c: Committed, id: CacheId, a: seq<Token>, b: seq<Token>, n: nat, m: nat)
      requires RecordHolds(inference.net, c, id, a, n)
      requires m <= n && m <= |b| && a[..m] == b[..m]
      ensures RecordHolds(inference.net, c, id, b, m)
    {
      forall l | 0 <= l < inference.net.nLayers
        ensures RecordLayerHolds(inference.net, c, id, b, m, l)
      {
        assert RecordLayerHolds(inference.net, c, id, a, n, l);
        forall p | 0 <= p < m {
          RowAtCausal(inference.net, a, b, l, p, m);
        }
      }
    }

    /** What a looked-up entry is worth: the slot or the record holds the matched rows of the prompt. */
    lemma HitHolds(prompt: seq<Token>, end: nat, dst: NnCacheDst)
      requires Valid() && end < |prompt|
      requires exists k <- manager.trie.contents ::
                 dst == manager.trie.contents[k].(matchLen := dst.matchLen) && manager.Shared(k, prompt[..end]) == dst.matchLen
      ensures dst.matchLen <= end && dst.id < manager.nextCacheId
      ensures dst.dstType == CacheDeviceSlot ==> dst.slot == 0
      ensures dst.dstType == CacheDeviceSlot ==> SlotHolds(prompt, dst.matchLen)
      ensures dst.dstType == CacheDb ==>
                db != null && dst.id != CACHE_SKIP && RecordHolds(inference.net, db.committed, dst.id, prompt, dst.matchLen)
      ensures dst.dstType != CacheMiss && dst.matchLen == dst.prefixLen && dst.id in manager.dbMetas ==>
                manager.dbMetas[dst.id].prefix <= prompt[..end]
    {
      hide HtrieMap.Valid, HtrieMap.RootUnburst, Encode, RootLlmInference.HoldsLayer, RecordLayerHolds,
           NnPrefixCacheManager.Compact, AllOpen, StoredIds;
      var k :| k in manager.trie.contents && dst == manager.trie.contents[k].(matchLen := dst.matchLen)
        && manager.Shared(k, prompt[..end]) == dst.matchLen;
      assert EntryBacked(manager.trie.contents, manager.deviceSlots, manager.dbMetas, k);
      var stored := EntryTokens(manager.deviceSlots, manager.dbMetas, manager.trie.contents[k]);
      assert stored[..dst.matchLen] == prompt[..end][..dst.matchLen] == prompt[..dst.matchLen];
      if dst.dstType == CacheDeviceSlot {
        HoldsCausal(stored, prompt, |stored|, dst.matchLen);
      } else if dst.dstType == CacheDb {
        assert Recorded(inference.net, db.committed, dst.id, manager.dbMetas[dst.id]);
        RecordCausal(db.committed, dst.id, stored, prompt, |stored|, dst.matchLen);
      }
    }

    /** No hash node is on the way of the walk for `q`, or no entry shares 128 tokens with it. */
    ghost predicate Missed(q: seq<Token>)
      reads manager, manager.trie, manager.trie.nodes
    {
      || (forall n <- manager.trie.nodes :: !manager.trie.OnQuery(n, Encode(q)))
      || forall k <- manager.trie.contents :: manager.Shared(k, q) < 128
    }

    /** Start where the longest shared prefix ends. */
    ghost predicate Begins(q: seq<Token>, start: nat)
      reads manager, manager.trie, manager.trie.nodes
    {
      if Missed(q) then start == 0
      else
        && start >= 128 && (forall k <- manager.trie.contents :: manager.Shared(k, q) <= start)
        && exists k <- manager.trie.contents :: manager.Shared(k, q) == start
    }

    /** A database entry is loaded. An entry that is shared to its end is continued under its id, if it has one;
        otherwise there is a fresh id, with a database. */
    ghost predicate Planned(q: seq<Token>, start: nat, loadFrom: CacheId, saveTo: CacheId)
      reads manager, manager.trie, manager.trie.nodes
    {
      var free := if db != null then manager.nextCacheId else 0;
      if Missed(q) then loadFrom == 0 && saveTo == free
      else exists k <- manager.trie.contents ::
             var e := manager.trie.contents[k];
             && manager.Shared(k, q) == start && loadFrom == (if e.dstType == CacheDb then e.id else 0)
             && saveTo == if start == e.prefixLen && e.id != 0 then e.id else free
    }

    /** The start is behind everything that was entered and that the query goes on from. */
    lemma Continues(entered: seq<Token>, p: seq<Token>, q: seq<Token>, start: nat)
      requires Wired() && Encode(entered) in manager.trie.contents && p <= entered && p <= q && |p| >= 128
      requires Begins(q, start) && |manager.dbMetas| < 16383
      ensures |p| <= start
    {
      hide NnPrefixCacheManager.Valid, Encode, HtrieMap.RootUnburst, HtrieMap.OnQuery, NnPrefixCacheManager.Shared;
      manager.SharesStart(entered, p, q);
      manager.UnburstMissesNothing(q);
    }

    /** What a lookup says, in these terms. */
    lemma FoundPlanned(q: seq<Token>, dst: NnCacheDst)
      requires dst.dstType == CacheMiss <==> Missed(q)
      requires dst.dstType != CacheMiss ==>
                 && (forall k <- manager.trie.contents :: manager.Shared(k, q) <= dst.matchLen)
                 && exists k <- manager.trie.contents ::
                      dst == manager.trie.contents[k].(matchLen := dst.matchLen) && manager.Shared(k, q) == dst.matchLen
      ensures var e := if db != null then manager.nextCacheId else 0;
              if dst.dstType == CacheMiss then Begins(q, 0) && Planned(q, 0, 0, e)
              else
                && Begins(q, dst.matchLen)
                && Planned(q, dst.matchLen, if dst.dstType == CacheDb then dst.id else 0,
                           if dst.matchLen == dst.prefixLen && dst.id != 0 then dst.id else e)
    {
      hide HtrieMap.OnQuery, Encode, NnPrefixCacheManager.Shared;
    }

    /** The lookup and what follows from it: where to start, what to load, and where to save. */
    method Plan(prompt: seq<Token>, end: nat) returns (slot: nat, start: nat, loadFrom: CacheId, saveTo: CacheId)
      requires Valid() && end < |prompt| && Opens(prompt, bos)
      modifies manager`nextCacheId
      ensures Recoverable()
      ensures saveTo in manager.dbMetas ==> manager.dbMetas[saveTo].prefix <= prompt[..end]
      ensures slot == 0 && start <= end && Start(prompt, start, loadFrom)
      ensures old(Begins(prompt[..end], start)) && old(Planned(prompt[..end], start, loadFrom, saveTo))
      ensures saveTo < manager.nextCacheId && (db != null ==> saveTo != CACHE_SKIP)
    {
      hide HtrieMap.Valid, HtrieMap.RootUnburst, HtrieMap.OnQuery, Encode, RootLlmInference.HoldsLayer, RecordLayerHolds,
           RecordHolds, Consistent, AllRecorded, CommonPrefix, AllOpen, StoredIds, TokenKey, SlotsRecorded, Begins, Planned,
           NnPrefixCacheManager.Compact, NnPrefixCacheManager.Shared;
      start, loadFrom, saveTo := 0, CACHE_SKIP, CACHE_SKIP;
      HoldsCausal(manager.deviceSlots[0].prefix, prompt, |manager.deviceSlots[0].prefix|, 0);
      manager.NeverNull(bos, prompt[..end]);
      var found := manager.Lookup(prompt[..end]);
      var dst := found.value;
      FoundPlanned(prompt[..end], dst);
      if dst.dstType != CacheMiss {
        HitHolds(prompt, end, dst);
        start := dst.matchLen;
        if dst.dstType == CacheDeviceSlot {
          slot := dst.slot;
        } else {
          slot := manager.PickSlot();
          loadFrom := dst.id;
        }
        if dst.matchLen == dst.prefixLen {
          saveTo := dst.id;
        }
      } else {
        slot := manager.PickSlot();
      }
      if saveTo == CACHE_SKIP {
        saveTo := manager.GetCacheId();
      }
    }

    /** One forward pass of the server: its tokens are `promptTokens[pos..pos + batchSize]`. */
    method Evaluate(promptTokens: array<Token>, ghost tokens: seq<Token>, pos: nat, batchSize: nat, saveTo: CacheId,
                    loadFrom: CacheId)
      requires Wired() && promptTokens != inference.tokenPipe && 0 < batchSize <= inference.nBatches
      requires pos + batchSize <= |tokens| <= promptTokens.Length && tokens == promptTokens[..|tokens|]
      requires pos + batchSize <= inference.seqLen && Start(tokens, pos, loadFrom)
      modifies inference`batchSize, inference`position, inference`cacheSaveId, inference`cacheLoadId, inference`logitsPipe, inference`evaluated,
               inference.kv, inference.tokenPipe, Database()
      ensures inference.Valid() && SlotHolds(tokens, pos + batchSize)
      ensures |inference.logitsPipe| == batchSize && inference.evaluated == old(inference.evaluated) + batchSize
      ensures inference.logitsPipe[batchSize - 1] == Logits(inference.net, tokens, pos + batchSize - 1)
      ensures db != null ==> db.committed == old(db.committed)
      ensures saveTo == CACHE_SKIP && db != null ==> db.stage == old(db.stage)
      ensures inference.position == pos && inference.cacheSaveId == saveTo
      ensures saveTo != CACHE_SKIP && db != null ==>
                inference.StagedLayers(old(db.stage), db.stage, tokens, inference.net.nLayers)
    {
      hide NnPrefixCacheManager.Valid, RootLlmInference.Holds, RootLlmInference.StagedLayers, RecordHolds, Logits;
      inference.batchSize, inference.position := batchSize, pos;
      inference.cacheSaveId, inference.cacheLoadId := saveTo, loadFrom;
      for j := 0 to batchSize
        modifies inference.tokenPipe
        invariant forall i | 0 <= i < j :: inference.tokenPipe[i] == tokens[pos + i]
      {
        assert promptTokens[pos + j] == promptTokens[..|tokens|][pos + j];
        inference.tokenPipe[j] := promptTokens[pos + j];
      }
      assert inference.tokenPipe[..batchSize] == tokens[pos..pos + batchSize];
      inference.Forward(tokens);
    }

    /** The scan loop: the prompt up to its last token, in batches. */
    method Scan(promptTokens: array<Token>, slot: nat, start: nat, end: nat, loadFrom: CacheId)
      requires Wired() && slot == 0 && promptTokens != inference.tokenPipe
      requires start <= end < promptTokens.Length && end <= inference.seqLen && Start(promptTokens[..], start, loadFrom)
      modifies inference`batchSize, inference`position, inference`slot, inference`cacheSaveId, inference`cacheLoadId,
               inference`logitsPipe, inference`evaluated, inference.kv, inference.tokenPipe, Database()
      ensures Wired() && Start(promptTokens[..], end, if end == start then loadFrom else CACHE_SKIP)
      ensures db != null ==> db.stage == old(db.stage) && db.committed == old(db.committed)
      ensures old(Records()) ==> Records()
      ensures inference.evaluated == old(inference.evaluated) + (end - start)
    {
      hide NnPrefixCacheManager.Valid, SlotHolds, RootLlmInference.StagedLayers, RecordHolds, Logits;
      var pos := start;
      while pos < end
        invariant Wired() && start <= pos <= end
        invariant Start(promptTokens[..], pos, if pos == start then loadFrom else CACHE_SKIP)
        invariant db != null ==> db.stage == old(db.stage) && db.committed == old(db.committed)
        invariant inference.evaluated == old(inference.evaluated) + (pos - start)
      {
        var batchSize := if end - pos < inference.nBatches then end - pos else inference.nBatches;
        inference.slot := slot;
        Evaluate(promptTokens, promptTokens[..], pos, batchSize, CACHE_SKIP, if pos == start then loadFrom else CACHE_SKIP);
        pos := pos + batchSize;
      }
    }

    /** The database after committing what a forward pass at `n` and the metadata update staged. */
    lemma CommitKeeps(c: Committed, metas: map<CacheId, DbMetadata>, s: Staged, id: CacheId, tokens: seq<Token>, n: nat, lru: nat)
      requires AllRecorded(inference.net, c, metas) && n <= |tokens|
      requires forall l: nat | l < inference.net.nLayers ::
                 KvBuffer(l) in s && s[KvBuffer(l)] == KvRows(Rows(inference.net, tokens, l, n))
      requires PrefixBuffer in s && s[PrefixBuffer] == PrefixTokens(Capped(tokens[..n]))
      requires LruBuffer in s && s[LruBuffer] == LruScore(lru)
      ensures AllRecorded(inference.net, AfterCommit(c, id, s), metas[id := DbMetadata(Capped(tokens[..n]), lru)])
    {
      hide AfterCommit, Recorded, Capped;
      var metas' := metas[id := DbMetadata(Capped(tokens[..n]), lru)];
      forall i | i in metas'
        ensures Recorded(inference.net, AfterCommit(c, id, s), i, metas'[i])
      {
        if i == id {
          CommitNew(c, s, id, tokens, n, lru);
        } else {
          CommitOld(c, s, id, i, metas[i]);
        }
      }
    }

    lemma CommitNew(c: Committed, s: Staged, id: CacheId, tokens: seq<Token>, n: nat, lru: nat)
      requires n <= |tokens|
      requires forall l: nat | l < inference.net.nLayers ::
                 KvBuffer(l) in s && s[KvBuffer(l)] == KvRows(Rows(inference.net, tokens, l, n))
      requires PrefixBuffer in s && s[PrefixBuffer] == PrefixTokens(Capped(tokens[..n]))
      requires LruBuffer in s && s[LruBuffer] == LruScore(lru)
      ensures Recorded(inference.net, AfterCommit(c, id, s), id, DbMetadata(Capped(tokens[..n]), lru))
    {
      hide Capped;
      var t := Capped(tokens[..n]);
      forall l: nat | l < inference.net.nLayers
        ensures RecordLayerHolds(inference.net, AfterCommit(c, id, s), id, t, |t|, l)
      {
        forall p | 0 <= p < |t|
          ensures Rows(inference.net, tokens, l, n)[p] == RowAt(inference.net, t, l, p)
        {
          RowsAt(inference.net, tokens, l, n, p);
          assert t[..|t|] == tokens[..n][..|t|] == tokens[..|t|];
          RowAtCausal(inference.net, tokens, t, l, p, |t|);
        }
      }
    }

    lemma CommitOld(c: Committed, s: Staged, id: CacheId, i: CacheId, meta: DbMetadata)
      requires i != id && Recorded(inference.net, c, i, meta)
      ensures Recorded(inference.net, AfterCommit(c, id, s), i, meta)
    {
      forall l: nat | l < inference.net.nLayers
        ensures RecordLayerHolds(inference.net, AfterCommit(c, id, s), i, meta.prefix, |meta.prefix|, l)
      {
        assert RecordLayerHolds(inference.net, c, i, meta.prefix, |meta.prefix|, l);
      }
    }

    lemma StoredIdsGrow(c: Committed, id: CacheId, s: Staged)
      requires LruBuffer in s
      ensures StoredIds(AfterCommit(c, id, s)) == StoredIds(c) + {id}
    {
      var c' := AfterCommit(c, id, s);
      assert (id, LruBuffer) in c';
      forall i
        ensures i in StoredIds(c') <==> i in StoredIds(c) + {id}
      {
        assert (i, LruBuffer) in c' <==> (i, LruBuffer) in c || i == id;
      }
    }

    /** The entries after a record's update, and after the slot's. */
    ghost function WithRecord(c: map<Key, NnCacheDst>, metas: map<CacheId, DbMetadata>, id: CacheId, prefix: seq<Token>)
      : map<Key, NnCacheDst>
    {
      MetaUpdated(c, metas, id, Capped(prefix), 0).0
    }

    ghost function WithSlot(c: map<Key, NnCacheDst>, slots: seq<DeviceSlotStatus>, prefix: seq<Token>, id: CacheId)
      : map<Key, NnCacheDst>
      requires slots != []
    {
      SlotUpdated(c, slots, 0, Capped(prefix), id, 0).0
    }

    /** updateNnCacheDatabaseMetadata followed by commit. */
    method SaveRecord(id: CacheId, prefix: seq<Token>, ghost tokens: seq<Token>)
      requires Wired()
      requires db != null && CACHE_SKIP < id < manager.nextCacheId && prefix <= tokens
      requires inference.position == |prefix| && inference.cacheSaveId == id
      requires AllRecorded(inference.net, db.committed, manager.dbMetas) && StoredIds(db.committed) == manager.dbMetas.Keys
      requires inference.StagedLayers(map[], db.stage, tokens, inference.net.nLayers)
      modifies manager`dbMetas, manager`nextLruScore, manager.trie, manager.trie.nodes, Database()
      ensures Wired() && Records() && fresh(manager.trie.nodes - old(manager.trie.nodes))
      ensures Updates(old(manager.dbMetas), manager.dbMetas, id, prefix)
      ensures manager.trie.contents == WithRecord(old(manager.trie.contents), old(manager.dbMetas), id, prefix)
    {
      hide HtrieMap.Valid, HtrieMap.RootUnburst, Encode, Consistent, RecordLayerHolds, Rows, Capped, AllRecorded,
           AfterCommit, MetaUpdated, RootLlmInference.StagedLayers, StoredIds, NnPrefixCacheManager.Compact,
           NnPrefixCacheManager.Valid;
      ScoreApart(manager.trie.contents, manager.deviceSlots, 0, manager.dbMetas, id, Capped(prefix), manager.nextLruScore, 0);
      var staged := manager.UpdateDbMetadata(id, prefix);
      CommitSoon(id, prefix, tokens, staged.value.lruScore, old(manager.dbMetas));
      db.Write(id, PrefixBuffer, PrefixTokens(staged.value.prefix));
      db.Write(id, LruBuffer, LruScore(staged.value.lruScore));
      db.Commit(id);
    }

    lemma CommitSoon(id: CacheId, prefix: seq<Token>, tokens: seq<Token>, lru: nat, metas: map<CacheId, DbMetadata>)
      requires db != null && prefix <= tokens && inference.position == |prefix| && inference.cacheSaveId == id
      requires AllRecorded(inference.net, db.committed, metas)
      requires inference.StagedLayers(map[], db.stage, tokens, inference.net.nLayers)
      ensures db.stage.Keys <= {id}
      ensures var s := (if id in db.stage then db.stage[id] else map[])
                         [PrefixBuffer := PrefixTokens(Capped(prefix))][LruBuffer := LruScore(lru)];
              && AllRecorded(inference.net, AfterCommit(db.committed, id, s), metas[id := DbMetadata(Capped(prefix), lru)])
              && StoredIds(AfterCommit(db.committed, id, s)) == StoredIds(db.committed) + {id}
    {
      hide Rows, AllRecorded, AfterCommit;
      assert tokens[..|prefix|] == prefix;
      var s := (if id in db.stage then db.stage[id] else map[])
                 [PrefixBuffer := PrefixTokens(Capped(prefix))][LruBuffer := LruScore(lru)];
      CommitKeeps(db.committed, metas, s, id, tokens, |prefix|, lru);
      StoredIdsGrow(db.committed, id, s);
    }

    ghost predicate RecordEntered(metas: map<CacheId, DbMetadata>, metas': map<CacheId, DbMetadata>, c: map<Key, NnCacheDst>,
                                  c': map<Key, NnCacheDst>, id: CacheId, prefix: seq<Token>)
    {
      Updates(metas, metas', id, prefix) && c' == WithRecord(c, metas, id, prefix)
    }

    /** One iteration of the decode loop up to the sampling: the pass at `pos`, and at the end of the
        prompt the record of the prompt's rows. */
    method EvaluateToken(promptTokens: array<Token>, pos: nat, end: nat, start: nat, loadFrom: CacheId, saveTo: CacheId)
      requires Wired() && Records() && promptTokens != inference.tokenPipe
      requires end <= pos < inference.seqLen && pos < promptTokens.Length
      requires Start(promptTokens[..pos + 1], pos, if pos == start then loadFrom else CACHE_SKIP)
      requires saveTo < manager.nextCacheId && (db != null ==> saveTo != CACHE_SKIP)
      modifies inference`batchSize, inference`position, inference`cacheSaveId, inference`cacheLoadId, inference`logitsPipe, inference`evaluated,
               inference.kv, inference.tokenPipe, Database(),
               manager`dbMetas, manager`nextLruScore, manager.trie, manager.trie.nodes
      ensures Wired() && Records() && fresh(manager.trie.nodes - old(manager.trie.nodes))
      ensures SlotHolds(promptTokens[..pos + 1], pos + 1)
      ensures inference.logitsPipe == [Logits(inference.net, promptTokens[..pos + 1], pos)]
      ensures if db != null && pos == end
              then RecordEntered(old(manager.dbMetas), manager.dbMetas, old(manager.trie.contents), manager.trie.contents, saveTo, promptTokens[..end])
              else manager.dbMetas == old(manager.dbMetas) && manager.trie.contents == old(manager.trie.contents)
      ensures inference.evaluated == old(inference.evaluated) + 1
    {
      hide HtrieMap.Valid, HtrieMap.RootUnburst, Encode, Consistent, SlotHolds, RootLlmInference.StagedLayers,
           RecordHolds, Logits, AllRecorded, WithRecord, NnPrefixCacheManager.Compact;
      ghost var tokens := promptTokens[..pos + 1];
      Evaluate(promptTokens, tokens, pos, 1, if pos == end then saveTo else CACHE_SKIP,
               if pos == start then loadFrom else CACHE_SKIP);
      if pos == end {
        if db != null && saveTo != CACHE_SKIP {
          SaveRecord(saveTo, promptTokens[..pos], tokens);
        }
      }
    }

    /** The rest of an iteration: sample from the logits, append the token, ask the detector. */
    method SampleToken(promptTokens: array<Token>, pos: nat, ghost limit: nat) returns (delta: Text, stop: bool)
      requires pos < limit && pos + 1 < promptTokens.Length && promptTokens != inference.tokenPipe
      requires inference.logitsPipe == [Logits(inference.net, promptTokens[..pos + 1], pos)]
      modifies this`state, promptTokens
      ensures promptTokens[..pos + 1] == old(promptTokens[..pos + 1])
      ensures Complete(inference.net, gen, old(promptTokens[..pos + 1]), old(state), limit)
           == if stop then Completion(promptTokens[..pos + 2], state, delta)
              else var c := Complete(inference.net, gen, promptTokens[..pos + 2], state, limit); c.(text := delta + c.text)
    {
      hide Logits;
      ghost var tokens := promptTokens[..pos + 1];
      var r := gen.next(state, inference.logitsPipe[0]);
      state := r.state;
      promptTokens[pos + 1] := r.token;
      delta, stop := r.delta, r.stop;
      assert promptTokens[..pos + 2] == tokens + [r.token];
    }

    /** What an iteration at `pos` starts from: at the end of the prompt what the scan left, and after
        that the rows the previous iterations wrote. */
    ghost predicate Ready(tokens: seq<Token>, pos: nat, end: nat, start: nat, loadFrom: CacheId)
      reads inference.kv, Database(), manager`dbMetas
    {
      if pos == end then Start(tokens, pos, if pos == start then loadFrom else CACHE_SKIP)
      else SlotHolds(tokens, pos)
    }

    method DecodeStep(promptTokens: array<Token>, pos: nat, end: nat, ghost limit: nat, start: nat, loadFrom: CacheId,
                      saveTo: CacheId)
      returns (delta: Text, stop: bool)
      requires Wired() && Records() && promptTokens != inference.tokenPipe
      requires start <= end <= pos < limit <= inference.seqLen < promptTokens.Length
      requires Ready(promptTokens[..pos + 1], pos, end, start, loadFrom)
      requires saveTo < manager.nextCacheId && (db != null ==> saveTo != CACHE_SKIP)
      modifies this`state, promptTokens,
               inference`batchSize, inference`position, inference`cacheSaveId, inference`cacheLoadId, inference`logitsPipe, inference`evaluated,
               inference.kv, inference.tokenPipe, Database(),
               manager`dbMetas, manager`nextLruScore, manager.trie, manager.trie.nodes
      ensures Wired() && Records() && fresh(manager.trie.nodes - old(manager.trie.nodes))
      ensures Ready(promptTokens[..pos + 2], pos + 1, end, start, loadFrom)
      ensures Complete(inference.net, gen, old(promptTokens[..pos + 1]), old(state), limit)
           == if stop then Completion(promptTokens[..pos + 2], state, delta)
              else var c := Complete(inference.net, gen, promptTokens[..pos + 2], state, limit); c.(text := delta + c.text)
      ensures promptTokens[..pos + 1] == old(promptTokens[..pos + 1])
      ensures if db != null && pos == end
              then RecordEntered(old(manager.dbMetas), manager.dbMetas, old(manager.trie.contents), manager.trie.contents, saveTo, promptTokens[..end])
              else manager.dbMetas == old(manager.dbMetas) && manager.trie.contents == old(manager.trie.contents)
      ensures inference.evaluated == old(inference.evaluated) + 1
    {
      hide RecordEntered, Wired, SlotHolds, Records, Logits, Complete;
      ghost var tokens := promptTokens[..pos + 1];
      EvaluateToken(promptTokens, pos, end, start, loadFrom, saveTo);
      delta, stop := SampleToken(promptTokens, pos, limit);
      assert promptTokens[..pos + 2][..pos + 1] == promptTokens[..pos + 1] == tokens[..pos + 1];
      HoldsCausal(tokens, promptTokens[..pos + 2], pos + 1, pos + 1);
    }

    /** The decode loop: sample, append, stop at the detector's EOS or at `limit`. */
    method Decode(promptTokens: array<Token>, end: nat, limit: nat, start: nat, loadFrom: CacheId, saveTo: CacheId)
      returns (pos: nat, text: Text)
      requires Wired() && Records() && promptTokens != inference.tokenPipe
      requires start <= end < limit <= inference.seqLen < promptTokens.Length
      requires Ready(promptTokens[..end + 1], end, end, start, loadFrom)
      requires saveTo < manager.nextCacheId && (db != null ==> saveTo != CACHE_SKIP)
      modifies this`state, promptTokens,
               inference`batchSize, inference`position, inference`cacheSaveId, inference`cacheLoadId, inference`logitsPipe, inference`evaluated,
               inference.kv, inference.tokenPipe, Database(),
               manager`dbMetas, manager`nextLruScore, manager.trie, manager.trie.nodes
      ensures Wired() && Records() && fresh(manager.trie.nodes - old(manager.trie.nodes))
      ensures end < pos <= limit && SlotHolds(promptTokens[..pos + 1], pos)
      ensures Completion(promptTokens[..pos + 1], state, text)
           == Complete(inference.net, gen, old(promptTokens[..end + 1]), old(state), limit)
      ensures promptTokens[..end + 1] == old(promptTokens[..end + 1])
      ensures MetasAfter(old(manager.dbMetas), manager.dbMetas, old(manager.trie.contents), manager.trie.contents, saveTo, promptTokens[..end])
      ensures inference.evaluated == old(inference.evaluated) + (pos - end)
    {
      hide RecordEntered, Wired, SlotHolds, Records, Logits, Complete, Start;
      ghost var full := Complete(inference.net, gen, promptTokens[..end + 1], state, limit);
      pos, text := end, [];
      while pos < limit
        invariant end <= pos <= limit
        invariant Wired() && Records() && fresh(manager.trie.nodes - old(manager.trie.nodes))
        invariant Ready(promptTokens[..pos + 1], pos, end, start, loadFrom)
        invariant var c := Complete(inference.net, gen, promptTokens[..pos + 1], state, limit);
                  full == c.(text := text + c.text)
        invariant promptTokens[..end + 1] == old(promptTokens[..end + 1])
        invariant if pos == end then manager.dbMetas == old(manager.dbMetas) && manager.trie.contents == old(manager.trie.contents)
                  else MetasAfter(old(manager.dbMetas), manager.dbMetas, old(manager.trie.contents), manager.trie.contents, saveTo, promptTokens[..end])
        invariant inference.evaluated == old(inference.evaluated) + (pos - end)
      {
        ghost var before := promptTokens[..pos + 1];
        var delta, stop := DecodeStep(promptTokens, pos, end, limit, start, loadFrom, saveTo);
        assert promptTokens[..end + 1] == promptTokens[..pos + 1][..end + 1] == before[..end + 1];
        pos := pos + 1;
        text := text + delta;
        if stop {
          break;
        }
      }
      CompleteAtLimit(promptTokens[..pos + 1], limit);
    }

    lemma CompleteAtLimit(tokens: seq<Token>, limit: nat)
      requires tokens != []
      ensures |tokens| > limit ==> Complete(inference.net, gen, tokens, state, limit) == Completion(tokens, state, [])
    {
    }

    /** What follows the decode loop: with a database the rows of the answer are saved, then the slot
        and the database record take the new prefix. */
    method RecordAnswer(slot: nat, promptTokens: array<Token>, pos: nat, saveTo: CacheId) returns (overrun: bool)
      requires Recoverable() && promptTokens != inference.tokenPipe
      requires slot == 0 && 0 < pos <= inference.seqLen < promptTokens.Length && promptTokens[0] == bos
      requires SlotHolds(promptTokens[..pos + 1], pos)
      requires saveTo < manager.nextCacheId && (db != null ==> saveTo != CACHE_SKIP)
      modifies inference`batchSize, inference`position, inference`cacheSaveId, inference`cacheLoadId, inference`logitsPipe, inference`evaluated,
               inference.kv, inference.tokenPipe, Database(), manager`deviceSlots,
               manager`dbMetas, manager`nextLruScore, manager.trie, manager.trie.nodes
      ensures overrun == Overruns(db != null, inference.seqLen, promptTokens[..pos + 1])
      ensures if overrun then Recoverable() else Valid()
      ensures fresh(manager.trie.nodes - old(manager.trie.nodes))
      ensures overrun ==> manager.dbMetas == old(manager.dbMetas)
      ensures !overrun ==>
                SlotEntered(old(manager.dbMetas), manager.dbMetas, old(manager.trie.contents), manager.trie.contents,
                            old(manager.deviceSlots), if pos < 128 then CACHE_SKIP else saveTo, promptTokens[..pos])
      ensures !overrun ==> Encode(Capped(promptTokens[..pos])) in manager.trie.contents
      ensures inference.evaluated == old(inference.evaluated) + if !overrun && db != null && pos >= 128 then 1 else 0
    {
      hide NnPrefixCacheManager.Valid, SlotHolds, RootLlmInference.StagedLayers, RecordHolds, Logits, AllRecorded, Valid, AllOpen,
           SlotEntered;
      ghost var tokens := promptTokens[..pos + 1];
      var saveTo' := if pos < MIN_LEN then CACHE_SKIP else saveTo;
      if db != null && saveTo' != CACHE_SKIP {
        if pos >= inference.seqLen {
          return true;
        }
        Evaluate(promptTokens, tokens, pos, 1, saveTo', CACHE_SKIP);
        HoldsCausal(tokens, tokens, pos + 1, pos);
      }
      overrun := false;
      assert tokens[..pos] == promptTokens[..pos];
      RecordPrefix(slot, promptTokens[..pos], tokens, saveTo');
    }

    /** The slot's entry after its update, then the record's where there is an id for it. */
    ghost predicate SlotEntered(metas: map<CacheId, DbMetadata>, metas': map<CacheId, DbMetadata>, c: map<Key, NnCacheDst>,
                                c': map<Key, NnCacheDst>, slots: seq<DeviceSlotStatus>, id: CacheId, prefix: seq<Token>)
      requires slots != []
    {
      && Encode(Capped(prefix)) in c'
      && if id == CACHE_SKIP then metas' == metas && c' == WithSlot(c, slots, prefix, id)
         else MetasAfter(metas, metas', WithSlot(c, slots, prefix, id), c', id, prefix)
    }

    /** The slot and the database record take the new prefix. */
    method RecordPrefix(slot: nat, prefix: seq<Token>, ghost tokens: seq<Token>, saveTo: CacheId)
      requires Wired() && AllOpen(manager.deviceSlots, manager.dbMetas, bos)
      requires slot == 0 && prefix != [] && prefix <= tokens && saveTo < manager.nextCacheId && |prefix| <= inference.seqLen
      requires SlotHolds(tokens, |prefix|) && Opens(prefix, bos)
      requires if db != null && saveTo != CACHE_SKIP then
                 && inference.position == |prefix| && inference.cacheSaveId == saveTo
                 && AllRecorded(inference.net, db.committed, manager.dbMetas)
                 && StoredIds(db.committed) == manager.dbMetas.Keys
                 && inference.StagedLayers(map[], db.stage, tokens, inference.net.nLayers)
               else Records()
      modifies Database(), manager`deviceSlots,
               manager`dbMetas, manager`nextLruScore, manager.trie, manager.trie.nodes
      ensures Valid() && fresh(manager.trie.nodes - old(manager.trie.nodes))
      ensures Encode(Capped(prefix)) in manager.trie.contents
      ensures SlotEntered(old(manager.dbMetas), manager.dbMetas, old(manager.trie.contents), manager.trie.contents,
                          old(manager.deviceSlots), saveTo, prefix)
    {
      hide HtrieMap.Valid, HtrieMap.RootUnburst, Consistent, SlotHolds, RootLlmInference.StagedLayers, RecordHolds, AllRecorded,
           Encode, Capped, AllOpen, WithSlot, NnPrefixCacheManager.Compact, NnPrefixCacheManager.Valid;
      UpdateSlot(slot, prefix, tokens, saveTo);
      SkipNotRecorded();
      assert AllOpen(manager.deviceSlots, manager.dbMetas, bos) by {
        SlotOpen(old(manager.deviceSlots), manager.deviceSlots, prefix);
      }
      if db != null && saveTo != CACHE_SKIP {
        ghost var before := manager.dbMetas;
        SlotEntriesKept(manager.trie.contents, before, saveTo, prefix);
        SaveRecord(saveTo, prefix, tokens);
        UpdatesOpen(manager.deviceSlots, before, manager.dbMetas, saveTo, prefix, bos);
      }
      assert Capped(prefix) != [] by {
        CappedKeeps(prefix);
      }
      FirstByte(Capped(prefix));
    }

    lemma SkipNotRecorded()
      requires Wired()
      ensures CACHE_SKIP !in manager.dbMetas && (db == null ==> manager.dbMetas == map[])
    {
    }

    lemma CappedKeeps(prefix: seq<Token>)
      ensures prefix != [] ==> Capped(prefix) != [] && Capped(prefix)[0] == prefix[0]
    {
    }

    lemma SlotOpen(before: seq<DeviceSlotStatus>, after: seq<DeviceSlotStatus>, prefix: seq<Token>)
      requires |after| == 1 && (after[0].prefix == Capped(prefix) || after[0].prefix == []) && Opens(prefix, bos)
      requires AllOpen(before, manager.dbMetas, bos)
      ensures AllOpen(after, manager.dbMetas, bos)
    {
      CappedKeeps(prefix);
    }

    /** updateDeviceSlot of the one slot. */
    method UpdateSlot(slot: nat, prefix: seq<Token>, ghost tokens: seq<Token>, saveTo: CacheId)
      requires Wired()
      requires slot == 0 && prefix != [] && prefix <= tokens && saveTo < manager.nextCacheId && |prefix| <= inference.seqLen
      requires SlotHolds(tokens, |prefix|)
      modifies manager`deviceSlots, manager`nextLruScore, manager.trie, manager.trie.nodes
      ensures Wired() && fresh(manager.trie.nodes - old(manager.trie.nodes))
      ensures SlotHolds(manager.deviceSlots[0].prefix, |manager.deviceSlots[0].prefix|)
      ensures manager.deviceSlots[0].prefix == Capped(prefix) || manager.deviceSlots[0].prefix == []
      ensures Encode(Capped(prefix)) in manager.trie.contents
      ensures manager.trie.contents == WithSlot(old(manager.trie.contents), old(manager.deviceSlots), prefix, saveTo)
      ensures forall k <- manager.trie.contents | manager.trie.contents[k].dstType == CacheDeviceSlot ::
                && manager.trie.contents[k].id == saveTo && manager.trie.contents[k].slot == 0
                && manager.deviceSlots[0].prefix == Capped(prefix)
    {
      hide HtrieMap.Valid, HtrieMap.RootUnburst, Encode, Consistent, SlotHolds, WithoutSlot;
      OneSlotEntry(manager.trie.contents, manager.deviceSlots, manager.dbMetas, Capped(prefix), saveTo, manager.nextLruScore);
      ScoreApart(manager.trie.contents, manager.deviceSlots, 0, manager.dbMetas, saveTo, Capped(prefix), manager.nextLruScore, 0);
      manager.UpdateDeviceSlot(slot, prefix, saveTo);
      ghost var p := manager.deviceSlots[0].prefix;
      assert tokens[..|p|] == prefix[..|p|] == p[..|p|];
      HoldsCausal(tokens, p, |prefix|, |p|);
    }

    /** A record's update makes no slot entry. */
    lemma SlotEntriesKept(c: map<Key, NnCacheDst>, metas: map<CacheId, DbMetadata>, id: CacheId, prefix: seq<Token>)
      ensures var c' := WithRecord(c, metas, id, prefix);
              && Encode(Capped(prefix)) in c'
              && forall k <- c' | c'[k].dstType == CacheDeviceSlot :: k in c && c[k] == c'[k]
    {
      hide Encode, Capped;
    }

    /** The records, and the entries for them, after an update that does nothing without a database. */
    ghost predicate MetasAfter(metas: map<CacheId, DbMetadata>, metas': map<CacheId, DbMetadata>, c: map<Key, NnCacheDst>,
                               c': map<Key, NnCacheDst>, id: CacheId, prefix: seq<Token>)
    {
      if db != null then RecordEntered(metas, metas', c, c', id, prefix) else metas' == metas && c' == c
    }

    /** provideContent up to the end of the decode loop. */
    method Answer(promptTokens: array<Token>, prompt: seq<Token>, limit: nat)
      returns (slot: nat, pos: nat, text: Text, saveTo: CacheId, ghost start: nat)
      requires Valid() && promptTokens != inference.tokenPipe && Opens(prompt, bos)
      requires 0 < |prompt| <= limit <= inference.seqLen < promptTokens.Length && promptTokens[..|prompt|] == prompt
      modifies this`state, promptTokens,
               inference`batchSize, inference`position, inference`slot, inference`cacheSaveId, inference`cacheLoadId,
               inference`logitsPipe, inference`evaluated, inference.kv, inference.tokenPipe, Database(),
               manager`nextCacheId, manager`dbMetas, manager`nextLruScore, manager.trie, manager.trie.nodes
      ensures Recoverable() && fresh(manager.trie.nodes - old(manager.trie.nodes))
      ensures slot == 0 && |prompt| <= pos <= limit && SlotHolds(promptTokens[..pos + 1], pos)
      ensures promptTokens[..|prompt|] == prompt
      ensures Completion(promptTokens[..pos + 1], state, text)
           == Complete(inference.net, gen, prompt, gen.begin(old(state)), limit)
      ensures saveTo < manager.nextCacheId && (db != null ==> saveTo != CACHE_SKIP)
      ensures MetasAfter(old(manager.dbMetas), manager.dbMetas, old(manager.trie.contents), manager.trie.contents, saveTo, prompt[..|prompt| - 1])
      ensures manager.deviceSlots == old(manager.deviceSlots)
      ensures old(Begins(prompt[..|prompt| - 1], start)) && start < |prompt|
      ensures inference.evaluated == old(inference.evaluated) + (pos - start)
      ensures saveTo in old(manager.dbMetas) ==> old(manager.dbMetas)[saveTo].prefix <= prompt[..|prompt| - 1]
    {
      hide Wired, Records, SlotHolds, Start, Complete, AllOpen, Updates, Begins, Planned;
      var from, loadFrom;
      var end := |prompt| - 1;
      ghost var metas := manager.dbMetas;
      assert promptTokens[..end + 1] == prompt;
      assert promptTokens[..][..end] == prompt[..end];
      slot, from, loadFrom, saveTo := Plan(promptTokens[..], end);
      start := from;
      Scan(promptTokens, slot, from, end, loadFrom);
      StartCausal(promptTokens[..], prompt, end, if end == from then loadFrom else CACHE_SKIP);
      state := gen.begin(state);
      pos, text := Decode(promptTokens, end, limit, from, loadFrom, saveTo);
      assert promptTokens[..end] == promptTokens[..end + 1][..end] == prompt[..end];
      if db != null {
        UpdatesOpen(manager.deviceSlots, metas, manager.dbMetas, saveTo, prompt[..end], bos);
      }
    }

    ghost function Remembers(req: Request, s: S): seq<Token>
      requires WellFormed(req, inference.seqLen) && req.prompt.Some?
    {
      Remembered(inference.net, gen, inference.seqLen, req, s)
    }

    /** What the database has of a request: its answer too, when there are 128 tokens. */
    ghost function Saved(req: Request, s: S): seq<Token>
      requires WellFormed(req, inference.seqLen) && req.prompt.Some?
    {
      var t := Remembers(req, s);
      Capped(if |t| >= 128 then t else req.prompt.value[..|req.prompt.value| - 1])
    }

    /** provideContent for a request that is carried through: the answer is the one a model without any cache
        gives, and what is cached stays in step with what is recorded. Only what the longest shared prefix does not
        cover is evaluated. What was recorded stays recorded, and this request is now, but its record gets no
        entry of its own that a lookup could hit. */
    method ProvideContent(req: Request) returns (outcome: Outcome, ghost start: nat)
      requires Valid() && WellFormed(req, inference.seqLen) && (req.prompt.Some? ==> Opens(req.prompt.value, bos))
      modifies this`state,
               inference`batchSize, inference`position, inference`slot, inference`cacheSaveId, inference`cacheLoadId,
               inference`logitsPipe, inference`evaluated, inference.kv, inference.tokenPipe, Database(),
               manager, manager.trie, manager.trie.nodes
      ensures (outcome, state) == Serve(inference.net, gen, publicPrompt, inference.seqLen, db != null, req, old(state))
      ensures if outcome == Overrun then Recoverable() else Valid()
      ensures fresh(manager.trie.nodes - old(manager.trie.nodes))
      ensures AnyLong(manager.dbMetas) <==>
              || old(AnyLong(manager.dbMetas))
              || RecordsLong(inference.net, gen, publicPrompt, inference.seqLen, db != null, req, old(state))
      ensures req.prompt.Some? ==> old(Begins(req.prompt.value[..|req.prompt.value| - 1], start)) && start < |req.prompt.value|
      ensures inference.evaluated == old(inference.evaluated) +
                match outcome
                case Overrun => inference.seqLen - start
                case Served(c) =>
                  if req.prompt == None then 0 else c.totalTokens - start - if db != null && c.totalTokens > 128 then 0 else 1
      ensures RecordsKept(old(manager.dbMetas), manager.dbMetas)
      ensures req.prompt.Some? && outcome != Overrun ==>
                && Encode(Capped(Remembers(req, old(state)))) in manager.trie.contents
                && (db != null ==> RecordFor(manager.dbMetas, Saved(req, old(state))))
      ensures outcome != Overrun ==> NoNewDbEntry(old(manager.trie.contents), manager.trie.contents)
    {
      hide Wired, Records, SlotHolds, Valid, Recoverable, Complete, AnyLong, Updates, MetasAfter, SlotEntered, Encode, Begins,
           NoNewDbEntry, Capped, RecordsKept, RecordFor;
      start := 0;
      Keeps();
      if req.prompt == None {
        NothingNew(manager.dbMetas, manager.trie.contents);
        return Served(ChatCompletion([], inference.seqLen, 0, inference.seqLen)), start;
      }
      var prompt := req.prompt.value;
      var promptTokens := new Token[inference.seqLen + 2](i requires 0 <= i => if i < |prompt| then prompt[i] else 0);
      var limit := Limit(|prompt|, req.maxTokens, inference.seqLen);
      ghost var metas, entries := manager.dbMetas, manager.trie.contents;
      assert promptTokens[..|prompt|] == prompt;
      var slot, pos, text, saveTo;
      slot, pos, text, saveTo, start := Answer(promptTokens, prompt, limit);
      ghost var between, entered := manager.dbMetas, manager.trie.contents;
      assert promptTokens[0] == promptTokens[..|prompt|][0];
      assert prompt[..|prompt| - 1] <= promptTokens[..pos] by {
        assert promptTokens[..pos][..|prompt|] == prompt;
      }
      assert promptTokens[..pos + 1][..pos] == promptTokens[..pos];
      var overrun := RecordAnswer(slot, promptTokens, pos, saveTo);
      RecordsAfter(metas, between, manager.dbMetas, entries, entered, manager.trie.contents, old(manager.deviceSlots), saveTo,
                   prompt[..|prompt| - 1], promptTokens[..pos], overrun);
      if overrun {
        return Overrun, start;
      }
      var end := |prompt| - 1;
      outcome := Served(ChatCompletion(publicPrompt + text, |prompt|, pos - end, |prompt| + (pos - end)));
    }

    lemma Keeps()
      requires Valid()
      ensures Recoverable() && |manager.deviceSlots| == 1 && forall id <- manager.dbMetas :: |manager.dbMetas[id].prefix| <= MAX_LEN
    {
    }

    lemma NothingNew(metas: map<CacheId, DbMetadata>, c: map<Key, NnCacheDst>)
      ensures RecordsKept(metas, metas) && NoNewDbEntry(c, c)
    {
    }

    /** The two updates of a request: which records of maximum length they leave, that they keep all records,
        and what has an entry. */
    lemma RecordsAfter(a: map<CacheId, DbMetadata>, b: map<CacheId, DbMetadata>, c: map<CacheId, DbMetadata>,
                       entries: map<Key, NnCacheDst>, entered: map<Key, NnCacheDst>, left: map<Key, NnCacheDst>,
                       slots: seq<DeviceSlotStatus>, id: CacheId, q: seq<Token>, p: seq<Token>, overrun: bool)
      requires slots != [] && q <= p && |q| < |p| && (db != null ==> id != CACHE_SKIP)
      requires MetasAfter(a, b, entries, entered, id, q) && (id in a ==> a[id].prefix <= q)
      requires forall i <- a :: |a[i].prefix| <= MAX_LEN
      requires overrun ==> db != null && c == b
      requires !overrun ==> SlotEntered(b, c, entered, left, slots, if |p| < 128 then CACHE_SKIP else id, p)
      ensures AnyLong(c) <==> AnyLong(a) || (db != null && (if overrun then |q| else |p|) >= MAX_LEN)
      ensures RecordsKept(a, c)
      ensures !overrun ==> NoNewDbEntry(entries, left)
      ensures !overrun && db != null ==> RecordFor(c, Capped(if |p| >= 128 then p else q))
    {
      hide AnyLong, Updates, Encode, Capped, NoNewDbEntry, RecordsKept, RecordFor, WithRecord, WithSlot;
      var end := if overrun || |p| < 128 then q else p;
      if db != null {
        assert Updates(a, c, id, end) by {
          if end == p && !overrun {
            UpdatesTwice(a, b, c, id, q, p);
          }
        }
        UpdatesLong(a, c, id, end);
        UpdatesKeep(a, c, id, end);
      } else {
        NothingNew(a, entries);
      }
      if !overrun {
        EntriesAfter(a, b, c, entries, entered, left, slots, id, q, p);
      }
    }

    lemma UpdatesKeep(a: map<CacheId, DbMetadata>, b: map<CacheId, DbMetadata>, id: CacheId, p: seq<Token>)
      requires Updates(a, b, id, p) && (id in a ==> a[id].prefix <= p) && forall i <- a :: |a[i].prefix| <= MAX_LEN
      ensures RecordsKept(a, b) && RecordFor(b, Capped(p))
    {
      assert id in b;
    }

    lemma EntriesAfter(a: map<CacheId, DbMetadata>, b: map<CacheId, DbMetadata>, c: map<CacheId, DbMetadata>,
                       entries: map<Key, NnCacheDst>, entered: map<Key, NnCacheDst>, left: map<Key, NnCacheDst>,
                       slots: seq<DeviceSlotStatus>, id: CacheId, q: seq<Token>, p: seq<Token>)
      requires slots != [] && q <= p && |q| < |p| && (db != null ==> id != CACHE_SKIP)
      requires MetasAfter(a, b, entries, entered, id, q)
      requires SlotEntered(b, c, entered, left, slots, if |p| < 128 then CACHE_SKIP else id, p)
      ensures NoNewDbEntry(entries, left)
    {
      hide Encode, Capped, MetaUpdated, SlotUpdated;
      if db == null {
        SlotAdds(entries, slots, Capped(p), if |p| < 128 then CACHE_SKIP else id, 0);
      } else if |p| < 128 {
        ShortNotHit(entries, slots, a, id, q, p, CACHE_SKIP, 0);
      } else {
        MetaAdds(entries, a, id, Capped(q), 0);
        PrefixDecides(WithSlot(entered, slots, p, id), b, MetaUpdated(entries, a, id, Capped(q), 0).1, id, Capped(p));
        RecordForgotten(entries, slots, a, id, q, p);
      }
    }

    lemma StartCausal(a: seq<Token>, b: seq<Token>, pos: nat, loadFrom: CacheId)
      requires Start(a, pos, loadFrom)
      requires pos <= |a| && pos <= |b| && a[..pos] == b[..pos]
      ensures Start(b, pos, loadFrom)
    {
      if db != null && loadFrom != CACHE_SKIP {
        RecordCausal(db.committed, loadFrom, a, b, pos, pos);
      } else {
        HoldsCausal(a, b, pos, pos);
      }
    }

    ghost function Reference(reqs: seq<Request>, s: S): seq<Outcome>
      requires forall r <- reqs :: WellFormed(r, inference.seqLen)
    {
      ServeAll(inference.net, gen, publicPrompt, inference.seqLen, db != null, reqs, s)
    }

    ghost predicate GrowsLong(reqs: seq<Request>, s: S)
      requires forall r <- reqs :: WellFormed(r, inference.seqLen)
    {
      RunRecordsLong(inference.net, gen, publicPrompt, inference.seqLen, db != null, reqs, s)
    }

    lemma RunStep(reqs: seq<Request>, i: nat, s: S)
      requires i < |reqs| && forall r <- reqs :: WellFormed(r, inference.seqLen)
      ensures var (o, s') := Serve(inference.net, gen, publicPrompt, inference.seqLen, db != null, reqs[i], s);
              && Reference(reqs[i..], s) == (if o == Overrun then [o] else [o] + Reference(reqs[i + 1..], s'))
              && (GrowsLong(reqs[i..], s) <==>
                  || RecordsLong(inference.net, gen, publicPrompt, inference.seqLen, db != null, reqs[i], s)
                  || (o != Overrun && GrowsLong(reqs[i + 1..], s')))
    {
      assert reqs[i..][0] == reqs[i] && reqs[i..][1..] == reqs[i + 1..];
    }

    /** That is so for what the request before it left. */
    ghost predicate Resumes(last: Request, s: S, req: Request, start: nat)
      requires WellFormed(last, inference.seqLen)
    {
      last.prompt.Some? ==> Behind(Capped(Remembers(last, s)), req, start)
    }

    /** And for what the database has of a request. */
    ghost predicate GoesOn(last: Request, s: S, req: Request, start: nat)
      requires WellFormed(last, inference.seqLen)
    {
      last.prompt.Some? ==> Behind(Saved(last, s), req, start)
    }

    lemma WillResume(last: Request, s: S, req: Request)
      requires Valid() && WellFormed(last, inference.seqLen) && WellFormed(req, inference.seqLen)
      requires last.prompt.Some? ==> Encode(Capped(Remembers(last, s))) in manager.trie.contents
      ensures |manager.dbMetas| < 16383 && req.prompt.Some? ==>
                forall start: nat :: Begins(Scanned(req), start) ==> Resumes(last, s, req, start)
      ensures req.prompt == None ==> forall start: nat :: Resumes(last, s, req, start)
    {
      hide Encode, Capped, Begins, Wired, Records;
      if |manager.dbMetas| < 16383 && req.prompt.Some? && last.prompt.Some? {
        var p, q := Capped(Remembers(last, s)), Scanned(req);
        forall start: nat | |p| >= 128 && p <= q && Begins(q, start)
          ensures |p| <= start
        {
          Continues(p, p, q, start);
        }
      }
    }

    /** The same for a process `next` that has all records of this one. */
    lemma WillGoOn(next: ApiServer<S>, reqs: seq<Request>, states: seq<S>, outcomes: seq<Outcome>, req: Request)
      requires (forall r <- reqs :: WellFormed(r, inference.seqLen)) && |outcomes| <= |reqs| && |outcomes| < |states|
      requires next.Valid() && next.manager.AllEntered()
      requires forall i | 0 <= i < |outcomes| :: InDatabase(reqs[i], states[i], outcomes[i], next.manager.dbMetas)
      requires |next.manager.dbMetas| < 16383 && req.prompt.Some? && req.prompt.value != []
      ensures forall start: nat :: next.Begins(Scanned(req), start) ==>
                forall i | 0 <= i < |outcomes| && outcomes[i] != Overrun :: GoesOn(reqs[i], states[i], req, start)
    {
      hide Encode, Begins, Wired, Records, Saved;
      var q := Scanned(req);
      forall start: nat, i | next.Begins(q, start) && 0 <= i < |outcomes| && outcomes[i] != Overrun
        ensures GoesOn(reqs[i], states[i], req, start)
      {
        assert InDatabase(reqs[i], states[i], outcomes[i], next.manager.dbMetas);
        if reqs[i].prompt.Some? && |Saved(reqs[i], states[i])| >= 128 && Saved(reqs[i], states[i]) <= q {
          var id :| id in next.manager.dbMetas && Saved(reqs[i], states[i]) <= next.manager.dbMetas[id].prefix;
          next.Continues(next.manager.dbMetas[id].prefix, Saved(reqs[i], states[i]), q, start);
        }
      }
    }

    lemma GoesOnNot(reqs: seq<Request>, states: seq<S>, outcomes: seq<Outcome>, req: Request)
      requires (forall r <- reqs :: WellFormed(r, inference.seqLen)) && |outcomes| <= |reqs| && |outcomes| < |states|
      requires req.prompt == None
      ensures forall start: nat, i | 0 <= i < |outcomes| :: GoesOn(reqs[i], states[i], req, start)
    {
    }

    /** Positions evaluated for a request: what is behind its start, and once more the last one where it is saved. */
    function Passes(req: Request, o: Outcome, start: nat): int {
      match o
      case Overrun => inference.seqLen - start
      case Served(c) =>
        if req.prompt == None then 0 else c.totalTokens - start - (if db != null && c.totalTokens > 128 then 0 else 1)
    }

    function Work(reqs: seq<Request>, outcomes: seq<Outcome>, starts: seq<nat>): int
      requires |outcomes| == |starts| <= |reqs|
    {
      if outcomes == [] then 0
      else
        var n := |outcomes| - 1;
        Work(reqs, outcomes[..n], starts[..n]) + Passes(reqs[n], outcomes[n], starts[n])
    }

    lemma WorkStep(reqs: seq<Request>, outcomes: seq<Outcome>, starts: seq<nat>, o: Outcome, start: nat)
      requires |outcomes| == |starts| < |reqs|
      ensures Work(reqs, outcomes + [o], starts + [start])
           == Work(reqs, outcomes, starts) + Passes(reqs[|outcomes|], o, start)
    {
      assert (outcomes + [o])[..|outcomes|] == outcomes && (starts + [start])[..|starts|] == starts;
    }

    /** Request by request: where it started, and that the database has it. */
    ghost predicate Reuse(reqs: seq<Request>, states: seq<S>, outcomes: seq<Outcome>, starts: seq<nat>, metas: map<CacheId, DbMetadata>)
      requires forall r <- reqs :: WellFormed(r, inference.seqLen)
    {
      && |outcomes| == |starts| <= |reqs| && |outcomes| < |states|
      && (|metas| < 16383 ==> forall i | 0 < i < |starts| :: Resumes(reqs[i - 1], states[i - 1], reqs[i], starts[i]))
      && (db != null ==> forall i | 0 <= i < |outcomes| :: InDatabase(reqs[i], states[i], outcomes[i], metas))
    }

    ghost predicate InDatabase(req: Request, s: S, o: Outcome, metas: map<CacheId, DbMetadata>)
      requires WellFormed(req, inference.seqLen)
    {
      o != Overrun && req.prompt.Some? ==> RecordFor(metas, Saved(req, s))
    }

    lemma ReuseStep(reqs: seq<Request>, states: seq<S>, outcomes: seq<Outcome>, starts: seq<nat>, metas: map<CacheId, DbMetadata>,
                    o: Outcome, start: nat, metas': map<CacheId, DbMetadata>)
      requires forall r <- reqs :: WellFormed(r, inference.seqLen)
      requires Reuse(reqs, states, outcomes, starts, metas) && RecordsKept(metas, metas')
      requires |outcomes| < |reqs| && |outcomes| + 1 < |states|
      requires var n := |outcomes|;
               && (db != null ==> InDatabase(reqs[n], states[n], o, metas'))
               && (n > 0 && |metas| < 16383 ==> Resumes(reqs[n - 1], states[n - 1], reqs[n], start))
      ensures Reuse(reqs, states, outcomes + [o], starts + [start], metas')
    {
      hide Resumes, InDatabase;
      assert |metas| <= |metas'| by {
        CardinalityMonotone(metas.Keys, metas'.Keys);
        assert |metas.Keys| == |metas| && |metas'.Keys| == |metas'|;
      }
      if db != null {
        forall i | 0 <= i < |outcomes|
          ensures InDatabase(reqs[i], states[i], outcomes[i], metas')
        {
          StaysInDatabase(reqs[i], states[i], outcomes[i], metas, metas');
        }
      }
    }

    lemma StaysInDatabase(req: Request, s: S, o: Outcome, metas: map<CacheId, DbMetadata>, metas': map<CacheId, DbMetadata>)
      requires WellFormed(req, inference.seqLen) && InDatabase(req, s, o, metas) && RecordsKept(metas, metas')
      ensures InDatabase(req, s, o, metas')
    {
      hide Saved;
      if o != Overrun && req.prompt.Some? {
        var id :| id in metas && Saved(req, s) <= metas[id].prefix;
        assert id in metas';
      }
    }

    lemma PassesIs(req: Request, o: Outcome, start: nat)
      ensures Passes(req, o, start) ==
              match o
              case Overrun => inference.seqLen - start
              case Served(c) =>
                if req.prompt == None then 0 else c.totalTokens - start - (if db != null && c.totalTokens > 128 then 0 else 1)
    {
    }

    lemma NothingReused(reqs: seq<Request>, states: seq<S>, metas: map<CacheId, DbMetadata>)
      requires (forall r <- reqs :: WellFormed(r, inference.seqLen)) && states != []
      ensures Reuse(reqs, states, [], [], metas) && Work(reqs, [], []) == 0
    {
    }

    lemma NextState(reqs: seq<Request>, os: seq<Outcome>, states: seq<S>, i: nat)
      requires forall r <- reqs :: WellFormed(r, inference.seqLen)
      requires Answers(inference.net, gen, publicPrompt, inference.seqLen, db != null, reqs, os, states) && i < |os|
      ensures |os| <= |reqs| && i + 1 < |states|
      ensures (os[i], states[i + 1]) == Serve(inference.net, gen, publicPrompt, inference.seqLen, db != null, reqs[i], states[i])
    {
      hide Serve, AnswerIs, AnswerLength, NonStop;
    }

    lemma KeptTwice(a: map<CacheId, DbMetadata>, b: map<CacheId, DbMetadata>, c: map<CacheId, DbMetadata>,
                    x: map<Key, NnCacheDst>, y: map<Key, NnCacheDst>, z: map<Key, NnCacheDst>)
      requires RecordsKept(a, b) && RecordsKept(b, c)
      ensures RecordsKept(a, c)
      ensures NoNewDbEntry(x, y) && NoNewDbEntry(y, z) ==> NoNewDbEntry(x, z)
    {
      forall id | id in a
        ensures id in c && a[id].prefix <= c[id].prefix
      {
        assert id in b;
      }
    }

    /** What a finished run has done to records `metas0`, from state `s0`. */
    ghost predicate Ran(reqs: seq<Request>, s0: S, metas0: map<CacheId, DbMetadata>, states: seq<S>,
                        outcomes: seq<Outcome>, starts: seq<nat>, metas: map<CacheId, DbMetadata>, work: int)
      requires forall r <- reqs :: WellFormed(r, inference.seqLen)
    {
      && outcomes == Reference(reqs, s0) && (AnyLong(metas) <==> AnyLong(metas0) || GrowsLong(reqs, s0))
      && Reuse(reqs, states, outcomes, starts, metas) && work == Work(reqs, outcomes, starts) && RecordsKept(metas0, metas)
    }

    /** And one that is not finished, also to the entries `c0`. */
    ghost predicate SoFar(reqs: seq<Request>, s0: S, metas0: map<CacheId, DbMetadata>, c0: map<Key, NnCacheDst>, states: seq<S>,
                          outcomes: seq<Outcome>, starts: seq<nat>, s: S, metas: map<CacheId, DbMetadata>, c: map<Key, NnCacheDst>,
                          work: int)
      requires forall r <- reqs :: WellFormed(r, inference.seqLen)
    {
      && Reuse(reqs, states, outcomes, starts, metas) && work == Work(reqs, outcomes, starts)
      && var n := |outcomes|;
         && states[n] == s && Reference(reqs, s0) == outcomes + Reference(reqs[n..], s)
         && (AnyLong(metas0) || GrowsLong(reqs, s0) <==> AnyLong(metas) || GrowsLong(reqs[n..], s))
         && RecordsKept(metas0, metas) && NoNewDbEntry(c0, c)
    }

    lemma SoFarNext(reqs: seq<Request>, s0: S, metas0: map<CacheId, DbMetadata>, c0: map<Key, NnCacheDst>, states: seq<S>,
                    outcomes: seq<Outcome>, starts: seq<nat>, s: S, metas: map<CacheId, DbMetadata>, c: map<Key, NnCacheDst>,
                    work: int, o: Outcome, start: nat, s': S, metas': map<CacheId, DbMetadata>, c': map<Key, NnCacheDst>, more: int)
      requires forall r <- reqs :: WellFormed(r, inference.seqLen)
      requires Answers(inference.net, gen, publicPrompt, inference.seqLen, db != null, reqs, Reference(reqs, s0), states)
      requires SoFar(reqs, s0, metas0, c0, states, outcomes, starts, s, metas, c, work) && |outcomes| < |reqs|
      requires var n, hasDb := |outcomes|, db != null;
               && (o, s') == Serve(inference.net, gen, publicPrompt, inference.seqLen, hasDb, reqs[n], s)
               && (AnyLong(metas')
                   <==> AnyLong(metas) || RecordsLong(inference.net, gen, publicPrompt, inference.seqLen, hasDb, reqs[n], s))
               && RecordsKept(metas, metas') && (o != Overrun ==> NoNewDbEntry(c, c')) && more == Passes(reqs[n], o, start)
               && (hasDb ==> InDatabase(reqs[n], s, o, metas'))
               && (n > 0 && |metas| < 16383 ==> Resumes(reqs[n - 1], states[n - 1], reqs[n], start))
      ensures if o == Overrun then Ran(reqs, s0, metas0, states, outcomes + [o], starts + [start], metas', work + more)
              else SoFar(reqs, s0, metas0, c0, states, outcomes + [o], starts + [start], s', metas', c', work + more)
    {
      hide Answers, Reuse, AnyLong, GrowsLong, Reference, Serve, RecordsLong, RecordsKept, NoNewDbEntry, Work, Passes,
           InDatabase, Resumes;
      var n := |outcomes|;
      ReuseLengths(reqs, states, outcomes, starts, metas);
      RunStep(reqs, n, s);
      NextState(reqs, Reference(reqs, s0), states, n);
      WorkStep(reqs, outcomes, starts, o, start);
      ReuseStep(reqs, states, outcomes, starts, metas, o, start, metas');
      ReuseLengths(reqs, states, outcomes + [o], starts + [start], metas');
      KeptTwice(metas0, metas, metas', c0, c, c');
    }

    lemma ReuseLengths(reqs: seq<Request>, states: seq<S>, outcomes: seq<Outcome>, starts: seq<nat>, metas: map<CacheId, DbMetadata>)
      requires (forall r <- reqs :: WellFormed(r, inference.seqLen)) && Reuse(reqs, states, outcomes, starts, metas)
      ensures |outcomes| == |starts| <= |reqs| && |outcomes| < |states|
      ensures db != null ==> forall i | 0 <= i < |outcomes| :: InDatabase(reqs[i], states[i], outcomes[i], metas)
    {
    }

    lemma SoFarEnd(reqs: seq<Request>, s0: S, metas0: map<CacheId, DbMetadata>, c0: map<Key, NnCacheDst>, states: seq<S>,
                   outcomes: seq<Outcome>, starts: seq<nat>, s: S, metas: map<CacheId, DbMetadata>, c: map<Key, NnCacheDst>, work: int)
      requires forall r <- reqs :: WellFormed(r, inference.seqLen)
      requires SoFar(reqs, s0, metas0, c0, states, outcomes, starts, s, metas, c, work) && |outcomes| == |reqs|
      ensures Ran(reqs, s0, metas0, states, outcomes, starts, metas, work) && NoNewDbEntry(c0, c)
    {
      hide Reuse, AnyLong, RecordsKept, NoNewDbEntry, Work;
      assert reqs[|reqs|..] == [];
    }

    lemma SoFarStart(reqs: seq<Request>, states: seq<S>, s0: S, metas: map<CacheId, DbMetadata>, c: map<Key, NnCacheDst>)
      requires (forall r <- reqs :: WellFormed(r, inference.seqLen)) && states != [] && states[0] == s0
      ensures SoFar(reqs, s0, metas, c, states, [], [], s0, metas, c, 0)
    {
      hide Reference, GrowsLong, AnyLong;
      assert reqs[0..] == reqs;
    }

    /** The first request starts where it would have. */
    twostate predicate AsBefore(reqs: seq<Request>)
      reads manager, manager.trie, manager.trie.nodes
    {
      reqs != [] && reqs[0].prompt.Some? && reqs[0].prompt.value != [] ==>
        forall start: nat :: Begins(Scanned(reqs[0]), start) ==> old(Begins(Scanned(reqs[0]), start))
    }

    /** A whole run: every answer is the uncached one, whatever the cache held in between: samples drawn one by one
        from the logits after prompt and earlier samples, up to the first that stops or to the bound. Afterwards another
        process can start from what is stored, and it is known whether its records can be loaded. A request that goes
        on from the one before it evaluates only what is new, as long as the entries fit one hash node. Every request is
        in some record, but this process cannot look it up there. */
    method Run(reqs: seq<Request>) returns (outcomes: seq<Outcome>, ghost states: seq<S>, ghost starts: seq<nat>)
      requires Valid() && forall r <- reqs :: WellFormed(r, inference.seqLen) && (r.prompt.Some? ==> Opens(r.prompt.value, bos))
      modifies this`state,
               inference`batchSize, inference`position, inference`slot, inference`cacheSaveId, inference`cacheLoadId,
               inference`logitsPipe, inference`evaluated, inference.kv, inference.tokenPipe, Database(),
               manager, manager.trie, manager.trie.nodes
      ensures outcomes == ServeAll(inference.net, gen, publicPrompt, inference.seqLen, db != null, reqs, old(state))
      ensures Answers(inference.net, gen, publicPrompt, inference.seqLen, db != null, reqs, outcomes, states)
      ensures |states| > 0 && states[0] == old(state)
      ensures Recoverable() && (Overrun !in outcomes ==> Valid())
      ensures (forall r <- reqs :: Bounded(db != null, inference.seqLen, r)) ==> Valid() && |outcomes| == |reqs|
      ensures AnyLong(manager.dbMetas) <==>
              || old(AnyLong(manager.dbMetas))
              || RunRecordsLong(inference.net, gen, publicPrompt, inference.seqLen, db != null, reqs, old(state))
      ensures Reuse(reqs, states, outcomes, starts, manager.dbMetas)
      ensures inference.evaluated == old(inference.evaluated) + Work(reqs, outcomes, starts)
      ensures reqs != [] ==>
                |starts| > 0 && (reqs[0].prompt.Some? ==> old(Begins(Scanned(reqs[0]), starts[0])))
      ensures RecordsKept(old(manager.dbMetas), manager.dbMetas)
      ensures Overrun !in outcomes ==> NoNewDbEntry(old(manager.trie.contents), manager.trie.contents)
    {
      hide ApiServer.Valid, ApiServer.Recoverable, Serve, ServeAll, NnPrefixCacheManager.Valid, AnyLong, RecordsLong,
           RunRecordsLong, Bounded, Answers, RecordsKept, NoNewDbEntry, Begins, Resumes, Reuse, Work, Remembers, Saved,
           Encode, Capped, Ran, SoFar, RecordFor;
      ghost var s0, work := state, 0;
      AllServed(reqs, state);
      states := RunAnswers(inference.net, gen, publicPrompt, inference.seqLen, db != null, reqs, state);
      ReferenceIs(reqs, state);
      hide Reference, GrowsLong;
      outcomes, starts := [], [];
      Keeps();
      SoFarStart(reqs, states, state, manager.dbMetas, manager.trie.contents);
      for i := 0 to |reqs|
        invariant Valid() && Recoverable() && Overrun !in outcomes
        invariant fresh(manager.trie.nodes - old(manager.trie.nodes)) && |outcomes| == |starts| == i < |states|
        invariant SoFar(reqs, s0, old(manager.dbMetas), old(manager.trie.contents), states, outcomes, starts,
                        state, manager.dbMetas, manager.trie.contents, work)
        invariant states[i] == state && inference.evaluated == old(inference.evaluated) + work
        invariant i > 0 && reqs[i - 1].prompt.Some? ==> Encode(Capped(Remembers(reqs[i - 1], states[i - 1]))) in manager.trie.contents
        invariant i == 0 ==> AsBefore(reqs)
        invariant i > 0 && reqs[0].prompt.Some? ==> old(Begins(Scanned(reqs[0]), starts[0]))
      {
        if i > 0 {
          WillResume(reqs[i - 1], states[i - 1], reqs[i]);
        }
        ghost var s, metas, entries, before := state, manager.dbMetas, manager.trie.contents, inference.evaluated;
        var o, start := ProvideContent(reqs[i]);
        SoFarNext(reqs, s0, old(manager.dbMetas), old(manager.trie.contents), states, outcomes, starts, s, metas, entries, work,
                  o, start, state, manager.dbMetas, manager.trie.contents, inference.evaluated - before);
        outcomes, starts, work := outcomes + [o], starts + [start], work + (inference.evaluated - before);
        if o == Overrun {
          RanIs(reqs, s0, old(manager.dbMetas), states, outcomes, starts, manager.dbMetas, work);
          return;
        }
        SoFarIs(reqs, s0, old(manager.dbMetas), old(manager.trie.contents), states, outcomes, starts,
                state, manager.dbMetas, manager.trie.contents, work);
        Keeps();
      }
      SoFarEnd(reqs, s0, old(manager.dbMetas), old(manager.trie.contents), states, outcomes, starts,
               state, manager.dbMetas, manager.trie.contents, work);
      RanIs(reqs, s0, old(manager.dbMetas), states, outcomes, starts, manager.dbMetas, work);
    }

    lemma SoFarIs(reqs: seq<Request>, s0: S, metas0: map<CacheId, DbMetadata>, c0: map<Key, NnCacheDst>, states: seq<S>,
                  outcomes: seq<Outcome>, starts: seq<nat>, s: S, metas: map<CacheId, DbMetadata>, c: map<Key, NnCacheDst>, work: int)
      requires forall r <- reqs :: WellFormed(r, inference.seqLen)
      requires SoFar(reqs, s0, metas0, c0, states, outcomes, starts, s, metas, c, work)
      ensures |outcomes| < |states| && states[|outcomes|] == s
    {
    }

    lemma RanIs(reqs: seq<Request>, s0: S, metas0: map<CacheId, DbMetadata>, states: seq<S>,
                outcomes: seq<Outcome>, starts: seq<nat>, metas: map<CacheId, DbMetadata>, work: int)
      requires forall r <- reqs :: WellFormed(r, inference.seqLen)
      requires Ran(reqs, s0, metas0, states, outcomes, starts, metas, work)
      ensures outcomes == ServeAll(inference.net, gen, publicPrompt, inference.seqLen, db != null, reqs, s0)
      ensures AnyLong(metas) <==>
              || AnyLong(metas0)
              || RunRecordsLong(inference.net, gen, publicPrompt, inference.seqLen, db != null, reqs, s0)
      ensures Reuse(reqs, states, outcomes, starts, metas) && work == Work(reqs, outcomes, starts) && RecordsKept(metas0, metas)
    {
      hide AnyLong, ServeAll, RunRecordsLong, Reuse, Work, RecordsKept;
    }

    lemma ReferenceIs(reqs: seq<Request>, s: S)
      requires forall r <- reqs :: WellFormed(r, inference.seqLen)
      ensures Reference(reqs, s) == ServeAll(inference.net, gen, publicPrompt, inference.seqLen, db != null, reqs, s)
      ensures GrowsLong(reqs, s) <==> RunRecordsLong(inference.net, gen, publicPrompt, inference.seqLen, db != null, reqs, s)
    {
      hide ServeAll, RunRecordsLong;
    }

    lemma AllServed(reqs: seq<Request>, s: S)
      requires forall r <- reqs :: WellFormed(r, inference.seqLen)
      ensures (forall r <- reqs :: Bounded(db != null, inference.seqLen, r)) ==>
                Overrun !in Reference(reqs, s) && |Reference(reqs, s)| == |reqs|
    {
      if forall r <- reqs :: Bounded(db != null, inference.seqLen, r) {
        BoundedServesAll(inference.net, gen, publicPrompt, inference.seqLen, db != null, reqs, s);
      }
    }

    lemma NothingLeft()
      ensures Reference([], state) == [] && !GrowsLong([], state)
    {
    }

    /** A run, the end of the process, and another run of a new process on the same database: the first may end in
        an overrun. The new process starts exactly when no record has the maximum length, which the first run's
        requests decide, and then its answers are the uncached ones too. Its first request starts behind whatever it
        goes on from in the first run. */
    method RunAndRestart(reqs: seq<Request>, nBatches: nat, seqLen: nat, state': S, reqs': seq<Request>)
      returns (outcomes: seq<Outcome>, restarted: Option<seq<Outcome>>, ghost states: seq<S>, ghost starts: seq<nat>)
      requires Valid() && db != null && nBatches > 0
      requires forall r <- reqs :: WellFormed(r, inference.seqLen) && (r.prompt.Some? ==> Opens(r.prompt.value, bos))
      requires forall r <- reqs' :: WellFormed(r, seqLen) && (r.prompt.Some? ==> Opens(r.prompt.value, bos))
      modifies this`state,
               inference`batchSize, inference`position, inference`slot, inference`cacheSaveId, inference`cacheLoadId,
               inference`logitsPipe, inference`evaluated, inference.kv, inference.tokenPipe, Database(),
               manager, manager.trie, manager.trie.nodes
      ensures outcomes == ServeAll(inference.net, gen, publicPrompt, inference.seqLen, true, reqs, old(state))
      ensures restarted == None <==>
              || old(AnyLong(manager.dbMetas))
              || RunRecordsLong(inference.net, gen, publicPrompt, inference.seqLen, true, reqs, old(state))
      ensures !old(AnyLong(manager.dbMetas)) && inference.seqLen <= MAX_LEN ==> restarted.Some?
      ensures restarted.Some? ==>
                restarted.value == ServeAll(inference.net, gen, publicPrompt, seqLen, true, reqs', state')
      ensures Answers(inference.net, gen, publicPrompt, inference.seqLen, true, reqs, outcomes, states)
      ensures restarted.Some? && reqs' != [] && |manager.dbMetas| < 16383 ==>
                |starts| > 0 && forall i | 0 <= i < |outcomes| && outcomes[i] != Overrun ::
                  GoesOn(reqs[i], states[i], reqs'[0], starts[0])
    {
      hide ApiServer.Valid, ApiServer.Recoverable, ServeAll, AnyLong, RunRecordsLong, Intact, Answers, Begins, GoesOn, Work, Reuse,
           InDatabase, Scanned, Bounded,
           NnPrefixCacheManager.AllEntered, RecordsKept, NoNewDbEntry;
      ShortContextOf(reqs, state);
      ghost var ran;
      outcomes, states, ran := Run(reqs);
      ReuseLengths(reqs, states, outcomes, ran, manager.dbMetas);
      RecoverableIntact();
      StageEmpty();
      starts := [];
      var next := new RootLlmInference(inference.net, nBatches, seqLen, 1, db);
      var server := Open(next, db, gen, publicPrompt, bos, state');
      if server == None {
        return outcomes, None, states, starts;
      }
      if reqs' != [] && |manager.dbMetas| < 16383 {
        if reqs'[0].prompt.Some? {
          WillGoOn(server.value, reqs, states, outcomes, reqs'[0]);
        } else {
          GoesOnNot(reqs, states, outcomes, reqs'[0]);
        }
      }
      var again;
      ghost var later;
      again, later, starts := server.value.Run(reqs');
      return outcomes, Some(again), states, starts;
    }

    lemma StageEmpty()
      requires Recoverable() && db != null
      ensures db.stage == map[]
    {
    }

    lemma ShortContextOf(reqs: seq<Request>, s: S)
      requires forall r <- reqs :: WellFormed(r, inference.seqLen)
      ensures inference.seqLen <= MAX_LEN ==>
                !RunRecordsLong(inference.net, gen, publicPrompt, inference.seqLen, db != null, reqs, s)
    {
      if inference.seqLen <= MAX_LEN {
        ShortContext(inference.net, gen, publicPrompt, inference.seqLen, db != null, reqs, s);
      }
    }
  }
}
