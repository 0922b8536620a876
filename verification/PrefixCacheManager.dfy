/** NnPrefixCacheManager of src/nn/nn-cache.cpp: which token prefixes have their keys and values
    in a device slot or in the cache database. */
module PrefixCacheManager {
  import opened Wrappers
  import opened HatTrie
  import opened TokenBytes

  const MIN_LEN := 128
  const MAX_LEN := 8192

  type CacheId = nat

  const CACHE_SKIP: CacheId := 0

  datatype DstType = CacheMiss | CacheDb | CacheDeviceSlot

  datatype NnCacheDst = NnCacheDst(dstType: DstType, slot: nat, id: CacheId, prefixLen: nat, matchLen: nat)

  /** A slot with an empty prefix is free. */
  datatype DeviceSlotStatus = DeviceSlotStatus(slot: nat, prefix: seq<Token>, lruScore: nat)

  datatype DbMetadata = DbMetadata(prefix: seq<Token>, lruScore: nat)

  /** Prefixes are recorded up to a maximum length. */
  function Capped(tokens: seq<Token>): (r: seq<Token>)
    ensures r <= tokens && |r| <= MAX_LEN && (|tokens| <= MAX_LEN ==> r == tokens)
    ensures |r| == if |tokens| < 8192 then |tokens| else 8192
  {
    if |tokens| >= MAX_LEN then tokens[..MAX_LEN] else tokens
  }

  /** The order in which slots are taken. */
  predicate PreferPickThan(a: DeviceSlotStatus, b: DeviceSlotStatus) {
    if a.lruScore != b.lruScore then a.lruScore < b.lruScore
    else if |a.prefix| != |b.prefix| then |a.prefix| < |b.prefix|
    else a.slot < b.slot
  }

  /** The slot records and the CACHE_DEVICE_SLOT entries name each other; every CACHE_DB entry is
      stored under the prefix its metadata gives; every key is some token sequence. */
  ghost predicate Consistent(c: map<Key, NnCacheDst>, slots: seq<DeviceSlotStatus>, metas: map<CacheId, DbMetadata>) {
    && (forall s | 0 <= s < |slots| :: slots[s].slot == s && |slots[s].prefix| <= MAX_LEN)
    && (forall s {:trigger SlotListed(c, slots, s)} | 0 <= s < |slots| && slots[s].prefix != [] :: SlotListed(c, slots, s))
    && (forall k {:trigger EntryBacked(c, slots, metas, k)} | k in c :: EntryBacked(c, slots, metas, k))
    && (forall id <- metas :: |metas[id].prefix| <= MAX_LEN)
  }

  ghost predicate SlotListed(c: map<Key, NnCacheDst>, slots: seq<DeviceSlotStatus>, s: nat)
    requires s < |slots|
  {
    var k := Encode(slots[s].prefix);
    k in c && c[k].dstType == CacheDeviceSlot && c[k].slot == s
  }

  ghost predicate EntryBacked(c: map<Key, NnCacheDst>, slots: seq<DeviceSlotStatus>, metas: map<CacheId, DbMetadata>, k: Key)
    requires k in c
  {
    match c[k].dstType
    case CacheMiss => false
    case CacheDeviceSlot =>
      && c[k].slot < |slots| && slots[c[k].slot].prefix != [] && Encode(slots[c[k].slot].prefix) == k
      && c[k].prefixLen == |slots[c[k].slot].prefix|
    case CacheDb =>
      && c[k].id in metas && Encode(metas[c[k].id].prefix) == k && c[k].prefixLen == |metas[c[k].id].prefix|
  }

  /** A slot entry with the id of a record has the record's prefix. */
  ghost predicate SlotsRecorded(c: map<Key, NnCacheDst>, slots: seq<DeviceSlotStatus>, metas: map<CacheId, DbMetadata>) {
    forall k <- c | c[k].dstType == CacheDeviceSlot && c[k].slot < |slots| && c[k].id in metas ::
      metas[c[k].id].prefix == slots[c[k].slot].prefix
  }

  ghost predicate AllOpen(slots: seq<DeviceSlotStatus>, metas: map<CacheId, DbMetadata>, first: Token) {
    && (forall s | 0 <= s < |slots| :: Opens(slots[s].prefix, first))
    && (forall id <- metas :: Opens(metas[id].prefix, first))
  }

  predicate Opens(tokens: seq<Token>, first: Token) {
    tokens != [] ==> tokens[0] == first
  }

  /** A key of some tokens starts with the first byte of the first token. */
  lemma FirstByte(tokens: seq<Token>)
    ensures tokens == [] <==> Encode(tokens) == []
    ensures tokens != [] ==> Encode(tokens)[0] == TokenKey(tokens[0])[0]
  {
  }

  /** Of two keys one has a byte. */
  lemma SomeByte(c: map<Key, NnCacheDst>)
    requires |c| > 1
    ensures exists k <- c :: k != []
  {
    assert |c.Keys| == |c|;
    if forall k <- c :: k == [] {
      CardinalityMonotone(c.Keys, {[]});
    }
  }

  /** The tokens an entry stands for. */
  ghost function EntryTokens(slots: seq<DeviceSlotStatus>, metas: map<CacheId, DbMetadata>, dst: NnCacheDst): seq<Token> {
    if dst.dstType == CacheDeviceSlot && dst.slot < |slots| then slots[dst.slot].prefix
    else if dst.dstType == CacheDb && dst.id in metas then metas[dst.id].prefix
    else []
  }

  class NnPrefixCacheManager {
    const trie: HtrieMap<NnCacheDst>
    var deviceSlots: seq<DeviceSlotStatus>
    var dbMetas: map<CacheId, DbMetadata>
    var nextLruScore: nat
    var nextCacheId: CacheId
    const hasDb: bool

    ghost predicate Valid()
      reads this, trie, trie.nodes
    {
      && trie.Valid() && trie.burstThreshold == DEFAULT_BURST_THRESHOLD
      && Consistent(trie.contents, deviceSlots, dbMetas)
      && nextCacheId > CACHE_SKIP && (forall id <- dbMetas :: CACHE_SKIP < id < nextCacheId)
      && (!hasDb ==> dbMetas == map[])
      && (forall k <- trie.contents :: trie.contents[k].id < nextCacheId)
    }

    /** Every recorded prefix is empty or opens with token `first`, and a burst root has a key with a byte. */
    ghost predicate Anchored(first: Token)
      reads this, trie, trie.root
    {
      AllOpen(deviceSlots, dbMetas, first) && (trie.RootUnburst() || exists k <- trie.contents :: k != [])
    }

    /** The root is one hash node until there are as many entries as it takes. */
    ghost predicate Compact()
      reads this, trie, trie.root
    {
      trie.RootUnburst() || |deviceSlots| + |dbMetas| >= 16384
    }

    /** Every record is found under its prefix. */
    ghost predicate AllEntered()
      reads this, trie
    {
      forall id <- dbMetas :: Encode(dbMetas[id].prefix) in trie.contents
    }

    constructor (slots: nat, hasDb: bool, metas: seq<(CacheId, DbMetadata)>)
      requires !hasDb ==> metas == []
      requires forall i | 0 <= i < |metas| :: metas[i].0 > CACHE_SKIP && |metas[i].1.prefix| < MAX_LEN
      requires forall i, j | 0 <= i < j < |metas| :: metas[i].0 != metas[j].0
      ensures Valid() && fresh(trie) && fresh(trie.nodes) && this.hasDb == hasDb
      ensures deviceSlots == FreeSlots(slots) && dbMetas == MetaMap(metas) && trie.burstThreshold == 16384
      ensures trie.RootUnburst() || exists k <- trie.contents :: k != []
      ensures Compact() && AllEntered() && forall k <- trie.contents :: trie.contents[k].dstType == CacheDb
    {
      trie := new HtrieMap(DEFAULT_BURST_THRESHOLD);
      deviceSlots := FreeSlots(slots);
      dbMetas := map[];
      nextLruScore, nextCacheId := 1, 1;
      this.hasDb := hasDb;
      new;
      LoadAll(metas);
    }

    /** The loop of the constructor over the metadata found in the database. */
    method LoadAll(metas: seq<(CacheId, DbMetadata)>)
      requires Valid() && dbMetas == map[] && trie.contents == map[] && trie.RootUnburst() && (!hasDb ==> metas == [])
      requires forall i | 0 <= i < |metas| :: metas[i].0 > CACHE_SKIP && |metas[i].1.prefix| < MAX_LEN
      requires forall i, j | 0 <= i < j < |metas| :: metas[i].0 != metas[j].0
      modifies this`dbMetas, this`nextLruScore, this`nextCacheId, trie, trie.nodes
      ensures Valid() && fresh(trie.nodes - old(trie.nodes)) && dbMetas == MetaMap(metas)
      ensures trie.RootUnburst() || exists k <- trie.contents :: k != []
      ensures Compact() && AllEntered() && forall k <- trie.contents :: trie.contents[k].dstType == CacheDb
    {
      hide Valid, HtrieMap.Valid, Consistent, Encode, HtrieMap.RootUnburst;
      assert metas[..|metas|] == metas;
      for i := 0 to |metas|
        invariant Valid() && fresh(trie.nodes - old(trie.nodes))
        invariant dbMetas == MetaMap(metas[..i]) && Compact() && AllEntered()
        invariant trie.RootUnburst() || |trie.contents| > 1
        invariant forall k <- trie.contents :: trie.contents[k].dstType == CacheDb
      {
        MetaMapStep(metas, i);
        LoadEntry(metas[i].0, metas[i].1);
      }
      if |trie.contents| > 1 {
        SomeByte(trie.contents);
      }
    }

    /** One step of the constructor: an entry found in the database. */
    method LoadEntry(id: CacheId, meta: DbMetadata)
      requires Valid() && hasDb && id !in dbMetas && id > CACHE_SKIP && |meta.prefix| < MAX_LEN
      modifies this`dbMetas, this`nextLruScore, this`nextCacheId, trie, trie.nodes
      ensures Valid() && fresh(trie.nodes - old(trie.nodes)) && dbMetas == old(dbMetas)[id := meta]
      ensures trie.contents == if Encode(meta.prefix) in old(trie.contents) then old(trie.contents)
                               else old(trie.contents)[Encode(meta.prefix) := NnCacheDst(CacheDb, 0, id, |meta.prefix|, 0)]
      ensures |trie.contents| >= |old(trie.contents)| && (old(Compact()) ==> Compact())
      ensures old(trie.RootUnburst()) ==> trie.RootUnburst() || |trie.contents| > 1
    {
      hide HtrieMap.Valid, Consistent, Encode, HtrieMap.RootUnburst;
      if nextLruScore <= meta.lruScore {
        nextLruScore := meta.lruScore + 1;
      }
      if nextCacheId <= id {
        nextCacheId := id + 1;
      }
      NewMetaKeeps(trie.contents, deviceSlots, dbMetas, id, meta);
      EntriesBounded(trie.contents, deviceSlots, dbMetas);
      dbMetas := dbMetas[id := meta];
      var r := trie.Insert(Encode(meta.prefix), NnCacheDst(CacheDb, 0, id, |meta.prefix|, 0));
    }

    /** How many leading tokens the entry under `k` shares with `tokens`. */
    ghost function Shared(k: Key, tokens: seq<Token>): nat
      requires k in trie.contents
      reads this, trie
    {
      CommonPrefix(EntryTokens(deviceSlots, dbMetas, trie.contents[k]), tokens)
    }

    /** lookup, for any trie. A hit is an entry sharing the longest token prefix, of at least MIN_LEN. It is a hit
        exactly when the walk ends in a hash node and the shared prefix is long enough; None is the access through
        the null parent. */
    method Lookup(tokens: seq<Token>) returns (r: Option<NnCacheDst>)
      requires Valid()
      ensures r == None <==>
              !trie.RootUnburst() && tokens != [] && forall k <- trie.contents :: k == [] || k[0] != TokenKey(tokens[0])[0]
      ensures r.Some? ==>
                (r.value.dstType == CacheMiss
                 <==> || (forall n <- trie.nodes :: !trie.OnQuery(n, Encode(tokens)))
                      || (forall k <- trie.contents :: Shared(k, tokens) < MIN_LEN))
      ensures r.Some? && r.value.dstType != CacheMiss ==>
                && (forall k <- trie.contents :: Shared(k, tokens) <= r.value.matchLen)
                && exists k <- trie.contents ::
                     r.value == trie.contents[k].(matchLen := r.value.matchLen) && Shared(k, tokens) == r.value.matchLen
    {
      hide HtrieMap.Valid, HtrieMap.RootUnburst, CommonPrefix, HtrieMap.PointsAt, HtrieMap.OnQuery, Encode;
      ghost var key;
      var range;
      FirstByte(tokens);
      range, key := trie.EqualLongestPrefixRange(Encode(tokens));
      if range.NullParent? {
        return None;
      }
      if !range.Matched? || range.length / 4 < MIN_LEN {
        forall k | k in trie.contents && range.Matched?
          ensures Shared(k, tokens) < MIN_LEN
        {
          SharedIs(k, tokens, range.length);
        }
        return Some(NnCacheDst(CacheMiss, 0, 0, 0, 0));
      }
      forall k | k in trie.contents
        ensures Shared(k, tokens) <= range.length / 4
        ensures k == key ==> Shared(k, tokens) == range.length / 4
      {
        SharedIs(k, tokens, range.length);
      }
      var dst := trie.Value(range.first, key);
      return Some(dst.(matchLen := range.length / 4));
    }

    /** Shared tokens are shared bytes, four each. */
    lemma SharedIs(k: Key, tokens: seq<Token>, length: nat)
      requires Valid() && k in trie.contents && CommonPrefix(k, Encode(tokens)) <= length
      ensures Shared(k, tokens) == CommonPrefix(k, Encode(tokens)) / 4 <= length / 4
    {
      hide CommonPrefix, Encode;
      assert EntryBacked(trie.contents, deviceSlots, dbMetas, k);
      CommonPrefixOfEncodings(EntryTokens(deviceSlots, dbMetas, trie.contents[k]), tokens);
    }

    /** While the root is a hash node, lookups miss nothing. */
    lemma UnburstMissesNothing(tokens: seq<Token>)
      requires Valid() && trie.RootUnburst()
      ensures (forall n <- trie.nodes :: !trie.OnQuery(n, Encode(tokens))) ==>
                forall k <- trie.contents :: Shared(k, tokens) < MIN_LEN
    {
      hide Consistent;
      if Encode(tokens) != [] {
        trie.UnburstOnQuery(Encode(tokens));
        if trie.root == null {
          trie.EmptyTree();
        }
      } else {
        assert |Encode(tokens)| == 4 * |tokens|;
      }
    }

    /** What a slot has recorded is found again: its entry shares with any tokens what its prefix does. */
    lemma SlotIsFound(s: nat, tokens: seq<Token>)
      requires Valid() && s < |deviceSlots| && deviceSlots[s].prefix != []
      ensures var k := Encode(deviceSlots[s].prefix);
              && k in trie.contents && trie.contents[k].dstType == CacheDeviceSlot && trie.contents[k].slot == s
              && Shared(k, tokens) == CommonPrefix(deviceSlots[s].prefix, tokens)
    {
      hide HtrieMap.Valid, Encode;
      assert SlotListed(trie.contents, deviceSlots, s);
    }

    /** An entry for tokens that start like some others do shares that start with them. */
    lemma SharesStart(entered: seq<Token>, start: seq<Token>, tokens: seq<Token>)
      requires Valid() && Encode(entered) in trie.contents && start <= entered && start <= tokens
      ensures Shared(Encode(entered), tokens) >= |start|
    {
      hide HtrieMap.Valid, Encode, CommonPrefix;
      assert EntryBacked(trie.contents, deviceSlots, dbMetas, Encode(entered));
      EncodeInjective(EntryTokens(deviceSlots, dbMetas, trie.contents[Encode(entered)]), entered);
      CommonPrefixBelow(entered, tokens, |start|);
    }

    /** Prompts that open like everything recorded never get to the null parent. */
    lemma NeverNull(first: Token, tokens: seq<Token>)
      requires Valid() && Anchored(first) && (tokens != [] ==> tokens[0] == first)
      ensures trie.RootUnburst() || tokens == [] || exists k <- trie.contents :: k != [] && k[0] == TokenKey(tokens[0])[0]
    {
      hide HtrieMap.Valid, HtrieMap.RootUnburst, Encode;
      if !trie.RootUnburst() && tokens != [] {
        var k :| k in trie.contents && k != [];
        assert EntryBacked(trie.contents, deviceSlots, dbMetas, k);
        var stored := EntryTokens(deviceSlots, dbMetas, trie.contents[k]);
        FirstByte(stored);
      }
    }

    /** pickSlot: the first slot in the order of PreferPickThan. */
    method PickSlot() returns (slot: nat)
      requires Valid() && deviceSlots != []
      ensures slot < |deviceSlots|
      ensures forall s | 0 <= s < |deviceSlots| && s != slot ::
                var a, b := deviceSlots[slot], deviceSlots[s];
                || a.lruScore < b.lruScore
                || (a.lruScore == b.lruScore && |a.prefix| < |b.prefix|)
                || (a.lruScore == b.lruScore && |a.prefix| == |b.prefix| && slot < s)
    {
      slot := 0;
      for i := 1 to |deviceSlots|
        invariant slot < i
        invariant forall s | 0 <= s < i && s != slot :: PreferPickThan(deviceSlots[slot], deviceSlots[s])
      {
        if PreferPickThan(deviceSlots[i], deviceSlots[slot]) {
          slot := i;
        }
      }
    }

    method GetCacheId() returns (id: CacheId)
      requires Valid()
      modifies this`nextCacheId
      ensures Valid() && (old(Compact()) ==> Compact())
      ensures if hasDb then id == old(nextCacheId) && id !in dbMetas && nextCacheId == id + 1
              else id == CACHE_SKIP && nextCacheId == old(nextCacheId)
    {
      if !hasDb {
        return CACHE_SKIP;
      }
      id := nextCacheId;
      nextCacheId := nextCacheId + 1;
    }

    /** updateDeviceSlot: the slot now holds the keys and values of `tokens`. An empty prefix breaks the invariant,
        unless its key was taken: its entry names a slot that counts as free. */
    method UpdateDeviceSlot(slot: nat, tokens: seq<Token>, cacheId: CacheId)
      requires Valid() && slot < |deviceSlots| && cacheId < nextCacheId
      modifies this`deviceSlots, this`nextLruScore, trie, trie.nodes
      ensures Valid() <==> tokens != [] || Encode([]) in WithoutSlot(old(trie.contents), old(deviceSlots), slot)
      ensures fresh(trie.nodes - old(trie.nodes)) && nextLruScore == old(nextLruScore) + 1
      ensures (trie.contents, deviceSlots) ==
              SlotUpdated(old(trie.contents), old(deviceSlots), slot, Capped(tokens), cacheId, old(nextLruScore))
      ensures old(Compact()) ==> Compact()
    {
      hide HtrieMap.Valid, HtrieMap.RootUnburst, Consistent, Encode;
      EntriesBounded(trie.contents, deviceSlots, dbMetas);
      SlotUpdateKeeps(trie.contents, deviceSlots, dbMetas, slot, Capped(tokens), cacheId, nextLruScore);
      EnterSlot(slot, Capped(tokens), cacheId);
    }

    /** The trie and slot record changes of updateDeviceSlot. */
    method EnterSlot(slot: nat, t: seq<Token>, cacheId: CacheId)
      requires trie.Valid() && trie.burstThreshold == DEFAULT_BURST_THRESHOLD && slot < |deviceSlots| && |t| <= MAX_LEN
      modifies this`deviceSlots, this`nextLruScore, trie, trie.nodes
      ensures trie.Valid() && fresh(trie.nodes - old(trie.nodes)) && nextLruScore == old(nextLruScore) + 1
      ensures (trie.contents, deviceSlots) ==
              SlotUpdated(old(trie.contents), old(deviceSlots), slot, t, cacheId, old(nextLruScore))
      ensures old(trie.RootUnburst()) && |old(trie.contents)| < 16384 ==> trie.RootUnburst()
    {
      hide HtrieMap.Valid, HtrieMap.RootUnburst, Encode, WithoutEntry;
      if deviceSlots[slot].prefix != [] {
        EraseIf(Encode(deviceSlots[slot].prefix), CacheDeviceSlot, slot);
      }
      var found := trie.Find(Encode(t));
      if found.Some? {
        deviceSlots := deviceSlots[slot := DeviceSlotStatus(slot, [], 0)];
      } else {
        deviceSlots := deviceSlots[slot := DeviceSlotStatus(slot, t, nextLruScore)];
        var r := trie.Insert(Encode(t), NnCacheDst(CacheDeviceSlot, slot, cacheId, |t|, 0));
      }
      nextLruScore := nextLruScore + 1;
    }

    /** The shared find-then-erase of both updates: erase the entry under `key` if it is the
        device-slot entry of slot `n`, or the database entry of id `n`. */
    method EraseIf(key: Key, dstType: DstType, n: nat)
      requires trie.Valid()
      modifies trie, trie.nodes
      ensures trie.Valid() && trie.nodes <= old(trie.nodes)
      ensures trie.contents == WithoutEntry(old(trie.contents), key, dstType, n)
      ensures |trie.contents| <= |old(trie.contents)| && (old(trie.RootUnburst()) ==> trie.RootUnburst())
    {
      hide HtrieMap.Valid;
      var it := trie.Find(key);
      if it.Some? {
        var v := trie.Value(it.value, key);
        if v.dstType == dstType && (if dstType == CacheDeviceSlot then v.slot else v.id) == n {
          trie.Erase(it.value, key);
        }
      }
    }

    /** updateNnCacheDatabaseMetadata: cache id `id` now holds the keys and values of `tokens`.
        The result is what is staged for the database. */
    method UpdateDbMetadata(id: CacheId, tokens: seq<Token>) returns (staged: Option<DbMetadata>)
      requires Valid() && CACHE_SKIP < id < nextCacheId
      modifies this`dbMetas, this`nextLruScore, trie, trie.nodes
      ensures Valid() && fresh(trie.nodes - old(trie.nodes))
      ensures !hasDb ==> staged == None && unchanged(this) && trie.contents == old(trie.contents)
      ensures hasDb ==> staged == Some(DbMetadata(Capped(tokens), old(nextLruScore))) && nextLruScore == old(nextLruScore) + 1
      ensures hasDb ==> (trie.contents, dbMetas) ==
                        MetaUpdated(old(trie.contents), old(dbMetas), id, Capped(tokens), old(nextLruScore))
      ensures hasDb ==> dbMetas == old(dbMetas)[id := staged.value]
      ensures old(Compact()) ==> Compact()
    {
      hide HtrieMap.Valid, HtrieMap.RootUnburst, Consistent, Encode;
      if !hasDb {
        return None;
      }
      EntriesBounded(trie.contents, deviceSlots, dbMetas);
      MetaUpdateKeeps(trie.contents, deviceSlots, dbMetas, id, Capped(tokens), nextLruScore);
      staged := Some(DbMetadata(Capped(tokens), nextLruScore));
      EnterMeta(id, Capped(tokens));
    }

    /** The trie and metadata changes of updateNnCacheDatabaseMetadata. */
    method EnterMeta(id: CacheId, t: seq<Token>)
      requires trie.Valid() && trie.burstThreshold == DEFAULT_BURST_THRESHOLD && |t| <= MAX_LEN
      modifies this`dbMetas, this`nextLruScore, trie, trie.nodes
      ensures trie.Valid() && fresh(trie.nodes - old(trie.nodes)) && nextLruScore == old(nextLruScore) + 1
      ensures (trie.contents, dbMetas) == MetaUpdated(old(trie.contents), old(dbMetas), id, t, old(nextLruScore))
      ensures dbMetas == old(dbMetas)[id := DbMetadata(t, old(nextLruScore))]
      ensures old(trie.RootUnburst()) && |old(trie.contents)| < 16384 ==> trie.RootUnburst()
    {
      hide HtrieMap.Valid, HtrieMap.RootUnburst, Encode, WithoutEntry;
      if id in dbMetas {
        EraseIf(Encode(dbMetas[id].prefix), CacheDb, id);
      }
      dbMetas := dbMetas[id := DbMetadata(t, nextLruScore)];
      nextLruScore := nextLruScore + 1;
      var found := trie.Find(Encode(t));
      if found == None {
        var r := trie.Insert(Encode(t), NnCacheDst(CacheDb, 0, id, |t|, 0));
      }
    }
  }

  ghost function WithoutEntry(c: map<Key, NnCacheDst>, key: Key, dstType: DstType, n: nat): map<Key, NnCacheDst> {
    if key in c && c[key].dstType == dstType && (if dstType == CacheDeviceSlot then c[key].slot else c[key].id) == n
    then c - {key}
    else c
  }

  ghost function WithoutSlot(c: map<Key, NnCacheDst>, slots: seq<DeviceSlotStatus>, slot: nat): map<Key, NnCacheDst>
    requires slot < |slots|
  {
    if slots[slot].prefix != [] then WithoutEntry(c, Encode(slots[slot].prefix), CacheDeviceSlot, slot) else c
  }

  ghost function WithoutMeta(c: map<Key, NnCacheDst>, metas: map<CacheId, DbMetadata>, id: CacheId): map<Key, NnCacheDst> {
    if id in metas then WithoutEntry(c, Encode(metas[id].prefix), CacheDb, id) else c
  }

  /** The trie and the slot records after the slot took prefix `t`: a prefix that is still stored
      for somebody else frees the slot instead. */
  ghost function SlotUpdated(c: map<Key, NnCacheDst>, slots: seq<DeviceSlotStatus>, slot: nat, t: seq<Token>,
                             id: CacheId, lru: nat): (map<Key, NnCacheDst>, seq<DeviceSlotStatus>)
    requires slot < |slots|
  {
    var c' := WithoutSlot(c, slots, slot);
    if Encode(t) in c' then (c', slots[slot := DeviceSlotStatus(slot, [], 0)])
    else (c'[Encode(t) := NnCacheDst(CacheDeviceSlot, slot, id, |t|, 0)], slots[slot := DeviceSlotStatus(slot, t, lru)])
  }

  ghost function MetaUpdated(c: map<Key, NnCacheDst>, metas: map<CacheId, DbMetadata>, id: CacheId, t: seq<Token>, lru: nat)
    : (map<Key, NnCacheDst>, map<CacheId, DbMetadata>)
  {
    var c' := WithoutMeta(c, metas, id);
    (if Encode(t) in c' then c' else c'[Encode(t) := NnCacheDst(CacheDb, 0, id, |t|, 0)],
     metas[id := DbMetadata(t, lru)])
  }

  /** What becomes of the entries does not depend on the score. */
  lemma ScoreApart(c: map<Key, NnCacheDst>, slots: seq<DeviceSlotStatus>, slot: nat, metas: map<CacheId, DbMetadata>,
                   id: CacheId, t: seq<Token>, a: nat, b: nat)
    requires slot < |slots|
    ensures MetaUpdated(c, metas, id, t, a).0 == MetaUpdated(c, metas, id, t, b).0
    ensures SlotUpdated(c, slots, slot, t, id, a).0 == SlotUpdated(c, slots, slot, t, id, b).0
  {
    hide Encode;
  }

  /** And of a record only the old prefix matters. */
  lemma PrefixDecides(c: map<Key, NnCacheDst>, a: map<CacheId, DbMetadata>, b: map<CacheId, DbMetadata>, id: CacheId,
                      t: seq<Token>)
    requires id in a && id in b && a[id].prefix == b[id].prefix
    ensures MetaUpdated(c, a, id, t, 0).0 == MetaUpdated(c, b, id, t, 0).0
  {
    hide Encode;
  }

  /** The entry belongs to the slot, or to the record. */
  ghost predicate OwnedBy(c: map<Key, NnCacheDst>, k: Key, dstType: DstType, n: nat) {
    && k in c && c[k].dstType == dstType
    && if dstType == CacheDeviceSlot then c[k].slot == n else c[k].id == n
  }

  /** What a slot update does, key by key: the slot's old entry goes, the new key is there, every other entry and
      slot is as it was; the slot records the prefix and the score unless its key belongs to somebody else. */
  lemma SlotUpdatedIs(c: map<Key, NnCacheDst>, slots: seq<DeviceSlotStatus>, metas: map<CacheId, DbMetadata>,
                      slot: nat, t: seq<Token>, id: CacheId, lru: nat)
    requires Consistent(c, slots, metas) && slot < |slots|
    ensures var (c', slots') := SlotUpdated(c, slots, slot, t, id, lru);
            var key, was := Encode(t), Encode(slots[slot].prefix);
            && (forall k :: k in c' <==> k == key || (k in c && !(slots[slot].prefix != [] && k == was)))
            && (forall k <- c' | k != key :: c'[k] == c[k])
            && (if key in c && !(slots[slot].prefix != [] && key == was)
                then c'[key] == c[key] && slots' == slots[slot := DeviceSlotStatus(slot, [], 0)]
                else && c'[key] == NnCacheDst(CacheDeviceSlot, slot, id, |t|, 0)
                     && slots' == slots[slot := DeviceSlotStatus(slot, t, lru)])
  {
    hide Encode;
    if slots[slot].prefix != [] {
      assert SlotListed(c, slots, slot);
    }
  }

  /** The same for a record: its old entry goes where it still is its own, and a key that is taken stays. */
  lemma MetaUpdatedIs(c: map<Key, NnCacheDst>, metas: map<CacheId, DbMetadata>, id: CacheId, t: seq<Token>, lru: nat)
    ensures var (c', metas') := MetaUpdated(c, metas, id, t, lru);
            var key := Encode(t);
            && (forall k :: k in c' <==>
                  k == key || (k in c && !(id in metas && k == Encode(metas[id].prefix) && OwnedBy(c, k, CacheDb, id))))
            && (forall k <- c' | k != key :: c'[k] == c[k])
            && c'[key] == (if key in c && !(id in metas && key == Encode(metas[id].prefix) && OwnedBy(c, key, CacheDb, id)) then c[key]
                           else NnCacheDst(CacheDb, 0, id, |t|, 0))
            && metas' == metas[id := DbMetadata(t, lru)]
  {
    hide Encode;
  }

  lemma SlotUpdateKeeps(c: map<Key, NnCacheDst>, slots: seq<DeviceSlotStatus>, metas: map<CacheId, DbMetadata>,
                        slot: nat, t: seq<Token>, id: CacheId, lru: nat)
    requires Consistent(c, slots, metas) && slot < |slots| && |t| <= MAX_LEN
    ensures var (c', slots') := SlotUpdated(c, slots, slot, t, id, lru);
            && Encode(t) in c'
            && (Consistent(c', slots', metas) <==> t != [] || Encode([]) in WithoutSlot(c, slots, slot))
  {
    hide Encode, SlotListed, EntryBacked, WithoutSlot, SlotUpdated;
    var (c', slots') := SlotUpdated(c, slots, slot, t, id, lru);
    SlotsThere(c, slots, metas, slot, t, id, lru);
    if t == [] && Encode(t) !in WithoutSlot(c, slots, slot) {
      EmptyUnbacked(c', slots', metas);
      return;
    }
    forall s | 0 <= s < |slots'| && slots'[s].prefix != []
      ensures SlotListed(c', slots', s)
    {
      SlotSlotKept(c, slots, metas, slot, t, id, lru, s);
    }
    forall k | k in c'
      ensures EntryBacked(c', slots', metas, k)
    {
      SlotEntryKept(c, slots, metas, slot, t, id, lru, k);
    }
  }

  lemma SlotsThere(c: map<Key, NnCacheDst>, slots: seq<DeviceSlotStatus>, metas: map<CacheId, DbMetadata>,
                   slot: nat, t: seq<Token>, id: CacheId, lru: nat)
    requires Consistent(c, slots, metas) && slot < |slots| && |t| <= MAX_LEN
    ensures var (c', slots') := SlotUpdated(c, slots, slot, t, id, lru);
            && Encode(t) in c' && |slots'| == |slots|
            && (forall s | 0 <= s < |slots'| :: slots'[s].slot == s && |slots'[s].prefix| <= MAX_LEN)
            && (forall id <- metas :: |metas[id].prefix| <= MAX_LEN)
            && (t == [] && Encode(t) !in WithoutSlot(c, slots, slot) ==>
                  && c'[Encode([])].dstType == CacheDeviceSlot && c'[Encode([])].slot < |slots'|
                  && slots'[c'[Encode([])].slot].prefix == [])
  {
    hide Encode, SlotListed, EntryBacked, WithoutSlot;
  }

  /** No slot backs an entry under the empty key. */
  lemma EmptyUnbacked(c: map<Key, NnCacheDst>, slots: seq<DeviceSlotStatus>, metas: map<CacheId, DbMetadata>)
    requires Encode([]) in c && c[Encode([])].dstType == CacheDeviceSlot
    requires c[Encode([])].slot < |slots| && slots[c[Encode([])].slot].prefix == []
    ensures !EntryBacked(c, slots, metas, Encode([]))
  {
    hide Encode;
  }

  lemma SlotSlotKept(c: map<Key, NnCacheDst>, slots: seq<DeviceSlotStatus>, metas: map<CacheId, DbMetadata>,
                     slot: nat, t: seq<Token>, id: CacheId, lru: nat, s: nat)
    requires Consistent(c, slots, metas) && slot < |slots| && |t| <= MAX_LEN && s < |slots|
    requires SlotUpdated(c, slots, slot, t, id, lru).1[s].prefix != []
    ensures var (c', slots') := SlotUpdated(c, slots, slot, t, id, lru); SlotListed(c', slots', s)
  {
    hide Encode, EntryBacked;
    assert s != slot ==> SlotListed(c, slots, s);
  }

  lemma SlotEntryKept(c: map<Key, NnCacheDst>, slots: seq<DeviceSlotStatus>, metas: map<CacheId, DbMetadata>,
                      slot: nat, t: seq<Token>, id: CacheId, lru: nat, k: Key)
    requires Consistent(c, slots, metas) && slot < |slots| && |t| <= MAX_LEN
    requires t != [] || Encode([]) in WithoutSlot(c, slots, slot)
    requires k in SlotUpdated(c, slots, slot, t, id, lru).0
    ensures var (c', slots') := SlotUpdated(c, slots, slot, t, id, lru); EntryBacked(c', slots', metas, k)
  {
    hide Encode, SlotListed;
    assert k in c ==> EntryBacked(c, slots, metas, k);
  }

  /** With one slot, what its entry says after an update. */
  lemma OneSlotEntry(c: map<Key, NnCacheDst>, slots: seq<DeviceSlotStatus>, metas: map<CacheId, DbMetadata>,
                     t: seq<Token>, id: CacheId, lru: nat)
    requires Consistent(c, slots, metas) && |slots| == 1 && 0 < |t| <= MAX_LEN
    ensures var (c', slots') := SlotUpdated(c, slots, 0, t, id, lru);
            && forall k <- c' :: c'[k].dstType == CacheDeviceSlot ==> c'[k].id == id && c'[k].slot == 0 && slots'[0].prefix == t
  {
    var (c', slots') := SlotUpdated(c, slots, 0, t, id, lru);
    SlotUpdateKeeps(c, slots, metas, 0, t, id, lru);
    forall k | k in c' && c'[k].dstType == CacheDeviceSlot
      ensures c'[k].id == id && c'[k].slot == 0 && slots'[0].prefix == t
    {
      assert EntryBacked(c', slots', metas, k);
    }
  }

  lemma MetaUpdateKeeps(c: map<Key, NnCacheDst>, slots: seq<DeviceSlotStatus>, metas: map<CacheId, DbMetadata>,
                        id: CacheId, t: seq<Token>, lru: nat)
    requires Consistent(c, slots, metas) && |t| <= MAX_LEN
    ensures var (c', metas') := MetaUpdated(c, metas, id, t, lru); Encode(t) in c' && Consistent(c', slots, metas')
  {
    hide Encode, SlotListed, EntryBacked, WithoutMeta;
    var (c', metas') := MetaUpdated(c, metas, id, t, lru);
    forall s | 0 <= s < |slots| && slots[s].prefix != []
      ensures SlotListed(c', slots, s)
    {
      MetaSlotKept(c, slots, metas, id, t, lru, s);
    }
    forall k | k in c'
      ensures EntryBacked(c', slots, metas', k)
    {
      MetaEntryKept(c, slots, metas, id, t, lru, k);
    }
  }

  lemma MetaSlotKept(c: map<Key, NnCacheDst>, slots: seq<DeviceSlotStatus>, metas: map<CacheId, DbMetadata>,
                     id: CacheId, t: seq<Token>, lru: nat, s: nat)
    requires Consistent(c, slots, metas) && s < |slots| && slots[s].prefix != []
    ensures SlotListed(MetaUpdated(c, metas, id, t, lru).0, slots, s)
  {
    hide Encode, EntryBacked;
    assert SlotListed(c, slots, s);
  }

  lemma MetaEntryKept(c: map<Key, NnCacheDst>, slots: seq<DeviceSlotStatus>, metas: map<CacheId, DbMetadata>,
                      id: CacheId, t: seq<Token>, lru: nat, k: Key)
    requires Consistent(c, slots, metas) && k in MetaUpdated(c, metas, id, t, lru).0
    ensures var (c', metas') := MetaUpdated(c, metas, id, t, lru); EntryBacked(c', slots, metas', k)
  {
    hide Encode, SlotListed;
    if k in c {
      assert EntryBacked(c, slots, metas, k);
    }
  }

  /** No database entry that a lookup could hit, below the maximum length, that was not there before. */
  ghost predicate NoNewDbEntry(before: map<Key, NnCacheDst>, after: map<Key, NnCacheDst>) {
    forall k <- after | after[k].dstType == CacheDb && 128 <= after[k].prefixLen < 8192 :: k in before && before[k] == after[k]
  }

  /** The updates of one request: its record for its prompt, then the slot and the record with its answer. */
  ghost function Requested(c: map<Key, NnCacheDst>, slots: seq<DeviceSlotStatus>, metas: map<CacheId, DbMetadata>,
                           id: CacheId, q: seq<Token>, p: seq<Token>)
    : (map<Key, NnCacheDst>, seq<DeviceSlotStatus>, map<CacheId, DbMetadata>)
    requires slots != []
  {
    var (c1, metas1) := MetaUpdated(c, metas, id, Capped(q), 0);
    var (c2, slots2) := SlotUpdated(c1, slots, 0, Capped(p), id, 0);
    var (c3, metas3) := MetaUpdated(c2, metas1, id, Capped(p), 0);
    (c3, slots2, metas3)
  }

  /** At its second update the key is the slot's, so the record gets no entry, and the one of the prompt is gone. */
  lemma RecordForgotten(c: map<Key, NnCacheDst>, slots: seq<DeviceSlotStatus>, metas: map<CacheId, DbMetadata>,
                        id: CacheId, q: seq<Token>, p: seq<Token>)
    requires slots != [] && q <= p && |q| < |p|
    ensures NoNewDbEntry(c, Requested(c, slots, metas, id, q, p).0)
  {
    hide Encode, MetaUpdated, SlotUpdated, Capped;
    var (c1, metas1) := MetaUpdated(c, metas, id, Capped(q), 0);
    var (c2, slots2) := SlotUpdated(c1, slots, 0, Capped(p), id, 0);
    MetaAdds(c, metas, id, Capped(q), 0);
    SlotAdds(c1, slots, Capped(p), id, 0);
    MetaReplaces(c2, metas1, id, Capped(p), 0);
    if Encode(Capped(q)) == Encode(Capped(p)) {
      EncodeInjective(Capped(q), Capped(p));
    }
  }

  /** When the slot takes another prefix, the one it held has no entry any more, whatever is recorded. */
  lemma SlotMovesOn(c: map<Key, NnCacheDst>, slots: seq<DeviceSlotStatus>, metas: map<CacheId, DbMetadata>,
                    id: CacheId, q: seq<Token>, p: seq<Token>)
    requires slots != [] && slots[0].prefix != [] && slots[0].prefix != Capped(p) && SlotListed(c, slots, 0)
    ensures var (c', _, metas') := Requested(c, slots, metas, id, q, p);
            && Encode(slots[0].prefix) !in c'
            && forall i <- metas | i != id :: i in metas' && metas'[i] == metas[i]
  {
    hide Encode, Capped;
    if Encode(slots[0].prefix) == Encode(Capped(p)) {
      EncodeInjective(slots[0].prefix, Capped(p));
    }
    var (c1, metas1) := MetaUpdated(c, metas, id, Capped(q), 0);
    var (c2, _) := SlotUpdated(c1, slots, 0, Capped(p), id, 0);
    assert Encode(slots[0].prefix) !in c2 && Encode(Capped(p)) in c2;
  }

  /** One request on an empty cache. */
  lemma FirstRequest(id: CacheId, q: seq<Token>, p: seq<Token>)
    requires q <= p && |q| < |p| < 8192
    ensures var (c, slots, metas) := Requested(map[], FreeSlots(1), map[], id, q, p);
            && SlotListed(c, slots, 0) && |slots| == 1 && slots[0].prefix == p && id in metas && metas[id].prefix == p
  {
    hide Encode;
    if Encode(q) == Encode(p) {
      EncodeInjective(q, p);
    }
  }

  /** Two requests on an empty cache: the tokens of the first are recorded, but nothing is entered for them. */
  lemma ForgottenExample(q: seq<Token>, p: seq<Token>, q': seq<Token>, p': seq<Token>)
    requires q <= p && q' <= p' && 128 <= |p| < 8192 && 128 <= |p'| < 8192 && |q| < |p| && |q'| < |p'| && p != p'
    ensures var (c, slots, metas) := Requested(map[], FreeSlots(1), map[], 1, q, p);
            var (c', slots', metas') := Requested(c, slots, metas, 2, q', p');
            && Encode(p) in c && 1 in metas && metas[1].prefix == p
            && Encode(p) !in c' && 1 in metas' && metas'[1].prefix == p
  {
    hide Encode, Requested, FreeSlots;
    var (c, slots, metas) := Requested(map[], FreeSlots(1), map[], 1, q, p);
    FirstRequest(1, q, p);
    SlotMovesOn(c, slots, metas, 2, q', p');
  }

  lemma MetaAdds(c: map<Key, NnCacheDst>, metas: map<CacheId, DbMetadata>, id: CacheId, t: seq<Token>, lru: nat)
    ensures var (c', metas') := MetaUpdated(c, metas, id, t, lru);
            && id in metas' && metas'[id].prefix == t
            && forall k <- c' | k !in c || c[k] != c'[k] :: k == Encode(t) && c'[k] == NnCacheDst(CacheDb, 0, id, |t|, 0)
  {
    hide Encode;
  }

  lemma SlotAdds(c: map<Key, NnCacheDst>, slots: seq<DeviceSlotStatus>, t: seq<Token>, id: CacheId, lru: nat)
    requires 0 < |slots|
    ensures var (c', _) := SlotUpdated(c, slots, 0, t, id, lru);
            && Encode(t) in c'
            && forall k <- c' | c'[k].dstType == CacheDb :: k in c && c[k] == c'[k]
  {
    hide Encode;
  }

  /** Where the key is there, a record's update only takes away: its own entry under the old prefix. */
  lemma MetaReplaces(c: map<Key, NnCacheDst>, metas: map<CacheId, DbMetadata>, id: CacheId, t: seq<Token>, lru: nat)
    requires id in metas && Encode(t) in c
    ensures var (c', _) := MetaUpdated(c, metas, id, t, lru);
            forall k <- c' ::
              || (k == Encode(t) == Encode(metas[id].prefix) && c'[k].prefixLen == |t|)
              || (k in c && c[k] == c'[k] && !(k == Encode(metas[id].prefix) && c[k].dstType == CacheDb && c[k].id == id))
  {
    hide Encode;
  }

  /** With a prompt and an answer too short for a lookup. */
  lemma ShortNotHit(c: map<Key, NnCacheDst>, slots: seq<DeviceSlotStatus>, metas: map<CacheId, DbMetadata>,
                    id: CacheId, q: seq<Token>, p: seq<Token>, id': CacheId, lru: nat)
    requires 0 < |slots| && |q| < 128
    ensures NoNewDbEntry(c, SlotUpdated(MetaUpdated(c, metas, id, Capped(q), lru).0, slots, 0, Capped(p), id', lru).0)
  {
    hide Encode;
  }

  lemma {:induction false} ImageBounded<A, B>(a: set<A>, f: A -> B, image: set<B>)
    requires forall y <- image :: exists x <- a :: f(x) == y
    ensures |image| <= |a|
  {
    if image != {} {
      var y :| y in image;
      var x :| x in a && f(x) == y;
      ImageBounded(a - {x}, f, image - {y});
    }
  }

  ghost function Below(n: nat): (r: set<nat>)
    ensures |r| == n && forall i: nat :: i in r <==> i < n
  {
    if n == 0 then {} else Below(n - 1) + {n - 1}
  }

  lemma SlotEntriesBounded(c: map<Key, NnCacheDst>, slots: seq<DeviceSlotStatus>, metas: map<CacheId, DbMetadata>, ks: set<Key>)
    requires Consistent(c, slots, metas) && forall k <- ks :: k in c && c[k].dstType == CacheDeviceSlot
    ensures |ks| <= |slots|
  {
    hide Encode;
    var f := (s: nat) => if s < |slots| then Encode(slots[s].prefix) else [];
    forall k | k in ks
      ensures exists s <- Below(|slots|) :: f(s) == k
    {
      assert EntryBacked(c, slots, metas, k);
      assert c[k].slot in Below(|slots|) && f(c[k].slot) == k;
    }
    ImageBounded(Below(|slots|), f, ks);
  }

  lemma DbEntriesBounded(c: map<Key, NnCacheDst>, slots: seq<DeviceSlotStatus>, metas: map<CacheId, DbMetadata>, ks: set<Key>)
    requires Consistent(c, slots, metas) && forall k <- ks :: k in c && c[k].dstType == CacheDb
    ensures |ks| <= |metas|
  {
    hide Encode;
    var f := (id: CacheId) => if id in metas then Encode(metas[id].prefix) else [];
    forall k | k in ks
      ensures exists id <- metas.Keys :: f(id) == k
    {
      assert EntryBacked(c, slots, metas, k);
      assert c[k].id in metas.Keys && f(c[k].id) == k;
    }
    ImageBounded(metas.Keys, f, ks);
    assert |metas.Keys| == |metas|;
  }

  /** The trie never holds more than one entry per slot and one per database record. */
  lemma EntriesBounded(c: map<Key, NnCacheDst>, slots: seq<DeviceSlotStatus>, metas: map<CacheId, DbMetadata>)
    requires Consistent(c, slots, metas)
    ensures |c| <= |slots| + |metas|
  {
    var bySlot := set k | k in c && c[k].dstType == CacheDeviceSlot;
    var byId := set k | k in c && c[k].dstType == CacheDb;
    forall k | k in c
      ensures k in bySlot + byId
    {
      assert EntryBacked(c, slots, metas, k);
    }
    SlotEntriesBounded(c, slots, metas, bySlot);
    DbEntriesBounded(c, slots, metas, byId);
    assert c.Keys == bySlot + byId && bySlot !! byId;
    assert |c.Keys| == |c|;
  }

  function FreeSlots(n: nat): (r: seq<DeviceSlotStatus>)
    ensures |r| == n && forall s | 0 <= s < n :: r[s] == DeviceSlotStatus(s, [], 0)
  {
    if n == 0 then [] else FreeSlots(n - 1) + [DeviceSlotStatus(n - 1, [], 0)]
  }

  ghost function MetaMap(metas: seq<(CacheId, DbMetadata)>): map<CacheId, DbMetadata> {
    if metas == [] then map[]
    else MetaMap(metas[..|metas| - 1])[metas[|metas| - 1].0 := metas[|metas| - 1].1]
  }

  /** Two occupied slots never hold the same prefix. */
  lemma SlotsDistinct(c: map<Key, NnCacheDst>, slots: seq<DeviceSlotStatus>, metas: map<CacheId, DbMetadata>, a: nat, b: nat)
    requires Consistent(c, slots, metas) && a < |slots| && b < |slots|
    requires slots[a].prefix != [] && slots[a].prefix == slots[b].prefix
    ensures a == b
  {
    assert SlotListed(c, slots, a) && SlotListed(c, slots, b);
  }

  lemma {:induction false} MetaMapKeys(metas: seq<(CacheId, DbMetadata)>)
    ensures forall id <- MetaMap(metas) :: exists i :: 0 <= i < |metas| && metas[i].0 == id
  {
    if metas != [] {
      MetaMapKeys(metas[..|metas| - 1]);
      assert forall i | 0 <= i < |metas| - 1 :: metas[..|metas| - 1][i] == metas[i];
    }
  }

  lemma NoMetas()
    ensures MetaMap([]) == map[]
  {
  }

  lemma MetaMapNext(metas: seq<(CacheId, DbMetadata)>, id: CacheId, meta: DbMetadata)
    ensures MetaMap(metas + [(id, meta)]) == MetaMap(metas)[id := meta]
  {
    assert (metas + [(id, meta)])[..|metas|] == metas;
  }

  lemma MetaMapStep(metas: seq<(CacheId, DbMetadata)>, i: nat)
    requires i < |metas| && forall i, j | 0 <= i < j < |metas| :: metas[i].0 != metas[j].0
    ensures metas[i].0 !in MetaMap(metas[..i])
    ensures MetaMap(metas[..i + 1]) == MetaMap(metas[..i])[metas[i].0 := metas[i].1]
  {
    MetaMapKeys(metas[..i]);
    assert metas[..i + 1][..i] == metas[..i];
  }

  /** Adding metadata for a new id, and an entry for it unless its key is taken. */
  lemma NewMetaKeeps(c: map<Key, NnCacheDst>, slots: seq<DeviceSlotStatus>, metas: map<CacheId, DbMetadata>,
                     id: CacheId, meta: DbMetadata)
    requires Consistent(c, slots, metas) && |meta.prefix| <= MAX_LEN
    requires id !in metas
    ensures var k := Encode(meta.prefix);
            var c' := if k in c then c else c[k := NnCacheDst(CacheDb, 0, id, |meta.prefix|, 0)];
            Consistent(c', slots, metas[id := meta])
  {
    var key := Encode(meta.prefix);
    var c' := if key in c then c else c[key := NnCacheDst(CacheDb, 0, id, |meta.prefix|, 0)];
    forall s | 0 <= s < |slots| && slots[s].prefix != []
      ensures SlotListed(c', slots, s)
    {
      assert SlotListed(c, slots, s);
    }
    forall k | k in c'
      ensures EntryBacked(c', slots, metas[id := meta], k)
    {
      assert k in c ==> EntryBacked(c, slots, metas, k);
    }
  }
}
