# Distributed Llama in Dafny

Distributed Llama runs a language model on a cluster: a root and its workers each hold a slice of every
weight, exchange slices of activations over sockets, and the root serves chat completions from a cache of
prefixes it has evaluated before. At every point a sharded, tiled, cached or streamed computation stands in
for a simple one. This project models those computations and proves that they agree with the simple ones,
for all inputs, all runs and all interleavings.

The results build on each other. `ApiServer.ApiServer.Run` says that a server that caches prefixes in a
device slot and in a database answers every run of requests like a model that caches nothing
(`Generation.ServeAll`, over `Transformer.Logits`) and evaluates nothing that the prefix its lookup
finds covers, and `RunAndRestart` that the next process on its database does so too, or cannot start, and
exactly when. `Generation.ServedAnswer` says what such an answer is, sample by
sample, and `Generation.LengthOfAnswer` where it ends. `LlmNet.Model.ClusterLogits` says that these logits are
those of the op graph that src/llm.cpp builds, on one node and on any number of nodes that divides it;
`LlmNet.Model.LayerIs` and the `BlockIs` lemmas spell that graph out. The
trie, the tokenizer, the kernels and the network protocol below them are proved on their own.

## Parts

- **Prefix caching**: `ApiServer` (request handling), `Generation` (the uncached reference), `Inference`
  (forward passes over key and value rows, the database), `PrefixCacheManager`, `TokenBytes`, `HatTrie` (the
  bursting trie on a heap of nodes with parent pointers), `Transformer` (what a decoder-only network
  computes, ops abstract).
- **Kernels**: `Gemm` (tiled matrix product), `Threads` (division of work), `CpuOps`, `AttentionOp`, `Rope`
  (operators on arrays, thread by thread), `Quants`, `QuantBlocks`, `QuantThreads` (half precision and block
  quantization).
- **Sharding**: `Matrix` (row and column slices), `WeightSplit`, `Attention`, `AttentionBlock`,
  `FeedForward`, `LlmNet` (the whole network).
- **Cluster**: `Cluster` and `ClusterRun` (nodes as steps over byte streams, safety), `ClusterProgress` (no
  deadlock, and an end of every exchange), `Sockets` (partial sends and receives), `ConfigCodec` and `WeightStream` (what is sent before
  inference starts).
- **Tokenizer**: `Utf8` and `StreamDecoder`, `Bpe`, `EosDetection`, `TopP`.
- `Arith`, `Vectors` and `Wrappers` hold what the others share.

## How it is modelled

- Code that updates objects, arrays and buffers is imperative here too: classes with `modifies` clauses,
  loops over arrays. Such a method is proved against a function or predicate, and the lemmas are about that.
- Floats are `real`. Exponentials, roots, angles, softmax and the norm ops are parameters; the half-precision
  mantissa step is modelled on integers, bit for bit.
- A parallel step runs its threads one after the other in any order (`Threads.Order`). The contract of each
  thread says which cells it writes, scratch buffers included, and that all others are as they were; those
  cells are disjoint, and what a thread reads is given or its own.
- In the cluster model threads interleave freely. A step starts an exchange, moves any number of bytes into
  or out of a stream, sends a packet or applies one. Streams are unbounded, accepts arrive in worker order.
- The sampler, the decoder and the stop detector enter the server as one abstract step (`Generation.Generator`)
  with its own state, and are modelled and proved separately.
- Sequences of bytes stand for memory that is only copied: keys, packets, configuration, weights.
- Exceptions, failed assertions and reads outside a buffer are results: `KeyTooLong`, `Overrun`, `Exception`,
  `Overflow`, `NullParent`, `None`, a false `fits`, a number of missing bytes.
- Every prompt opens with BOS, as the context tokenizer writes it (src/tokenizer.cpp:752-755); the server's
  lookups rely on that.
- Predicates that inputs have to meet are met: `Cluster.SomeNet`, `LlmNet.SomeModel`, `Bpe.SomeVocab`,
  `TopP.SomeSort` and `ConfigCodec.SomeConfigs` give such inputs, constructors the objects.
- `hide` statements and the names of `Arith` keep nonlinear arithmetic out of proofs that do not need it.

Where the code fails a property one would expect of it, the code is followed, an input shows the failure, and
the exact condition is proved:

- A completion that reaches the context length with a database present fails the assertion of
  `setPosition` (src/app.cpp:184-191), because the pass that saves the last rows starts at that position. A
  request is safe from that, whatever is generated, exactly when it is bounded (`Generation.OverrunsExactly`):
  no database, a context below 128, no prompt, or a token limit that ends the answer before the context is
  full. `ApiServer.ApiServer.Run` says that everything before an overrun was answered correctly.
- Prefixes are recorded up to and including 8192 tokens, but reading metadata back asserts less than 8192
  (src/rocksdb-cache.cpp:127), so one such record keeps the next process from starting
  (`Inference.FullRecordExample`, `ApiServer.ApiServer.Open`). No run leaves one exactly when there is no
  database or the context is at most 8192 (`Generation.RecordsLongExactly`).
- `equal_longest_prefix_range` sets its length only inside a hash node, and on a miss right below a burst root
  it goes on with the root's parent, which is null (src/nn/tsl/htrie_hash.h:1717-1719, 1740, 1753).
  `HatTrie.HtrieMap.EqualLongestPrefixRange` says exactly when each of this happens and
  `HatTrie.NullParentExample` makes it happen. The server never meets the null parent, because every prompt
  opens with the same token (`PrefixCacheManager.NnPrefixCacheManager.NeverNull`); behind a burst root it may
  miss a prefix it could have reused, which costs time and no answer.
- What a process saves in the database it does not find there again: when the record of an answer is updated its
  key is already the slot's, so it gets no entry, and the entry of its prompt is erased (src/nn/nn-cache.cpp:129-146,
  src/dllama-api.cpp:269-273). `PrefixCacheManager.RecordForgotten` says so for all prefixes below the maximum
  length, `SlotMovesOn` and `ForgottenExample` what is lost with the next request, and `RunAndRestart` that a new
  process finds it.
- Released text can contain a stop string. `EosDetection.LeaksExactly` says up to which length of text it never
  does, and `ShortTextsNoLeak` under which condition on the compared texts, at any length; a stop string
  listed after the one that ends the run may be released before it (`LaterStopReleased`).
- A run of invalid bytes overflows the decoder's buffer, which is asserted (src/tokenizer.cpp:297);
  `StreamDecoder.Decoder.InvalidRunFits` says when, and text that is valid as far as it goes never does.
- Grouped heads are right exactly when the nodes divide the key-value heads
  (`Attention.GroupedHeadsExact`), while start-up only compares the two numbers (src/app.cpp:251).
- Top-p cropping can lose every entry, exactly when n times topp may be below 1 (`TopP.CropNeverEmpty`); the
  sampler then reads in front of its buffer (`TopP.SampleTopp`).
- The worker's buffer for weights is sized by a 32-bit parameter, so a weight of 4 GiB or more does not fit
  (`WeightStream.BufferHolds`).
- The root reads weights from the mapped file before it compares sizes, past the end of a file that is too
  short (`WeightStream.LoadNet`).

## Model

| member | source | states |
|---|---|---|
| ApiServer.ApiServer.Run | src/dllama-api.cpp:81-276 | Whole runs: for every list of completed requests on the one slot, with or without a database and however many records it holds, the answers are exactly those of a model that caches nothing: samples drawn one after the other from the logits after prompt and earlier samples, up to the first that stops or to the bound, text and token counts from them and the state carried on, up to the first request that overruns; cache, slot records and database stay in step unless one does, none does when all requests are bounded, and a record of the maximum length is left exactly when some request of the run records one. What is evaluated is, request by request, what lies behind its start, and one position more where the answer is saved; a request that goes on from the prompt and answer before it starts behind them, while there are fewer than 16383 records. No record is lost or cut, every answered request is in some record, and none of these records gets an entry that a lookup of this process could hit. |
| ApiServer.ApiServer.RunAndRestart | src/nn/nn-cache.cpp:6-41 | A run, perhaps cut short by an overrun, and a new process on the database it leaves: the new one fails to start exactly when a record of the maximum length was there or the run made one, which no context of at most that length does; otherwise its answers are those of a model that caches nothing. The first request of the new process starts behind whatever recorded request of the first run it goes on from. |
| ApiServer.ApiServer.RecoverableIntact | src/rocksdb-cache.cpp:80-105 | After a run, overrun or not, everything stored is readable, holds the rows of its prefix, and says what the metadata in memory says. |
| ApiServer.ApiServer.ProvideContent | src/dllama-api.cpp:81-276 | One request: outcome and sampler state equal `Serve`, the uncached answer; unless it overruns, the slot's key and value rows and every database record hold the rows of the prefixes recorded for them. It evaluates exactly what the longest shared prefix does not cover; afterwards its prompt and answer are entered in the tree and, with a database, in some record, no record is lost or cut, and no database entry of 128 to 8191 tokens is new. |
| ApiServer.ApiServer.constructor | src/dllama-api.cpp:68-80 | The server starts with slot, trie and database in step, from the metadata of any database whose records hold the rows of their prefixes, as they come out of loading: prefixes shorter than the maximum. |
| ApiServer.ApiServer.Open | src/nn/nn-cache.cpp:6-41 | Loading the stored metadata and starting: it fails exactly when the store has a record of the maximum length, and the server is in step with the store otherwise, with an entry for every record. |
| ApiServer.UpdatesLong | src/nn/nn-cache.cpp:117-153 | A metadata update leaves a record of the maximum length exactly when there was one or the new prefix reaches it. |
| ApiServer.ApiServer.Plan | src/dllama-api.cpp:126-152 | The start is where the longest prefix shared with an entry ends, at least 128 tokens, and 0 on a miss; a database entry is loaded, a slot entry is not; the save id is that of an entry shared to its end, if it has one, and otherwise fresh, or the skip id without a database. The start is inside the prompt, the rows before it are in the slot or in the record that will be loaded, and the save id may be overwritten. |
| ApiServer.ApiServer.FoundPlanned | src/dllama-api.cpp:126-152 | What a lookup returns, hit or miss, decides start, load id and save id in this way. |
| ApiServer.ApiServer.Continues | src/nn/nn-cache.cpp:43-59 | With fewer than 16383 records, a prompt that goes on from at least 128 tokens some entry starts with never starts before their end. |
| ApiServer.ApiServer.WillResume | src/dllama-api.cpp:126-152 | So a request that goes on from what the request before it left in the slot starts behind that. |
| ApiServer.ApiServer.WillGoOn | src/nn/nn-cache.cpp:6-41 | And the first request of a new process behind any record it goes on from. |
| ApiServer.ApiServer.RecordsAfter | src/dllama-api.cpp:199-273 | The updates of a request keep all records, leave one for its prompt and, from 128 tokens, its answer, and make no database entry that could be hit. |
| ApiServer.ApiServer.HitHolds | src/dllama-api.cpp:128-148 | A hit is worth its match length: the slot, or the database record, holds the matched rows of this prompt, although the entry was recorded for a different token sequence. |
| ApiServer.ApiServer.HoldsCausal | src/nn/nn-cpu-ops.cpp:749-784 | Rows held for one token sequence are rows of every sequence with the same leading tokens. |
| ApiServer.ApiServer.RecordCausal | src/nn/nn-cpu-ops.cpp:749-784 | The same for the rows of a database record. |
| ApiServer.ApiServer.Evaluate | src/dllama-api.cpp:176-183 | One forward pass: the logits of the last batch position are those of evaluating the tokens from position 0, and the slot then holds the rows of the batch; what is staged for saving are the rows before the position. |
| ApiServer.ApiServer.Scan | src/dllama-api.cpp:166-186 | The batched scan ends exactly at the prompt's last token with the rows before it in place, loading from the database only in the first pass, and leaves stage and store alone. |
| ApiServer.ApiServer.EvaluateToken | src/dllama-api.cpp:196-206 | The pass at a decode position gives the uncached logits there; at the end of the prompt the prompt's rows become a database record. |
| ApiServer.ApiServer.SampleToken | src/dllama-api.cpp:208-235 | Appending the sampled token and asking the detector is one step of the uncached completion. |
| ApiServer.ApiServer.DecodeStep | src/dllama-api.cpp:195-236 | One iteration of the decode loop keeps the invariant and the remaining completion. |
| ApiServer.ApiServer.Decode | src/dllama-api.cpp:194-236 | The decode loop yields the uncached completion: tokens, text and sampler state; the slot holds the rows of all tokens but the last. |
| ApiServer.ApiServer.Answer | src/dllama-api.cpp:118-236 | Lookup, scan and decode together yield the uncached completion from every consistent state of cache and database, and evaluate each position from the start to the end once. |
| ApiServer.ApiServer.SaveRecord | src/dllama-api.cpp:202-205 | Metadata update and commit: all records, the new one included, hold the rows of their prefixes; the tree becomes `MetaUpdated` of the old one. |
| ApiServer.ApiServer.CommitKeeps | src/rocksdb-cache.cpp:91-105 | Committing the staged rows, prefix and score of one id keeps every other record and makes this one a record of its prefix, cut at the recorded maximum. |
| ApiServer.ApiServer.RecordAnswer | src/dllama-api.cpp:237-273 | Overruns, the assertion on the position of the saving pass, exactly when a database is present and the completion reached the context length (of at least 128); otherwise slot and database record the new prefix and the invariant holds again; the saving pass evaluates one position. |
| ApiServer.ApiServer.RecordPrefix | src/dllama-api.cpp:269-273 | Slot record and database record take the new prefix in step with the rows. |
| ApiServer.ApiServer.UpdateSlot | src/dllama-api.cpp:269-269 | After the slot record changes, the slot holds the rows of whatever prefix is recorded for it, also when the record was freed as a duplicate. |
| Generation.Complete | src/dllama-api.cpp:194-236 | The uncached completion: it only appends, stays below the limit and appends at least one token. |
| Generation.ServedAnswer | src/dllama-api.cpp:118-256 | What one request gets: samples from the prompt's end on, none but the last of which stops, as many as the bound allows unless the last one stops; their text behind the public prompt; overrun exactly when a database is present and the context, of at least 128, is full. |
| Generation.LengthOfAnswer | src/dllama-api.cpp:122-124 | An answer has at most one token more than a token limit within the context, or than the rest of the context otherwise, and exactly that many when the generator never stops. |
| Generation.RememberedIs | src/dllama-api.cpp:269-269 | What a request leaves in the slot is its prompt and its samples but the last. |
| Generation.RunAnswers | src/dllama-api.cpp:81-276 | All answers of a run are such, each from the state the one before it left. |
| Generation.OverrunsExactly | src/dllama-api.cpp:237-246 | A request overruns under no generator and state exactly when there is no database, or the context is below 128, or there is no prompt, or a token limit ends the answer before the context is full. |
| Generation.BoundedServesAll | src/dllama-api.cpp:237-246 | Every request of a run of such requests is served. |
| Generation.RecordsLongExactly | src/dllama-api.cpp:237-273 | No run of requests records a prefix of the maximum length exactly when there is no database or the context is at most that long. |
| Generation.ShortContext | src/nn/nn-cache.cpp:117-124 | In a context of at most the maximum length no run does. |
| Generation.LongPrompt | src/nn/nn-cache.cpp:117-124 | In a longer one a prompt above the maximum length does, whatever is generated and whether or not it overruns. |
| Transformer.HiddenCausal | src/nn/nn-cpu-ops.cpp:749-784 | A hidden state depends only on the tokens up to its position, through all layers. |
| Transformer.RowsCausal | src/nn/nn-cpu-ops.cpp:1256-1274 | So do the key and value rows of every layer. |
| Transformer.RowsAt | src/nn/nn-cpu-ops.cpp:1256-1274 | Row `p` of a layer is the row its hidden state gives. |
| Inference.RootLlmInference.Forward | src/nn/nn-executor.cpp:168-198 | A forward pass over a batch, from rows in the slot or loaded from the database: every batch position's logits are those of evaluating the tokens from position 0; the slot holds the batch's rows too, other slots are untouched, and what is staged are the rows before the batch. |
| Inference.RootLlmInference.ForwardLayers | src/nn/nn-executor.cpp:92-103 | The step list over all layers, load, ops and save for each, keeps the hidden states exact. |
| Inference.RootLlmInference.ForwardLayer | src/nn/nn-executor.cpp:92-97 | One layer's steps: next hidden states exact, rows of this layer and slot extended, all other rows untouched. |
| Inference.RootLlmInference.SyncLoad | src/nn/nn-cpu.cpp:275-289 | After the load step the slot's layer holds the rows before the position, whether they were loaded or there already; no other row changes. |
| Inference.RootLlmInference.SyncSave | src/nn/nn-cpu.cpp:290-302 | The save step stages exactly the rows before the position, only under a save id. |
| Inference.RootLlmInference.WriteRows | src/nn/nn-cpu-ops.cpp:1256-1274 | The shift op writes every batch row's key and value at its position. |
| Inference.RootLlmInference.ReadRows | src/nn/nn-cpu-ops.cpp:765-783 | Attention reads the rows up to its position and none beyond. |
| Inference.RootLlmInference.Attend | src/nn/nn-cpu-ops.cpp:1138-1164 | Every batch position gets the next layer's hidden state, although later rows of the batch are already written. |
| Inference.NnCacheDatabase.Write | src/rocksdb-cache.cpp:80-85 | A write replaces one staged buffer of one id. |
| Inference.NnCacheDatabase.Commit | src/rocksdb-cache.cpp:91-105 | All staged buffers of the id reach the store together and leave the stage; nothing happens for an id without any. |
| Inference.NnCacheDatabase.ReadKv | src/rocksdb-cache.cpp:64-78 | What was committed is read, nothing for a missing key. |
| Inference.NnCacheDatabase.LoadMetadata | src/rocksdb-cache.cpp:107-134 | Loading fails exactly when some record has the maximum length; otherwise it gives exactly the stored metadata, latest id first. |
| Inference.FullRecordExample | src/rocksdb-cache.cpp:80-134 | A prefix that is recorded and loaded again fails to load exactly when it has 8192 tokens or more, because recording cuts it at 8192. |
| PrefixCacheManager.NnPrefixCacheManager.Lookup | src/nn/nn-cache.cpp:43-59 | For every trie, burst or not: a null parent is used exactly when the root has burst and no key opens with the first byte; otherwise a miss exactly when no hash node lies on the query or no entry shares 128 tokens, and a hit has the longest token prefix shared with any entry, attained by the returned one. |
| PrefixCacheManager.NnPrefixCacheManager.NeverNull | src/nn/nn-cache.cpp:43-59 | While some recorded prefix opens with a token, no lookup that opens with the same one meets the null parent. |
| PrefixCacheManager.NnPrefixCacheManager.UnburstMissesNothing | src/nn/nn-cache.cpp:43-59 | While the root is one hash node a miss always means that no entry shares 128 tokens. |
| PrefixCacheManager.NnPrefixCacheManager.SharesStart | src/nn/nn-cache.cpp:43-59 | An entry shares with tokens at least what both start with. |
| PrefixCacheManager.NnPrefixCacheManager.constructor | src/nn/nn-cache.cpp:6-41 | Free slots, all metadata that loading can return, and the invariant. |
| PrefixCacheManager.NnPrefixCacheManager.LoadEntry | src/nn/nn-cache.cpp:16-33 | One record of the database: an entry under its prefix unless the key is taken; fresh ids and scores stay above all recorded ones. |
| PrefixCacheManager.NnPrefixCacheManager.PickSlot | src/nn/nn-cache.cpp:61-74 | The unique slot with the least score, then the shortest prefix, then the least index. |
| PrefixCacheManager.NnPrefixCacheManager.GetCacheId | src/nn/nn-cache.cpp:76-80 | An id no record has, or the skip id without a database. |
| PrefixCacheManager.NnPrefixCacheManager.UpdateDeviceSlot | src/nn/nn-cache.cpp:82-115 | The trie and the slot records become `SlotUpdated` of the old ones, duplicates freed; the invariant holds afterwards exactly when the prefix is not empty or an empty one is recorded elsewhere. |
| PrefixCacheManager.NnPrefixCacheManager.UpdateDbMetadata | src/nn/nn-cache.cpp:117-153 | The trie and the metadata become `MetaUpdated` of the old ones; what is staged is the metadata; nothing happens without a database. |
| PrefixCacheManager.NnPrefixCacheManager.EraseIf | src/nn/nn-cache.cpp:91-96 | The old entry goes only if it still belongs to this slot, or to this id. |
| PrefixCacheManager.SlotUpdateKeeps | src/nn/nn-cache.cpp:82-115 | The invariant, occupied slots and device entries naming each other and database entries keyed by their metadata, survives a slot update exactly when its prefix is not empty or the empty key stays with another owner. |
| PrefixCacheManager.SlotUpdatedIs | src/nn/nn-cache.cpp:82-115 | Key by key: the slot's old entry is gone, the new key is there, everything else is as it was, and the slot records prefix and score unless the key belongs to somebody else. |
| PrefixCacheManager.MetaUpdatedIs | src/nn/nn-cache.cpp:117-153 | Key by key: a record's old entry goes where it still is its own, a taken key stays, everything else is as it was, and the record has prefix and score. |
| PrefixCacheManager.NnPrefixCacheManager.SlotIsFound | src/nn/nn-cache.cpp:43-115 | What a slot has recorded is found: its entry shares with any tokens what its prefix does. |
| PrefixCacheManager.OneSlotEntry | src/nn/nn-cache.cpp:82-115 | With one slot, every device entry after an update is that of the new prefix. |
| PrefixCacheManager.MetaUpdateKeeps | src/nn/nn-cache.cpp:117-153 | It survives every metadata update, including the one that leaves the entry to another owner. |
| PrefixCacheManager.RecordForgotten | src/nn/nn-cache.cpp:117-146 | The updates of a request, prompt record, slot, answer record, make no database entry of 128 to 8191 tokens: the key of the answer is the slot's by then, and the entry of the prompt is erased. |
| PrefixCacheManager.SlotMovesOn | src/nn/nn-cache.cpp:82-115 | With the next request whose tokens differ, the entry of what the slot held is gone, while its record stays. |
| PrefixCacheManager.ForgottenExample | src/nn/nn-cache.cpp:82-146 | Any two requests with different tokens on an empty cache: the tokens of the first are recorded and no longer entered. |
| PrefixCacheManager.NewMetaKeeps | src/nn/nn-cache.cpp:23-29 | It survives loading a record whose key may already be taken. |
| PrefixCacheManager.SlotsDistinct | src/nn/nn-cache.cpp:101-106 | No two occupied slots ever record the same prefix. |
| PrefixCacheManager.EntriesBounded | src/nn/nn-cache.cpp:82-153 | The trie holds at most one entry a slot and one a database record. |
| TokenBytes.EncodeInjective | src/nn/nn-cache.cpp:86-86 | Different token sequences have different byte keys. |
| TokenBytes.EncodeAt | src/nn/nn-cache.cpp:48-48 | Token `i` stands at bytes 4 i to 4 i + 3 of a key, low byte first. |
| TokenBytes.CommonPrefixOfEncodings | src/nn/nn-cache.cpp:48-49 | The common prefix of two keys in bytes, divided by four, is the common prefix of the tokens. |
| HatTrie.HtrieMap.constructor | src/nn/tsl/htrie_hash.h:1266-1273 | An empty map; a burst threshold below the minimum is raised. |
| HatTrie.HtrieMap.Insert | src/nn/tsl/htrie_hash.h:1008-1021 | Insertion is map insertion: too long and existing keys change nothing, any other key is added with its value; the element counter is the number of keys, every node invariant holds afterwards and the root stays one hash node while below the threshold. |
| HatTrie.HtrieMap.InsertImpl | src/nn/tsl/htrie_hash.h:1381-1427 | The walk from any node adds the key below that node's path; with the burst it terminates. |
| HatTrie.HtrieMap.InsertInHashNode | src/nn/tsl/htrie_hash.h:1430-1460 | Bursts a full hash node first, at the root or below its parent, then adds the key. |
| HatTrie.HtrieMap.EmplaceInHash | src/nn/tsl/htrie_hash.h:1452-1458 | Adding to a hash node below the threshold adds the one key to the map. |
| HatTrie.HtrieMap.SetValue | src/nn/tsl/htrie_hash.h:1412-1422 | A trie node without a value gets one: the map gains its path. |
| HatTrie.HtrieMap.AddLeaf | src/nn/tsl/htrie_hash.h:1392-1404 | A new hash node under a free byte: the map gains the one key. |
| HatTrie.HtrieMap.Burst | src/nn/tsl/htrie_hash.h:1872-1919 | The new trie node with its hash nodes stores exactly the entries of the old hash node, none of the new nodes empty. |
| HatTrie.HtrieMap.BurstInPlace | src/nn/tsl/htrie_hash.h:1434-1446 | Replacing a hash node by its burst keeps the whole map and all invariants. |
| HatTrie.HtrieMap.FindImpl | src/nn/tsl/htrie_hash.h:1544-1579 | Found exactly when the key is in the map; the iterator points at the node that holds it. |
| HatTrie.HtrieMap.Find | src/nn/tsl/htrie_hash.h:1154-1160 | The same from the root, and for a map without root. |
| HatTrie.HtrieMap.Value | src/nn/tsl/htrie_hash.h:654-665 | The iterator's value is the map's. |
| HatTrie.HtrieMap.KeyOf | src/nn/tsl/htrie_hash.h:623-646 | The key read off the parent pointers is the node's path followed by the suffix. |
| HatTrie.HtrieMap.Erase | src/nn/tsl/htrie_hash.h:1462-1495 | Erasing removes exactly the one key and leaves no empty node. |
| HatTrie.HtrieMap.ClearEmptyNodes | src/nn/tsl/htrie_hash.h:1502-1536 | From a tree with one empty node, moving it up or dropping it leaves a tree without any, with the same map; it terminates. |
| HatTrie.HtrieMap.MoveUp | src/nn/tsl/htrie_hash.h:1529-1534 | The step that puts the empty node in its parent's place keeps map and invariants. |
| HatTrie.HtrieMap.LongestPrefix | src/nn/tsl/htrie_hash.h:1588-1643 | The longest stored key that is a prefix of the query, across trie and hash nodes; none exactly when no stored key is one. |
| HatTrie.HtrieMap.LongestInHash | src/nn/tsl/htrie_hash.h:1608-1623 | The search inside a hash node, longest first. |
| HatTrie.HtrieMap.ForEachPrefixOf | src/nn/tsl/htrie_hash.h:1645-1697 | Visits exactly the stored prefixes of the query, each once, shortest first. |
| HatTrie.HtrieMap.EqualLongestPrefixRange | src/nn/tsl/htrie_hash.h:1708-1757 | For any tree, the exact outcome: a length is put out exactly when a hash node lies on a proper prefix of the query, and then it is the longest common prefix with any stored key and the first entry attains it; the parent of a root is used exactly when the root has burst and no key opens with the first byte; otherwise the length stays 0 although, unless the query is empty, some key shares a byte. |
| HatTrie.NullParentExample | src/nn/tsl/htrie_hash.h:1740-1753 | A concrete tree and query that meet the null parent. |
| HatTrie.HtrieMap.ChildIsFirstByte | src/nn/tsl/htrie_hash.h:1708-1757 | A burst root has a child for a byte exactly when a stored key opens with it. |
| HatTrie.HtrieMap.UnburstOnQuery | src/nn/tsl/htrie_hash.h:1183-1189 | While the root is absent or one hash node, a length is put out for every query of a tree that is not empty. |
| HatTrie.HtrieMap.ManyKeysBurst | src/nn/tsl/htrie_hash.h:1430-1446 | With more keys than the threshold the root has burst. |
| HatTrie.HtrieMap.Inhabited | src/nn/tsl/htrie_hash.h:1497-1536 | Below every node of a tree without empty nodes a key is stored. |
| HatTrie.StoredPrefixesSound | src/nn/tsl/htrie_hash.h:1645-1697 | The visited keys are stored prefixes and grow strictly. |
| HatTrie.StoredPrefixesComplete | src/nn/tsl/htrie_hash.h:1645-1697 | Every stored prefix is among them. |
| HatTrie.HtrieMap.SamePath | src/nn/tsl/htrie_hash.h:1544-1579 | No two nodes have the same path. |
| HatTrie.HtrieMap.OnTheWay | src/nn/tsl/htrie_hash.h:1548-1568 | Wherever a walk along a stored key stands, the key is held there or the next child exists. |
| HatTrie.HtrieMap.HeldOnce | src/nn/tsl/htrie_hash.h:1544-1579 | A stored key is held by one node only. |
| Gemm.TinyBlas.MatMul | src/nn/llamafile/sgemm.cpp:247-438 | For every case table, size, and order of the threads: every output cell is written exactly once, with the naive sum of products, and no other cell is written. |
| Gemm.TinyBlas.MnPack | src/nn/llamafile/sgemm.cpp:263-412 | The recursion terminates, and a thread writes exactly the cells it owns, each once, with their products: whole tiles, then the rows and the columns left over. |
| Gemm.TinyBlas.Gemm | src/nn/llamafile/sgemm.cpp:414-438 | A thread's job range is its share of the whole tiles, each cell written once with its product. |
| Gemm.TinyBlas.Products | src/nn/llamafile/sgemm.cpp:427-433 | The lanes of a tile add up to the naive sum over the whole inner dimension. |
| Gemm.TinyBlas.Accumulate | src/nn/llamafile/sgemm.cpp:428-433 | One register step adds the next products to every cell of the tile. |
| Gemm.TinyBlas.Store | src/nn/llamafile/sgemm.cpp:434-436 | The stores of a tile write its cells and no others, once each. |
| Gemm.Tile | src/nn/llamafile/sgemm.cpp:263-407 | Every table's tile is not empty and fits the block, which is why the recursion shrinks. |
| Gemm.TileIsLargest | src/nn/llamafile/sgemm.cpp:263-412 | Of all tiles that fit the block, the sides a table knows and its accumulators, none has more cells than the one it chooses. |
| Gemm.Owner | src/nn/llamafile/sgemm.cpp:408-411 | Every cell of a block has a thread below the number of threads. |
| Gemm.RangeIsTaken | src/nn/llamafile/sgemm.cpp:418-424 | A thread's contiguous range is exactly the jobs assigned to it: every job has one thread. |
| Gemm.Tiling.JobIsTile | src/nn/llamafile/sgemm.cpp:424-426 | Jobs and tiles correspond: a cell belongs to a job exactly when it lies in the job's tile. |
| Gemm.Tiling.JobsOf | src/nn/llamafile/sgemm.cpp:420-424 | Cut off at the last tile or not, a thread's jobs are the cells it takes. |
| Gemm.RealLanesExact | src/nn/llamafile/sgemm.cpp:428-436 | Lane-wise multiply-add and the horizontal sum give the sum of products. |
| Gemm.MaddRealSum | src/nn/llamafile/sgemm.cpp:428-433 | One lane-wise multiply-add grows the horizontal sum by the dot product. |
| Threads.SplitEdges | src/nn/nn-quants.hpp:82-86 | The threads' ranges follow each other from 0 to the length, and the first ones, as many as the division leaves, are one longer. |
| Threads.SplitOnce | src/nn/nn-quants.hpp:82-86 | Every index is in the range of exactly one thread. |
| Threads.AllDone | src/nn/nn-quants.hpp:82-86 | Threads that update their ranges in any order update everything once. |
| Threads.Untouched | src/nn/nn-quants.hpp:82-86 | Until a thread runs, its range is as it was at the start. |
| Matrix.RowShard | src/nn/nn-core.cpp:207-217 | A row slice times the vector is the node's part of the whole product. |
| Matrix.ColShard | src/nn/nn-core.cpp:219-230 | The nodes' products of column slices with their parts of the vector add up to the whole product. |
| Matrix.ColSliceRow | src/nn/nn-core.cpp:298-303 | Row `i` of a column slice is the node's part of row `i`. |
| Matrix.SlicesRebuild | src/nn/nn-core.cpp:207-230 | Consecutive slices concatenate to the whole. |
| WeightSplit.SplitRow | src/nn/nn-core.cpp:270-286 | The loops copy exactly the node's row slice and return its size. |
| WeightSplit.SplitCol | src/nn/nn-core.cpp:288-303 | The loops copy exactly the node's column slice and return its size. |
| WeightSplit.RowSlicesRebuild | src/nn/nn-core.cpp:270-286 | The row slices of all nodes concatenate to the weight. |
| WeightSplit.ColSlicesRebuild | src/nn/nn-core.cpp:288-303 | The column slices of all nodes give back every row of the weight. |
| CpuOps.MatmulThread | src/nn/nn-cpu-ops.cpp:182-218 | A thread writes the products of its rows and nothing else. |
| CpuOps.Matmul | src/nn/nn-cpu-ops.cpp:182-218 | All threads in any order leave the matrix-vector product. |
| CpuOps.MergeAddThread | src/nn/nn-cpu-ops.cpp:835-852 | A thread adds its range of every slice to the output in place. |
| CpuOps.MergeAdd | src/nn/nn-cpu-ops.cpp:835-872 | All threads in any order leave the residual plus the sum of all slices. |
| Rope.SliceRope | src/nn/nn-core.cpp:232-257 | Offsets and shift of a node: even, consistent, and starting at the node's global dimensions. |
| Rope.FillCache | src/nn/nn-core.cpp:323-340 | The loops fill a cell for every position and every dimension the node needs, with the angle of its global dimension. |
| Rope.CellsApart | src/nn/nn-core.cpp:323-340 | Cells of different positions or pairs do not overlap and lie inside the cache. |
| Rope.RotateShard | src/nn/nn-cpu-ops.cpp:1093-1123 | Rotating a node's part with the angles of its global dimensions is the node's part of the whole rotation. |
| Rope.PairTurned | src/nn/nn-cpu-ops.cpp:1109-1121 | A pair turns by the angle of its position and of its dimension inside the head. |
| Rope.PairKeepsLength | src/nn/nn-cpu-ops.cpp:1109-1121 | Turning keeps the length of a pair. |
| Rope.RelativePosition | src/nn/nn-cpu-ops.cpp:1093-1123 | The product of a turned query pair and a turned key pair depends on their positions only through the difference. |
| Rope.PairRead | src/nn/nn-cpu-ops.cpp:1105-1121 | With the shift, a local pair reads, in bounds, the cell of its global dimension. |
| Rope.RopeThread | src/nn/nn-cpu-ops.cpp:1093-1123 | A thread turns its pairs in place with the angles of their global dimensions and leaves the others. |
| Rope.RopeForward | src/nn/nn-cpu-ops.cpp:1093-1123 | All threads in any order leave the rotated vector. |
| Attention.LocalGroup | src/nn/nn-cpu-ops.cpp:755-771 | A local query head reads the local part of the key-value head of its global head, when each node has whole key-value heads. |
| Attention.GroupedHeadsExact | src/nn/nn-cpu-ops.cpp:755-771 | All local heads find their key-value heads exactly when the nodes divide the key-value heads; divisible widths are not enough. |
| Attention.SplitGroup | src/nn/nn-cpu-ops.cpp:755-771 | Otherwise the first head of the second node already reads wrong columns. |
| Attention.HeadsShard | src/nn/nn-cpu-ops.cpp:749-784 | The heads a node computes from its parts of query and cache are its part of all heads. |
| Attention.CacheCell | src/nn/nn-cpu-ops.cpp:765-783 | The flat cache index of a position and head reads that row's part for that head. |
| AttentionOp.MultiheadAttThread | src/nn/nn-cpu-ops.cpp:749-784 | A thread writes the outputs of its heads, and of the score buffer only the stretches of its heads up to the position; everything else is as it was. |
| AttentionOp.MultiheadAtt | src/nn/nn-cpu-ops.cpp:749-784 | All threads in any order leave the outputs of all heads over the rows up to the position. |
| AttentionOp.AttendHead | src/nn/nn-cpu-ops.cpp:759-782 | Scores, softmax and accumulation of one head give the weighted sum of the value rows; outputs of other heads, and scores outside its own stretch, stay. |
| AttentionOp.StretchesApart | src/nn/nn-cpu-ops.cpp:759-762 | The stretches of different heads in the score buffer are disjoint. |
| AttentionOp.WeightedSum | src/nn/nn-cpu-ops.cpp:773-783 | The position loop accumulates the softmax-weighted value rows. |
| FeedForward.CastShard | src/llm.cpp:376-383 | Converting a node's blocks is the node's part of the conversion. |
| FeedForward.FeedForward.BlockIs | src/llm.cpp:352-396 | The block op by op: the activation of W1 y times W3 y, converted, goes through W2 on top of the residual. |
| FeedForward.FeedForward.HiddenShard | src/llm.cpp:352-375 | A node's gated hidden vector is its part of the whole one. |
| FeedForward.FeedForward.ShardedEqualsOneNode | src/llm.cpp:325-396 | Row-split W1 and W3, gate, column-split W2, exchange and merge give the unsharded feed-forward block, for every number of nodes that divides the hidden blocks. |
| AttentionBlock.AttentionBlock.BlockIs | src/llm.cpp:240-321 | The block op by op: rotated query and keys with the angles of their own positions, values, the heads over them, converted, through Wo on top of the residual. |
| AttentionBlock.AttentionBlock.ProjectionsShard | src/llm.cpp:247-293 | A node's rotated query, key rows and value rows are its parts of the whole ones. |
| AttentionBlock.AttentionBlock.NodeHeads | src/llm.cpp:294-302 | A node's local heads are its part of all heads. |
| AttentionBlock.AttentionBlock.ShardedEqualsOneNode | src/llm.cpp:210-331 | Sharded projections, rotation, cache, grouped heads and column-split output matrix, merged, give the unsharded attention block, for every number of nodes that divides key-value heads and output blocks. |
| AttentionBlock.AttentionBlock.OneNodeFromRows | src/llm.cpp:282-321 | The block over the inputs of all positions is the block over the cached key and value rows. |
| LlmNet.Model.LayerIs | src/llm.cpp:213-400 | Each layer: attention over the first norm of the residual vectors of all positions so far, then the feed-forward block over the second norm of its result. |
| LlmNet.Model.EndsAre | src/llm.cpp:187-443 | The first layer sees the embeddings; every logit is a row of the last matrix over the final norm. |
| LlmNet.Model.UnusedNorm | src/llm.cpp:234-360 | Models that differ only in the norm of blocks that add nothing have equal logits: the first norm feeds attention and nothing else, the second the feed-forward block. |
| LlmNet.SomeModel | src/llm.cpp:129-447 | There are models of this kind that two nodes divide. |
| LlmNet.Model.SameStates | src/llm.cpp:187-400 | In every layer and at every position the cluster's residual vector is that of one node. |
| LlmNet.Model.ShardedEqualsOneNode | src/llm.cpp:402-443 | The logits the root gathers from the nodes' slices are the logits of one node, for every number of nodes that divides the model. |
| LlmNet.Model.AbstractState | src/llm.cpp:200-400 | The abstract network that the caching results are about, instantiated with this op graph, has the graph's residual vectors in every layer and at every position. |
| LlmNet.Model.ClusterLogits | src/llm.cpp:129-447 | The logits that cached evaluation is proved to give are those of one node and those of the cluster. |
| Cluster.SocketsAreOtherNodes | src/nn/nn-network.cpp:527-559 | The sockets of a node and the slices of the other nodes correspond one to one. |
| Cluster.ThreadOfSocket | src/nn/nn-network.cpp:500-526 | Every socket is served by exactly one thread, the one with its index modulo the threads. |
| Cluster.Net.ProgramPrefix | src/nn/nn-network.cpp:568-591 | Fewer packets mean a prefix of the exchanges, followed by a packet. |
| Cluster.Net.ProgramAt | src/nn/nn-network.cpp:562-591 | What a packet stands for: the packet itself, and at the place counted from earlier packets, segments, syncs and rows, every row of every sync of every segment, with its kind and size. |
| Cluster.Net.ProgramLength | src/nn/nn-network.cpp:562-591 | Those are all: one exchange a packet, and one for each sync and row of its batch. |
| Cluster.PacketRoundTrip | src/app.hpp:47-53 | A packet sent field by field, low byte first, is read back. |
| Cluster.SomeNet | src/app.hpp:47-53 | With such packets any nodes and segments make a net of this kind. |
| ClusterRun.Aligned | src/app.cpp:209-245 | In every reachable state of every run, with sends and reads split and interleaved at will: when a worker turns to its next control packet, the head of its root stream is that packet or the start of it, or the stream is empty because none was sent; applied packets are a prefix of sent ones. |
| ClusterRun.PacketAtHead | src/app.cpp:229-245 | Bytes past a worker's finished exchanges are the root's next packet, from its first byte. |
| ClusterRun.ApplyInv | src/app.cpp:229-245 | What a worker decodes and applies is the root's next packet. |
| ClusterRun.AppliedPacket | src/app.cpp:229-245 | The last packet's worth of bytes read decodes to it. |
| ClusterRun.RunInv | src/nn/nn-network.cpp:500-591 | The stream invariant holds in every state of every run. |
| ClusterRun.NextInv | src/nn/nn-network.cpp:500-591 | Every step keeps it. |
| ClusterRun.SendInv | src/nn/nn-network.cpp:409-439 | A send of any number of the pending bytes keeps it. |
| ClusterRun.RecvInv | src/nn/nn-network.cpp:452-481 | A receive of any number of the bytes in flight, up to what is wanted, keeps it. |
| ClusterRun.BeginInv | src/nn/nn-network.cpp:568-591 | A thread starting its next exchange keeps it. |
| ClusterRun.RootPacketInv | src/app.cpp:209-220 | The root sending its next packet keeps it. |
| ClusterRun.GatheredFrom | src/nn/nn-network.cpp:527-559 | A thread past an exchange has read the writer's contribution to it byte for byte. |
| ClusterRun.AllGather | src/nn/nn-network.cpp:527-559 | When all nodes are past a slice exchange, every pipe is the slices of all nodes in node order. |
| ClusterRun.RootGather | src/nn/nn-network.cpp:527-559 | Past an exchange towards the root, the root's pipe is the slices of all nodes. |
| ClusterRun.FromRoot | src/nn/nn-network.cpp:500-526 | Past a root sync, a worker has the root's data. |
| ClusterRun.BatchGathered | src/nn/nn-network.cpp:562-591 | When all nodes have finished a packet, every row of every slice exchange of its batch is gathered on every node. |
| ClusterRun.BatchAtRoot | src/nn/nn-network.cpp:562-591 | When the root has finished a packet, it has every row of every exchange towards it. |
| ClusterRun.BatchFromRoot | src/nn/nn-network.cpp:562-591 | When a worker has finished a packet, it has every row of every root sync. |
| ClusterRun.Barrier | src/nn/nn-executor.cpp:168-198 | A thread starts a sync step, or a packet, only when all threads of its node have finished everything before. |
| ClusterRun.ProgramTotal | src/nn/nn-network.cpp:500-559 | How many bytes packets move between two nodes: slices go from all to all or to the root, everything else comes from the root. |
| ClusterRun.Traffic | src/nn/nn-network.cpp:500-559 | Conservation: when both ends have finished all packets, a stream has carried exactly those bytes and none are in flight. |
| ClusterRun.ThreadServes | src/nn/nn-network.cpp:504-531 | A stream is served by the thread among whose sockets the code counts its socket. |
| ClusterProgress.NoDeadlock | src/nn/nn-network.cpp:500-591 | In every reachable state either all nodes have applied all packets and finished, or some step other than another packet is possible. |
| ClusterProgress.Finishes | src/nn/nn-network.cpp:500-591 | Between two packets every run ends: it has at most as many steps as `Work` of its first state, the packets, exchanges and bytes still to do, and one that cannot go on has finished everything. |
| ClusterProgress.QuiescentDone | src/nn/nn-network.cpp:562-591 | A run between packets that cannot go on has finished every packet, and with it all rows of all exchanges. |
| ClusterProgress.LessWork | src/nn/nn-network.cpp:500-591 | Every step but a packet leaves strictly less to do. |
| ClusterProgress.SlowestBusy | src/nn/nn-network.cpp:527-559 | A slowest thread inside an exchange, or its peer, can move. |
| ClusterProgress.SlowestIdle | src/nn/nn-executor.cpp:178-196 | A slowest thread between exchanges can go on, or everything is finished. |
| Sockets.TryReadSocket | src/nn/nn-network.cpp:100-123 | All bytes wanted, in order, or false with not one byte consumed and the buffer untouched, or an exception. |
| Sockets.ReadMany | src/nn/nn-network.cpp:452-481 | However the bytes arrive, on success every stream has delivered exactly its bytes to its part of the buffer, and the rest of the buffer is untouched. |
| Sockets.WriteMany | src/nn/nn-network.cpp:409-439 | However much each send takes, on success every stream has got exactly its data, in order. |
| ConfigCodec.Configure | src/nn/nn-network.cpp:607-773 | A worker reads exactly the network and node configuration that the root wrote for it, and the stream is empty afterwards. |
| ConfigCodec.Channel.ReadNet | src/nn/nn-network.cpp:686-707 | Reading what was written gives the network configuration back and consumes exactly that. |
| ConfigCodec.Channel.ReadNode | src/nn/nn-network.cpp:709-773 | The same for a node's buffers, segments, ops and syncs. |
| ConfigCodec.Channel.WriteNet | src/nn/nn-network.cpp:611-628 | The bytes written are the encoding of the configuration. |
| ConfigCodec.Channel.WriteNode | src/nn/nn-network.cpp:630-672 | The bytes written are the encoding of the configuration. |
| ConfigCodec.Channel.ReadString | src/nn/nn-network.cpp:593-605 | A string comes back without its terminating zero. |
| ConfigCodec.NumberOfLow | src/nn/nn-network.cpp:611-672 | Little-endian bytes of a number that fits give it back. |
| ConfigCodec.LowAt | src/nn/nn-network.cpp:611-672 | Byte `i` of a number is its digit of 256 to the `i`. |
| WeightStream.LoadNet | src/llm.cpp:456-492 | Any plan of weights in a file of any length behind its header: reading runs past the end exactly when the file is too short; no bytes are missing exactly when header and weights fill it, and then the root and every worker end with exactly their records, in order, with nothing left to read. |
| WeightStream.LoadWeights | src/llm.cpp:466-488 | Reading runs past the end of the file exactly when it is shorter than header and weights, since the code reads before it compares sizes; otherwise the running offset ends at header plus weights, and each call is given the next weight of the file. |
| WeightStream.RootWeightLoader.LoadRoot | src/nn/nn-network.cpp:818-821 | The root loads the weight, no worker is sent anything, and its size is returned. |
| WeightStream.RootWeightLoader.LoadAll | src/nn/nn-network.cpp:823-831 | Root and all workers get the weight. |
| WeightStream.RootWeightLoader.LoadRow | src/nn/nn-network.cpp:833-847 | Root and every worker get their row slice. |
| WeightStream.RootWeightLoader.LoadCol | src/nn/nn-network.cpp:849-863 | Root and every worker get their column slice. |
| WeightStream.RootWeightLoader.WriteWeight | src/nn/nn-network.cpp:808-816 | One more record is on the worker's stream, every other stream is unchanged. |
| WeightStream.RootWeightLoader.Finish | src/nn/nn-network.cpp:787-797 | Each socket carries exactly its worker's records and the end mark. |
| WeightStream.Read | src/nn/nn-network.cpp:885-910 | The worker loads exactly the records sent and consumes the end mark and not a byte more; the buffer it allocated for each, sized by every record so far, holds the weight. |
| WeightStream.BufferHolds | src/nn/nn-network.cpp:876-883 | Whatever was allocated before, the worker's buffer holds a weight exactly when its size fits 32 bits, because the size parameter is narrower than the size. |
| WeightStream.BufferIsLargest | src/nn/nn-network.cpp:876-883 | The buffer only grows: its size is the largest weight so far, cut to 32 bits. |
| WeightStream.OnlySlice | src/nn/nn-network.cpp:834-835 | With one node the slice is the whole weight. |
| WeightStream.RowsRebuild | src/nn/nn-network.cpp:833-847 | The row slices loaded by the nodes concatenate to the weight. |
| WeightStream.ColsRebuild | src/nn/nn-network.cpp:849-863 | The column slices loaded by the nodes give back every row of the weight. |
| Bpe.Vocab.EncodingText | src/tokenizer.cpp:305-384 | With a byte-complete vocabulary the tokens spell the text (after BOS if asked), at most one token a byte, and no adjacent pair is left that could still merge. |
| Bpe.Vocab.EncodingRun | src/tokenizer.cpp:305-384 | An encoding is BOS if asked and the scanned tokens, merged pair by pair, each time the leftmost pair with the highest score above -1e10 that spells a regular token, until there is none. |
| Bpe.Vocab.InitialAt | src/tokenizer.cpp:314-341 | Wherever the scan stands it takes, with special tokens, the first one the text starts with; otherwise, and elsewhere, the regular token of the next byte. |
| Bpe.SomeVocab | src/tokenizer.cpp:128-152 | There are vocabularies of this kind, with any special tokens. |
| Bpe.Vocab.RoundTrip | src/tokenizer.cpp:285-384 | Decoding the encoding of structurally valid text gives the text and holds nothing back. |
| Bpe.Vocab.BestIsBest | src/tokenizer.cpp:345-359 | The pair chosen has the highest score, the leftmost of equals; none is chosen exactly when none scores. |
| Bpe.Vocab.MergedText | src/tokenizer.cpp:344-372 | Merging terminates, keeps the text and ends where no pair merges. |
| Bpe.Vocab.InitialText | src/tokenizer.cpp:319-341 | The tokens before merging spell the text. |
| Bpe.Encode | src/tokenizer.cpp:305-384 | The in-place loops leave exactly that encoding in the token array. |
| Bpe.Tokens | src/tokenizer.cpp:314-341 | The scan of bytes and special tokens. |
| Bpe.BestPair | src/tokenizer.cpp:345-359 | The scan finds the best pair and its token. |
| Bpe.ReplacePair | src/tokenizer.cpp:365-371 | The pair becomes one token and the rest moves down by one. |
| Bpe.FindSpecialTokenStartWith | src/tokenizer.cpp:190-198 | The first special token the text starts with; none exactly when it starts with none. |
| Utf8.ChunkInvariant | src/tokenizer.cpp:218-303 | Decoding piece by piece, for every way to cut the bytes, is decoding the whole: same output, same bytes held back. |
| Utf8.CutAnywhere | src/tokenizer.cpp:218-303 | One cut, from anywhere inside an invalid stretch too, changes nothing. |
| Utf8.OutputWellFormed | src/tokenizer.cpp:218-283 | All output follows the lead and continuation byte pattern of section 3 of RFC 3629, whatever the input. |
| Utf8.WellFormedIsPattern | src/tokenizer.cpp:218-283 | Whole characters are exactly the bit patterns of section 3 of RFC 3629. |
| Utf8.JunkReplaced | src/tokenizer.cpp:243-268 | A stretch of bytes that no character can contain becomes one replacement character, EF BF BD, in front of the next character. |
| Utf8.BrokenReplaced | src/tokenizer.cpp:243-268 | So does a character that breaks off. |
| Utf8.ValidUnchanged | src/tokenizer.cpp:218-283 | Valid text comes out as it is. |
| Utf8.PendingIsSuffix | src/tokenizer.cpp:271-276 | What is held back is the end of the input. |
| Utf8.PendingShort | src/tokenizer.cpp:271-276 | Of text that valid text can start with, at most three bytes are held back. |
| Utf8.PendingSettled | src/tokenizer.cpp:271-276 | Nothing of it can be released without more input. |
| StreamDecoder.Decoder.DetokUtf8 | src/tokenizer.cpp:218-283 | The byte loop with its checkpoints and recovery is the reference decoding of the buffer. |
| StreamDecoder.Decoder.DecodeToken | src/tokenizer.cpp:285-303 | One token: it fails exactly when its piece does not fit behind what is held; otherwise its piece is decoded behind that; BOS puts out nothing, an end token puts out what is held and keeps it. |
| StreamDecoder.Decoder.DecodeRun | src/tokenizer.cpp:285-303 | Any run of ordinary tokens fails exactly when some piece does not fit behind what the text before it leaves held; otherwise it puts out and holds back what one call on the concatenated text would. |
| StreamDecoder.Decoder.ValidRunFits | src/tokenizer.cpp:154-158 | Text that is valid as far as it goes never fails: at most three bytes are held, and the buffer has room for them and any piece. |
| StreamDecoder.Decoder.InvalidRunFits | src/tokenizer.cpp:297-297 | Invalid bytes pile up: a repeated one-byte piece 0x80 fails exactly when there are as many as the buffer is long, less one. |
| EosDetection.Stops.FirstIsFirst | src/tokenizer.cpp:693-711 | The first match is a match, no pair of stop string and offset before it matches, and none is found only if there is none. |
| EosDetection.Stops.HeldIsShort | src/tokenizer.cpp:693-711 | Text held on MAYBE_EOS is shorter than the left padding plus the longest stop string. |
| EosDetection.Stops.StopNotReleased | src/tokenizer.cpp:693-711 | A stop string within the paddings is never classified as ordinary text. |
| EosDetection.EosDetector.Append | src/tokenizer.cpp:667-712 | An end token, or the first stop string matched, decides the result and the position. |
| EosDetection.EosDetector.Detect | src/tokenizer.cpp:691-711 | The nested loops compute the first match. |
| EosDetection.EosDetector.GetDelta | src/tokenizer.cpp:714-719 | What may be released: the buffer, cut in front of a stop. |
| EosDetection.Drive | src/dllama-api.cpp:210-236 | The loop over appended pieces releases, holds back and ends as `Run` says. |
| EosDetection.ReleasedText | src/dllama-api.cpp:210-236 | Until the stop, released and held text together are all text appended, and what is held is short; an end token releases everything; a stop string cuts the text exactly in front of itself. |
| EosDetection.LeaksExactly | src/dllama-api.cpp:210-236 | All texts of at most `n` bytes, in whatever pieces they come, are safe from releasing the start of a stop string (before a stop listed earlier) exactly when `n` is at most left padding and stop string together, given right paddings no smaller, as the server sets them, and a byte no stop string starts with. |
| EosDetection.ShortTextsNoLeak | src/tokenizer.cpp:693-711 | A text of any length is safe while no text compared on the way is longer than the left padding and one byte, nor than the stop string and the right padding. |
| EosDetection.LongestInText | src/dllama-api.cpp:210-236 | Nothing longer than the whole text is compared or released. |
| EosDetection.LongPieceReleased | src/tokenizer.cpp:697-709 | A piece whose compared offsets hold no first byte of a stop string is released whole, stop strings behind them included. |
| EosDetection.LaterStopReleased | src/tokenizer.cpp:693-707 | A stop string gets out also when one listed before it stands behind it in the same piece. |
| TopP.CroppingLossless | src/tokenizer.cpp:420-461 | For every descending arrangement of all entries, its front is a descending arrangement of the cropped ones, and unless the crop is empty nucleus and sampled index are the same. |
| TopP.SampleTopp | src/tokenizer.cpp:420-461 | The code reads in front of its buffer exactly when every probability is below the cutoff; otherwise the sampled index is the one that sorting all entries would have given, for every order of ties, and it is that of entry `k` of the sorted crop exactly when `k` is in the nucleus, the first length whose sum exceeds topp, and the coin times the nucleus falls between the sums before and after `k`. |
| TopP.SampleIs | src/tokenizer.cpp:439-461 | The sample is the entry the coin picks from the nucleus, and no other. |
| TopP.CoinInterval | src/tokenizer.cpp:452-459 | The coins that pick an entry form an interval as long as its part of the nucleus. |
| TopP.NoFallback | src/tokenizer.cpp:439-461 | In exact arithmetic neither rounding fallback is reached. |
| TopP.CropNeverEmpty | src/tokenizer.cpp:428-435 | The crop is never empty exactly when n times topp is at least 1: below that the uniform distribution loses all its entries. |
| TopP.CropEmpty | src/tokenizer.cpp:428-435 | The crop of a distribution is empty exactly when all its probabilities are below the cutoff. |
| TopP.CropExceeds | src/tokenizer.cpp:428-447 | A crop that is not empty still sums to more than topp. |
| TopP.FrontExtends | src/tokenizer.cpp:428-437 | Every descending arrangement of the crop is the front of one of all entries. |
| TopP.CropInto | src/tokenizer.cpp:429-436 | The first loop leaves the crop in index order. |
| TopP.SampleSorted | src/tokenizer.cpp:439-461 | The two loops compute nucleus and pick. |
| Quants.MantissaStepRounds | src/nn/nn-quants.cpp:44-49 | The mantissa step rounds half to even (section 4.3.1 of IEEE 754-2019) for every mantissa and every shift of at least 1. |
| Quants.RoundHalfEvenUnique | src/nn/nn-quants.cpp:44-49 | No other integer is so rounded. |
| Quants.ConversionRounds | src/nn/nn-quants.cpp:35-65 | The whole conversion of every finite float, subnormal ones included, is one rounding half to even: normal, subnormal and vanishing results, and overflow exactly when every rounded value is out of range. |
| Quants.ConversionKeepsClass | src/nn/nn-quants.cpp:35-65 | Finite floats give finite halves or overflow, infinities give infinities and NaNs give NaNs, and the sign bit stays free. |
| QuantBlocks.Q80Error | src/nn/nn-quants.cpp:154-173 | A Q80 value fits a signed byte and is off by at most amax / 254. |
| QuantBlocks.Q40Error | src/nn/nn-quants.cpp:193-227 | A Q40 value fits a nibble and is off by at most amax / 8. |
| QuantBlocks.BlockErrors | src/nn/nn-quants.cpp:154-246 | Both bounds for a whole block through quantizing and dequantizing. |
| QuantBlocks.NibblesRoundTrip | src/nn/nn-quants.cpp:215-243 | Packing two values a byte and unpacking gives them back in order; value `j` is the low and value `j + 16` the high nibble of byte `j`. |
| QuantBlocks.SharesCover | src/nn/nn-quants.cpp:175-191 | The blocks' shares follow each other from first to last, the rest with the last thread. |
| QuantBlocks.ShareOnce | src/nn/nn-quants.cpp:175-191 | Every block is in exactly one thread's share. |
| QuantThreads.QuantizeThread | src/nn/nn-quants.cpp:154-173 | A thread writes the blocks of its range and nothing else. |
| QuantThreads.DequantizeThread | src/nn/nn-quants.cpp:175-191 | A thread restores the blocks of its share; every cell outside them is as it was. |
| QuantThreads.RoundTrip | src/nn/nn-quants.cpp:154-191 | Quantized and dequantized by any threads in any order, every value comes back within its block's amax / 254. |

## Left out

- ApiServer.ApiServer.Run: states completed requests on the configured single slot, as long as no counter wraps; requests aborted while streaming are not part of this model, because their slot record is not updated after its rows were overwritten.
- ApiServer.ApiServer.ProvideContent: requires a prompt of at least one token that fits the context, which the chat template and the context tokenizer provide; a chat that does not fit is modelled as a request without a prompt.
- ApiServer.ApiServer.Open: requires what is stored to be records of their prefixes, as every run leaves it (`RecoverableIntact`).
- PrefixCacheManager.NnPrefixCacheManager.GetCacheId: does not model the wrap-around of ids and scores.
- HatTrie.HtrieMap.Erase: does not model the iterator to the next element, which this repository never uses.
- HatTrie: array hashes are maps and their iteration order is arbitrary; `erase_prefix`, serialization, iterators beyond lookup, and exceptions inside a burst are not modelled. CityHash is not part of this model.
- Gemm.TinyBlas.MatMul: A and B are sequences and the register kernels are `Lanes`; that a kernel's lanes add up exactly is proved for the floating point ones (`RealLanesExact`) and is the hypothesis `Exact` for the quantized ones, whose SIMD code is not part of this model.
- LlmNet.Model.ShardedEqualsOneNode: in exact arithmetic; the conversion of partial outputs to the exchange type is taken as exact, while the conversions inside a block are arbitrary functions of whole blocks.
- LlmNet.Model.ClusterLogits: the numeric results are composed with functions of the op graph; the methods of `CpuOps`, `AttentionOp` and `Rope` are proved against the same functions, but no method runs all ops of a network in sequence.
- AttentionBlock.AttentionBlock.ShardedEqualsOneNode: requires the nodes to divide the key-value heads, exactly the condition of `Attention.GroupedHeadsExact`.
- TopP.SampleTopp: requires at least two tokens, because the cutoff divides by one less; in exact arithmetic.
- StreamDecoder.Decoder.DecodeToken: the size of the output buffer is not modelled; bytes of the vocabulary are taken to contain no zero.
- Bpe.Encode: the binary search over the sorted vocabulary is an abstract exact lookup, and the capacity assertion of the buffer is not modelled.
- Quants.ConversionRounds: the sign bit is copied by the code and not modelled; `Quants.ConversionKeepsClass` treats infinities and NaNs.
- QuantBlocks.BlockErrors: with an exact scale; the scale's own conversion to half precision adds the error of `Quants.ConversionRounds`.
- ClusterProgress.NoDeadlock: as `Finishes`, for unbounded streams; with bounded buffers writing before reading can block.
- ConfigCodec.Configure: pointers and op configurations are numbers and bytes; acknowledgements from the worker, connection setup and byte order of other machines are not modelled.
- The databases of workers, and when they commit.
- Feature-dependent steps: GELU, benchmarking, switching sockets between blocking and non-blocking mode.
- The SIMD branches of src/nn/nn-cpu-ops.cpp and src/nn/nn-quants.cpp, and the Vulkan device: foreign instruction semantics.
- RocksDB, memory mapping, HTTP and JSON, command line parsing and printing: input and output.
- Chat templates, the context tokenizer's message cache, argmax and multinomial sampling: easier than the parts modelled.
- Choosing a device for a segment and resolving pointers (src/nn/nn-executor.cpp:73-86, src/nn/nn-cpu.cpp): lookups without an invariant.
