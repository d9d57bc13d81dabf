# Sharded vector search with exact reranking — a Dafny model

This project models the pure logic of a benchmark driver for sharded
approximate-nearest-neighbour (ANN) search, `src/main.rs`. The driver is built on
the `usearch` index engine. It:

- partitions a dataset into `SHARDS` indexes with disjoint key ranges;
- writes the query vectors to a header-less binary file and reads them back;
- for every query:
  - fans out an approximate search to every shard;
  - fetches the candidates' true vectors from the shards that returned them;
  - reranks the candidates exactly in a flat index;
  - builds a ground truth by merging each shard's exact top results;
- reports each query's Recall@K and their mean.

The modules follow that pipeline:

| module | file | what it holds |
|---|---|---|
| `Config` | `config.dfy` | the driver's constants (`DIMS = 128`, `SHARDS = 3`, `VECTORS_PER_SHARD = 1_000_000`, `TOP_K = 5`, `EXACT_GT_PER_SHARD = 100`, `CANDIDATES_PER_SHARD = 20`, `u64` keys) |
| `Floats` | `floats.dfy` | `f32` as an opaque 4-byte value, `to_ne_bytes` / `from_ne_bytes` |
| `Codec` | `codec.dfy` | the test-vector file: encoding, the two-stage `chunks_exact` decoder, and the loader loop |
| `Ranking` | `ranking.dfy` | matches `(key, distance)`, the stable sort on distance, the two-way merge, the exact top-`k` |
| `Engine` | `engine.dfy` | the index engine seen through the capabilities the driver uses: `add`, `get`, `exact_search`, and a contract for `search` |
| `Sharding` | `sharding.dfy` | `build_shards`: key assignment `shard * VECTORS_PER_SHARD + i` and the shard build loop |
| `Search` | `search.dfy` | candidate fan-out, the rerank index build, the exact rerank, and the origin-shard lookup |
| `GroundTruthEval` | `groundtruth.dfy` | the per-shard exact top-`min(100, size)`, the merge and the truncation |
| `Recall` | `recall.dfy` | Recall@K over key sets, the running sum and the mean |
| `Pipeline` | `pipeline.dfy` | one query end to end, the query loop, and `distributed_search_with_reranking` |

`Seqs`, `Arith` and `Wrappers` hold generic helpers: flattening, `truncate`,
`chunks_exact`, division facts, and `Option`/`Result`.

How the engine is abstracted:

- An index is its entries `(key, vector)` in insertion order. It is single-valued (`multi: false`).
- `add` fails on a vector of the wrong dimension or on a key already stored.
- `exact_search(q, k)` is the `k` closest stored entries by an arbitrary metric, ascending, ties in insertion order.
- The approximate `search` is an arbitrary function. The success lemmas assume only that it keeps the contract `ValidApprox`: at most `k` distinct stored keys in ascending distance.
- Distances are `int`.
- The metric is a parameter.

What is proved:

- Keys: every key lies in its shard's range, the assignment is injective, and it fits `u64`.
- Codec: the file codec round-trips. Decoding a file with a partial float or a partial vector at its end yields exactly the complete vectors.
- Fan-out: the fan-out is the unique shard-ordered, shard-tagged concatenation of the per-shard results, and its length is bounded.
- Rerank and origin lookup:
  - A repeated candidate key always makes the rerank fail, and on valid shards it fails exactly then. On partitioned shards, with an approximate search that keeps `ValidApprox`, no key repeats and a query never fails.
  - The rerank returns the exact top-`TOP_K` of the candidates by true distance, each key at most once.
  - Every reranked key has an origin shard, so `find(...).unwrap()` cannot panic.
  - On partitioned shards, with an approximate search that keeps `ValidApprox`, that origin is the shard that owns the key (`QuerySucceeds`).
- Ground truth: it is sorted, has length `min(TOP_K, |pool|)`, and draws from the shards' exact results. Because `EXACT_GT_PER_SHARD >= TOP_K`, it equals the brute-force global top-`TOP_K` over every vector of every shard. On partitioned shards it holds every key at most once.
- Recall: each recall and the mean lie in `[0, 1]`. A query's recall measures its reranked keys against its ground-truth keys: it is 1 exactly when the ground truth has `TOP_K` distinct keys, all of them reranked, and 0 exactly when none of them is.

## Model

| member | source | states |
|---|---|---|
| `Sharding.KeyFor` | src/main.rs:81-83 | the key of vector `i` of shard `s` is at least `s*V`, and below `(s+1)*V` whenever `i < V` |
| `Sharding.KeyInShardRange` | src/main.rs:81-84 | vector `i < VECTORS_PER_SHARD` of shard `s` gets a key in `[s*V, (s+1)*V)`, from which both `s` (by division) and `i` (by remainder) are recovered |
| `Sharding.KeyForInjective` | src/main.rs:81-84 | two (shard, position) pairs with positions below `VECTORS_PER_SHARD` get the same key only if they are the same pair |
| `Sharding.KeyFitsU64` | src/main.rs:83 | for `shard < SHARDS` and `i < VECTORS_PER_SHARD` the key is below `2^64`, so the `as u64` cast never truncates |
| `Sharding.BuildShard` | src/main.rs:71-85 | given at most the reserved `VECTORS_PER_SHARD` vectors, adding a shard's vectors under `base_key + i` succeeds exactly when every vector has `DIMS` components; a failure is always a dimension mismatch, never a key clash; on success the shard holds the vectors in order under their keys and is a valid index |
| `Sharding.BuildShards` | src/main.rs:65-105 | for batches of at most `VECTORS_PER_SHARD` vectors, the build loop succeeds exactly when every batch has the right dimension, fails only with a dimension mismatch, and on success shard `s` holds batch `s` and the shards are partitioned |
| `Sharding.BuiltIsPartitioned` | src/main.rs:65-85 | shards built from batches of at most `VECTORS_PER_SHARD` vectors hold only keys of their own range |
| `Sharding.PartitionedDisjoint` | src/main.rs:81-84 | in partitioned shards, two distinct shards share no key |
| `Engine.Add` | src/main.rs:84 | `add` succeeds exactly when the vector has `DIMS` components and the key is new; it appends the entry, adds the key to the key set and keeps the index valid |
| `Engine.Lookup` | src/main.rs:265 | finds a vector exactly when some entry has the key, and the vector found is stored under that key |
| `Engine.LookupStored` | src/main.rs:265 | with distinct keys, looking up a stored key yields the vector stored with it |
| `Engine.Fetch` | src/main.rs:264-265 | `get` into a zeroed `DIMS` buffer yields a `DIMS`-wide vector on a valid index, and the untouched zero buffer for an absent key |
| `Engine.FetchStored` | src/main.rs:264-265 | in a valid index, fetching a stored key returns exactly the vector added with it |
| `Engine.ExactSearch` | src/main.rs:312 | `exact_search(q, k)` returns `min(k, size)` matches, ascending, drawn without repetition from the stored entries' scores, each a stored key at its true distance, and no stored entry left out is closer than one returned |
| `Engine.ExactSearchIsValidApprox` | src/main.rs:240 | on a valid index the exact search's keys meet the contract assumed of `search`: at most `k` distinct stored keys in ascending true distance |
| `Engine.SubScoreIsValidApprox` | src/main.rs:240-241 | any sorted selection of at most `k` matches, drawn from a pool with distinct keys, naming stored keys at their true distances, has keys meeting the `search` contract |
| `Engine.ExactSearchUniqueKeys` | src/main.rs:276 | on a valid index exact search returns every key at most once |
| `Engine.SubUniqueKeys` | src/main.rs:320-321 | a selection drawn from a pool of matches with distinct keys has distinct keys |
| `Engine.ValidApprox` | src/main.rs:240 | what the driver assumes of `search(query, k)`: at most `k` distinct stored keys in ascending distance |
| `Floats.BytesRoundTrip` | src/main.rs:117 | reading back the 4 native bytes of a float gives the float |
| `Floats.ToNeBytes` | src/main.rs:117 | `to_ne_bytes` yields exactly 4 bytes |
| `Floats.FromNeBytes` | src/main.rs:134-135 | writing out the float read from 4 bytes gives the same bytes, so no byte pattern is lost |
| `Codec.FloatBytes` | src/main.rs:115-118 | the writer emits 4 bytes per float, float `i` at bytes `[4i, 4i+4)`, with no header |
| `Codec.Encode` | src/main.rs:114-119 | the file holds 4 bytes per float of every vector, float `i` of the concatenated vectors at bytes `[4i, 4i+4)`, and nothing else |
| `Codec.BytesToFloats` | src/main.rs:130-136 | the reader makes `len / 4` floats, float `i` being the one whose bytes are `[4i, 4i+4)` of the buffer |
| `Codec.Decode` | src/main.rs:130-141 | the reader yields `(len / 4) / DIMS` vectors, each of exactly `DIMS` floats |
| `Codec.FloatsRoundTrip` | src/main.rs:130-136 | decoding the floats of an encoded run followed by fewer than 4 stray bytes gives back the run |
| `Codec.DecodeEncodeWithTail` | src/main.rs:114-141 | encoded `DIMS`-wide vectors followed by a partial vector and a partial float decode to exactly those vectors |
| `Codec.DecodeEncode` | src/main.rs:114-141 | `decode(encode(vs)) == vs` for `DIMS`-wide vectors, and the file is `4 * DIMS * |vs|` bytes long |
| `Codec.DecodeIsPrefix` | src/main.rs:130-141 | re-encoding what was decoded gives the longest prefix of the file made of complete vectors: nothing is reordered or invented |
| `Codec.LoadTestVectors` | src/main.rs:125-143 | the two `chunks_exact` loops compute exactly `Decode` of the buffer |
| `Seqs.ChunksExact` | src/main.rs:133 | `chunks_exact(n)` yields `len / n` chunks, each of exactly `n` elements |
| `Seqs.ChunksOfFlatten` | src/main.rs:133-141 | chunking `n`-element pieces followed by a shorter tail gives back exactly the pieces |
| `Seqs.FlattenOfChunks` | src/main.rs:133-141 | the chunks concatenated are the input with its dropped remainder cut off |
| `Seqs.ChunkAt` | src/main.rs:133-135 | chunk `i` is the slice `[i*n, i*n + n)` |
| `Seqs.Take` | src/main.rs:321 | `truncate(n)` keeps `min(n, len)` elements, the first ones, unchanged |
| `Ranking.Sort` | src/main.rs:320 | `sort_by` on distance returns an ordered permutation of its input that keeps every equal-distance run in input order |
| `Ranking.SortIsTheStableSort` | src/main.rs:320 | any ordered rearrangement that keeps every equal-distance run in input order is `Sort`'s result, so the stable sort is unique |
| `Ranking.SortedUnique` | src/main.rs:320 | two ordered sequences with the same matches at every distance, in the same order, are equal |
| `Ranking.SortAppend` | src/main.rs:315-320 | stably sorting a concatenation is merging the stably sorted parts, ties to the left part |
| `Ranking.MergeAtDist` | src/main.rs:315-320 | merging two sorted sequences keeps, at every distance, the left part's matches before the right part's |
| `Ranking.MergePermutes` | src/main.rs:315-320 | merging keeps every match of both sides, no more and no fewer |
| `Ranking.TakeMerge` | src/main.rs:320-321 | the first `k` of a merge depend only on the first `k` (or more) of each side |
| `Ranking.TopK` | src/main.rs:312 | the `k` closest: `min(k, len)` matches, ascending, drawn from the pool, with nothing left out closer than anything kept |
| `Search.FanOut` | src/main.rs:237-244 | the candidates are in shard order, tagged only with existing shards, and the keys tagged `s` are exactly shard `s`'s result in its order; their number is the sum of the result lengths |
| `Search.FanOutUnique` | src/main.rs:237-244 | the fan-out is the only candidate list with that shape, so it is the shard-ordered, shard-tagged concatenation of the results |
| `Search.FanOutBound` | src/main.rs:239-244 | when every shard returns at most `k` keys there are at most `shards * k` candidates |
| `Search.FanOutFromDistinct` | src/main.rs:239-244 | when each shard returns distinct keys of its own range, the candidate keys are distinct and each candidate's tag is its key's owner shard |
| `Search.BuildRerankIndex` | src/main.rs:258-267 | fetching each candidate's vector from its shard and adding it under its key succeeds only with distinct candidate keys, and on valid shards exactly then (otherwise a duplicate-key failure); on success the index holds the candidates with their true vectors, in order |
| `Search.LastKeyFresh` | src/main.rs:262-267 | after the first `n` candidates are added, the next key is new exactly when all candidate keys are distinct |
| `Search.Rerank` | src/main.rs:257-276 | a repeated candidate key always makes reranking fail and, on valid shards, it fails exactly then; on success it is the exact top-`TOP_K` of the candidates by true distance, with distinct keys, and every returned key has an origin among the candidates |
| `Search.RerankFound` | src/main.rs:262-276 | exact search in the rerank index ranks the candidates by their true distances and returns only candidate keys |
| `Search.FindOrigin` | src/main.rs:290-294 | `find` returns a shard exactly when some candidate has the key, and the shard returned is the tag of the key's first occurrence |
| `Search.FindOriginIsOwner` | src/main.rs:290-294 | when every candidate's tag is its key's owner, the shard found for a candidate key is the key's owner |
| `GroundTruthEval.PerShardK` | src/main.rs:310 | `EXACT_GT_PER_SHARD.min(size)` never exceeds the shard size or `EXACT_GT_PER_SHARD`, and equals one of them |
| `GroundTruthEval.ShardExact` | src/main.rs:309-318 | shard `s` contributes exactly `min(EXACT_GT_PER_SHARD, size)` exact matches |
| `GroundTruthEval.AllExactLength` | src/main.rs:307 | the pool holds at most `shards * EXACT_GT_PER_SHARD` matches, the capacity reserved for it |
| `GroundTruthEval.GroundTruth` | src/main.rs:307-321 | the ground truth has `min(TOP_K, pool)` matches, is ascending, takes every match from some shard's exact result, and leaves out nothing closer than what it keeps |
| `GroundTruthEval.GroundTruthIsStablePrefix` | src/main.rs:320-321 | any ordering of the pool that is sorted and keeps equal distances in shard order gives the same ground truth after truncation |
| `GroundTruthEval.MergeOfTruncated` | src/main.rs:309-321 | truncating each shard's list to its `m >= k` closest before merging does not change the merged `k` closest |
| `GroundTruthEval.GroundTruthUniqueKeys` | src/main.rs:307-321 | on partitioned shards the ground truth holds every key at most once |
| `GroundTruthEval.FlattenUniqueKeys` | src/main.rs:309-318 | per-shard lists with distinct keys, each holding only its own shard's keys, concatenate to a list with distinct keys |
| `GroundTruthEval.GroundTruthIsGlobalExact` | src/main.rs:307-321 | since `EXACT_GT_PER_SHARD >= TOP_K`, the ground truth equals the brute-force top-`TOP_K` over every vector of every shard |
| `Recall.KeySet` | src/main.rs:328-329 | the collected key set holds exactly the keys of the matches, no more keys than matches, and as many exactly when no key repeats |
| `Recall.IntersectionSize` | src/main.rs:330 | the intersection is no larger than the ground-truth key set, and as large exactly when that set is contained in the predicted keys |
| `Recall.RecallAtK` | src/main.rs:328-331 | with at most `TOP_K` ground-truth matches, the recall is in `[0, 1]`, and it is 1 exactly when the ground truth has `TOP_K` distinct keys, all predicted; it is 0 exactly when no ground-truth key is predicted |
| `Recall.RecallOfSets` | src/main.rs:330-331 | the share of the ground-truth key set found among the predicted keys, out of `TOP_K`, is in `[0, 1]` for at most `TOP_K` ground-truth keys, 1 exactly when there are `TOP_K` of them and all are predicted, and 0 exactly when the two sets are disjoint |
| `Recall.Sum` | src/main.rs:334 | the running sum of `n` recalls in `[0, 1]` lies in `[0, n]` |
| `Recall.Mean` | src/main.rs:338-344 | the mean is reported exactly when there was at least one query |
| `Recall.MeanBounds` | src/main.rs:338-344 | the mean of recalls in `[0, 1]` lies in `[0, 1]` |
| `Pipeline.RunQuery` | src/main.rs:235-335 | a repeated candidate key always makes one query fail and, on valid shards, it fails exactly then; on success the candidates are the fan-out, the reranked result is the exact top-`TOP_K` of the candidates with distinct keys each having an origin, the ground truth is `GroundTruth`, and the recall, in `[0, 1]`, is 1 exactly when the ground truth has `TOP_K` distinct keys all reranked and 0 exactly when none is reranked |
| `Pipeline.RunCandidates` | src/main.rs:255-331 | the rerank and evaluation of a candidate list: a repeated candidate key always makes it fail and, on valid shards, it fails exactly then; on success the reranked result is the exact top-`TOP_K` of the candidates with distinct keys each having an origin, the ground truth is `GroundTruth`, and the recall, in `[0, 1]`, is 1 exactly when the ground truth has `TOP_K` distinct keys all reranked and 0 exactly when none is reranked |
| `Pipeline.Evaluate` | src/main.rs:307-331 | the evaluation keeps the candidates and the reranked result, its ground truth is `GroundTruth` with at most `TOP_K` matches, and its recall, in `[0, 1]`, is 1 exactly when the ground truth has `TOP_K` distinct keys all reranked and 0 exactly when none is reranked |
| `Pipeline.ShardResults` | src/main.rs:239-240 | with a search that keeps its contract, result `s` is at most `CANDIDATES_PER_SHARD` distinct keys stored in shard `s`, in ascending distance, and on partitioned shards every one of them is owned by shard `s` |
| `Pipeline.RunAll` | src/main.rs:232-336 | the run over all queries fails exactly when some query fails, and otherwise reports one recall per query, each that query's own recall, in order |
| `Pipeline.QuerySucceeds` | src/main.rs:239-294 | on partitioned shards with a contract-keeping approximate search a query never fails, has at most `shards * CANDIDATES_PER_SHARD` candidates, reports each reranked key's owner shard as its origin, and has a ground truth without repeated keys |
| `Pipeline.CollectRecalls` | src/main.rs:232-336 | the loop fails exactly when some query fails; otherwise it yields one recall per query, in order |
| `Pipeline.RunAllRecallBounds` | src/main.rs:328-336 | every recall the run reports lies in `[0, 1]` |
| `Pipeline.QueryLoop` | src/main.rs:230-336 | the loop computes `CollectRecalls`, stopping at the first failure, and its `recall_sum` is the sum of the recalls |
| `Pipeline.PrefixFailure` | src/main.rs:240 | a failure among the first `n` queries is the failure of the whole run, because `?` propagates it |
| `Pipeline.DistributedSearch` | src/main.rs:189-348 | the run fails exactly when some decoded query fails; otherwise it reports the per-query recalls, and their mean is present exactly when there was a query and lies in `[0, 1]` |
| `Pipeline.RunSucceeds` | src/main.rs:232-336 | on partitioned shards with a contract-keeping approximate search the whole run succeeds, whatever the test file holds |

Notes on the choices above:

- `Engine.Fetch`: `get(key, &mut vector)` writes into a buffer created as `DIMS` zeros (src/main.rs:264-265). The driver ignores the count `get` returns, so for an absent key the zero buffer stays, and the model returns that zero vector. The case cannot arise with an approximate search that keeps `ValidApprox`, whose stored-keys clause puts every candidate key in the shard that returned it.
- `Pipeline.RunQuery` and the rerank: a duplicate candidate key makes the flat index's `add` fail (`multi: false`), and the query fails with it.
- The ground-truth merge: a per-shard cut-off below `TOP_K` could miss true neighbours. With `TOP_K = 5 <= EXACT_GT_PER_SHARD = 100` it cannot, and `GroundTruthIsGlobalExact` proves the merge exact.

## Left out

- The `usearch` engine's internals: the HNSW graph, `reserve`, `save`, `load`, `view`, `memory_usage`, and the index option structs (src/main.rs:17-39). The engine is a foreign library, so it is abstracted by its contracts. The approximate search is a function parameter.
- `Engine.ExactSearch`: ties between equal distances are broken by insertion order. The engine's own tie order is not visible in the driver, and the exact equalities of `Search.Rerank` and `GroundTruthEval.GroundTruthIsGlobalExact` rest on this choice.
- Failures of `new_index`, `reserve`, `save` and `view`, of `get(...)?` (src/main.rs:265), of `exact_search(...)?` (src/main.rs:276, 312), and engine-internal failures of `search(...)?` (src/main.rs:240). These come from the foreign engine and the file system. The modelled failure causes are a dimension mismatch and a duplicate key. The driver's own data never yields a dimension mismatch, since `generate_random_vectors(_, DIMS, _)` (src/main.rs:76) and the zeroed buffer (src/main.rs:264) always hold `DIMS` floats; it arises only for the arbitrary batches the model accepts.
- Persistence: the shard artifacts, the file-system calls (`File::create`, `open`, `read_to_end`, `write_all`), and the non-transactional build that leaves earlier shards on disk. The codec is modelled on byte sequences.
- `compare_memory_usage`, and its load-versus-view result equality (src/main.rs:180-183). This is a property of the external engine.
- `Sharding.BuildShard`: requires at most `VECTORS_PER_SHARD` vectors, the capacity `reserve` sets (src/main.rs:71); the engine's behaviour on adds beyond a reservation is not modelled.
- Random vector generation with `StdRng` (src/main.rs:41-54). Batches of vectors are parameters of the build.
- `f32` arithmetic and NaN: distances are `int`, the metric is a parameter, and `partial_cmp(...).unwrap_or(Equal)` is an ordinary total order.
- Native byte order: a float is an opaque 4-byte value whose bytes are written and read back in the same order.
- `Recall.RecallAtK`: computed exactly as a `real`; the `f64` rounding of `intersect as f64 / TOP_K as f64` is not modelled.
- `Recall.Mean`: computed exactly as a `real`; the `f64` rounding of `recall_sum / num_queries as f64` is not modelled.
- Timing (`Instant`), `println!` reporting, `main`, and the `#[cfg(test)]` harness: these are observability and entry-point plumbing.
