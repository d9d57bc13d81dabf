/** `build_shards`: partitioning the dataset into shards with disjoint key ranges. */
module Sharding {
  import opened Wrappers
  import opened Arith
  import opened Config
  import opened Floats
  import opened Ranking
  import opened Engine

  /** The key of the `i`-th vector of shard `shard`. */
  function KeyFor(shard: nat, i: nat): (k: Key)
    ensures shard * VECTORS_PER_SHARD <= k
    ensures i < VECTORS_PER_SHARD ==> k < (shard + 1) * VECTORS_PER_SHARD
  {
    shard * VECTORS_PER_SHARD + i
  }

  /** The shard whose key range holds `key`. */
  function ShardOf(key: Key): nat
  {
    key / VECTORS_PER_SHARD
  }

  /** Vector `i < VECTORS_PER_SHARD` of a shard gets a key inside that shard's
      range `[shard * V, (shard + 1) * V)`, and the key gives back both the shard
      and the position. */
  lemma KeyInShardRange(shard: nat, i: nat)
    requires i < VECTORS_PER_SHARD
    ensures shard * VECTORS_PER_SHARD <= KeyFor(shard, i) < (shard + 1) * VECTORS_PER_SHARD
    ensures ShardOf(KeyFor(shard, i)) == shard
    ensures KeyFor(shard, i) % VECTORS_PER_SHARD == i
  {
    DivUnique(KeyFor(shard, i), VECTORS_PER_SHARD, shard);
  }

  /** Key assignment is injective over (shard, position): distinct shards own
      disjoint key ranges, and positions within a shard get distinct keys. */
  lemma KeyForInjective(s1: nat, i1: nat, s2: nat, i2: nat)
    requires i1 < VECTORS_PER_SHARD && i2 < VECTORS_PER_SHARD
    requires KeyFor(s1, i1) == KeyFor(s2, i2)
    ensures s1 == s2 && i1 == i2
  {
    KeyInShardRange(s1, i1);
    KeyInShardRange(s2, i2);
  }

  /** Every key the configured build assigns fits the `u64` key type. */
  lemma KeyFitsU64(shard: nat, i: nat)
    requires shard < SHARDS && i < VECTORS_PER_SHARD
    ensures KeyFor(shard, i) < KEY_LIMIT
  {
    MulMonotone(shard, SHARDS, VECTORS_PER_SHARD);
  }

  /** Shard `shard` holds `vectors` in order, the `i`-th under `KeyFor(shard, i)`. */
  predicate Holds(idx: Index, shard: nat, vectors: seq<Vector>)
  {
    && |idx.entries| == |vectors|
    && forall i :: 0 <= i < |vectors| ==> idx.entries[i] == Entry(KeyFor(shard, i), vectors[i])
  }

  predicate AllDims(vectors: seq<Vector>)
  {
    forall i :: 0 <= i < |vectors| ==> |vectors[i]| == DIMS
  }

  /** One shard of `build_shards`: every vector added under its global key, into
      an index reserved for `VECTORS_PER_SHARD` vectors. The only failure is a
      vector of the wrong dimension; key clashes cannot occur. */
  method BuildShard(shard: nat, vectors: seq<Vector>) returns (r: Result<Index, Error>)
    requires |vectors| <= VECTORS_PER_SHARD
    ensures r.Ok? <==> AllDims(vectors)
    ensures r.Err? ==> r.error == DimensionMismatch
    ensures r.Ok? ==> Holds(r.value, shard, vectors) && Valid(r.value)
  {
    var index := Empty;
    var i := 0;
    while i < |vectors|
      invariant 0 <= i <= |vectors|
      invariant Valid(index)
      invariant |index.entries| == i
      invariant forall j :: 0 <= j < i ==> index.entries[j] == Entry(KeyFor(shard, j), vectors[j])
      invariant forall j :: 0 <= j < i ==> |vectors[j]| == DIMS
    {
      var key := KeyFor(shard, i);
      assert key !in Keys(index) by {
        forall x | x in Keys(index) ensures x != key {
          var j :| 0 <= j < |index.entries| && index.entries[j].key == x;
        }
      }
      var added := Add(index, key, vectors[i]);
      if added.Err? {
        return Err(added.error);
      }
      index := added.value;
      i := i + 1;
    }
    return Ok(index);
  }

  /** The dataset laid out as built: one shard per vector batch, batch `s` in
      shard `s`. */
  predicate Built(batches: seq<seq<Vector>>, shards: seq<Index>)
  {
    && |shards| == |batches|
    && forall s :: 0 <= s < |shards| ==> Holds(shards[s], s, batches[s]) && Valid(shards[s])
  }

  /** All shards of `build_shards`, built in order; the first failing shard aborts
      the whole build. The shards it builds are partitioned. */
  method BuildShards(batches: seq<seq<Vector>>) returns (r: Result<seq<Index>, Error>)
    requires forall s :: 0 <= s < |batches| ==> |batches[s]| <= VECTORS_PER_SHARD
    ensures r.Ok? <==> forall s :: 0 <= s < |batches| ==> AllDims(batches[s])
    ensures r.Err? ==> r.error == DimensionMismatch
    ensures r.Ok? ==> Built(batches, r.value)
    ensures r.Ok? ==> Partitioned(r.value)
  {
    var shards: seq<Index> := [];
    var s := 0;
    while s < |batches|
      invariant 0 <= s <= |batches|
      invariant Built(batches[..s], shards)
      invariant forall t :: 0 <= t < s ==> AllDims(batches[t])
    {
      var built := BuildShard(s, batches[s]);
      if built.Err? {
        return Err(built.error);
      }
      shards := shards + [built.value];
      s := s + 1;
    }
    assert batches[..s] == batches;
    BuiltIsPartitioned(batches, shards);
    return Ok(shards);
  }

  /** The system invariant the build establishes: each shard is valid and holds
      only keys of its own range. */
  predicate Partitioned(shards: seq<Index>)
  {
    forall s :: 0 <= s < |shards| ==> Valid(shards[s]) && forall k :: k in Keys(shards[s]) ==> ShardOf(k) == s
  }

  /** Shards built from batches of at most `VECTORS_PER_SHARD` vectors are
      partitioned. */
  lemma BuiltIsPartitioned(batches: seq<seq<Vector>>, shards: seq<Index>)
    requires Built(batches, shards)
    requires forall s :: 0 <= s < |batches| ==> |batches[s]| <= VECTORS_PER_SHARD
    ensures Partitioned(shards)
  {
    forall s, k | 0 <= s < |shards| && k in Keys(shards[s])
      ensures ShardOf(k) == s
    {
      var i :| 0 <= i < |shards[s].entries| && shards[s].entries[i].key == k;
      KeyInShardRange(s, i);
    }
  }

  /** In partitioned shards, distinct shards share no key. */
  lemma PartitionedDisjoint(shards: seq<Index>, s1: nat, s2: nat)
    requires Partitioned(shards)
    requires s1 < |shards| && s2 < |shards| && s1 != s2
    ensures Keys(shards[s1]) !! Keys(shards[s2])
  {
  }
}
