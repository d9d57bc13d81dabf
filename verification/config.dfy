/** The fixed configuration constants of the benchmark driver. */
module Config {

  /** Dimension of every stored and query vector. */
  const DIMS: nat := 128

  /** Number of shards the dataset is partitioned into. */
  const SHARDS: nat := 3

  /** Number of vectors in each shard; also the width of each shard's key range. */
  const VECTORS_PER_SHARD: nat := 1_000_000

  /** Size of the reranked result and of the ground truth. */
  const TOP_K: nat := 5

  /** Number of exact results requested from each shard to build the ground truth. */
  const EXACT_GT_PER_SHARD: nat := 100

  /** Number of approximate candidates requested from each shard. */
  const CANDIDATES_PER_SHARD: nat := 20

  /** Keys are `u64`. */
  const KEY_LIMIT: nat := 0x1_0000_0000_0000_0000
}
