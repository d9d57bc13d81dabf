/** The ground truth of one query: each shard's exact top results, merged by a
    stable sort on distance and truncated to `TOP_K`. */
module GroundTruthEval {
  import opened Config
  import opened Seqs
  import opened Floats
  import opened Ranking
  import opened Engine
  import opened Sharding

  /** `EXACT_GT_PER_SHARD.min(shard.size())`: the per-shard exact request size. */
  function PerShardK(size: nat): (k: nat)
    ensures k <= size && k <= EXACT_GT_PER_SHARD
    ensures k == size || k == EXACT_GT_PER_SHARD
  {
    if EXACT_GT_PER_SHARD <= size then EXACT_GT_PER_SHARD else size
  }

  /** Every shard's exact result for the query, in shard order. */
  function ShardExact(shards: seq<Index>, q: Vector, metric: Metric): (r: seq<seq<Match>>)
    ensures |r| == |shards|
    ensures forall s :: 0 <= s < |shards| ==> |r[s]| == PerShardK(Size(shards[s]))
  {
    seq(|shards|, s requires 0 <= s < |shards| => ExactSearch(shards[s], q, PerShardK(Size(shards[s])), metric))
  }

  /** `all_exact` before sorting: the shards' exact results concatenated. */
  function AllExact(shards: seq<Index>, q: Vector, metric: Metric): seq<Match>
  {
    Flatten(ShardExact(shards, q, metric))
  }

  /** The ground truth: `all_exact` stably sorted by distance and truncated. It is
      sorted, holds `min(TOP_K, |all_exact|)` matches, each taken from some shard's
      exact result, and no pooled match left out is closer than one kept. */
  function GroundTruth(shards: seq<Index>, q: Vector, metric: Metric): (gt: seq<Match>)
    ensures var n := |AllExact(shards, q, metric)|; |gt| == if TOP_K < n then TOP_K else n
    ensures Sorted(gt)
    ensures forall m :: m in gt ==> exists s :: 0 <= s < |shards| && m in ShardExact(shards, q, metric)[s]
    ensures forall m, x :: m in multiset(AllExact(shards, q, metric)) - multiset(gt) && x in gt ==> x.dist <= m.dist
  {
    var gt := TopK(AllExact(shards, q, metric), TOP_K);
    FromSomeShard(shards, q, metric, gt);
    gt
  }

  /** Matches drawn from the pool come from some shard's exact result. */
  lemma FromSomeShard(shards: seq<Index>, q: Vector, metric: Metric, gt: seq<Match>)
    requires multiset(gt) <= multiset(AllExact(shards, q, metric))
    ensures forall m :: m in gt ==> exists s :: 0 <= s < |shards| && m in ShardExact(shards, q, metric)[s]
  {
    forall m | m in gt
      ensures exists s :: 0 <= s < |shards| && m in ShardExact(shards, q, metric)[s]
    {
      assert m in multiset(AllExact(shards, q, metric));
      FlattenMember(ShardExact(shards, q, metric), m);
    }
  }

  /** The pool holds `min(EXACT_GT_PER_SHARD, size)` matches per shard, so at most
      `|shards| * EXACT_GT_PER_SHARD` in all (the capacity reserved for it). */
  lemma AllExactLength(shards: seq<Index>, q: Vector, metric: Metric)
    ensures |AllExact(shards, q, metric)| <= |shards| * EXACT_GT_PER_SHARD
  {
    TotalLengthBound(ShardExact(shards, q, metric), EXACT_GT_PER_SHARD);
  }

  /** The truncation is a prefix of the stable merge whatever stable sort is used:
      any ordering of the pool that is sorted and keeps equal-distance matches in
      pool order gives the same ground truth. */
  lemma GroundTruthIsStablePrefix(shards: seq<Index>, q: Vector, metric: Metric, sorted: seq<Match>)
    requires Sorted(sorted)
    requires forall d :: AtDist(sorted, d) == AtDist(AllExact(shards, q, metric), d)
    ensures GroundTruth(shards, q, metric) == Take(sorted, TOP_K)
  {
    SortIsTheStableSort(AllExact(shards, q, metric), sorted);
  }

  /** Each part truncated to its `m` closest (`TopK` unfolded, so that the
      truncation carries no facts about its parts until they are asked for). */
  function TruncateEach(ss: seq<seq<Match>>, m: nat): (t: seq<seq<Match>>)
    ensures |t| == |ss|
  {
    if |ss| == 0 then [] else [Take(Sort(ss[0]), m)] + TruncateEach(ss[1..], m)
  }

  lemma {:induction false} TruncateEachAt(ss: seq<seq<Match>>, m: nat, i: nat)
    requires i < |ss|
    ensures TruncateEach(ss, m)[i] == Take(Sort(ss[i]), m)
    decreases i
  {
    var rest := TruncateEach(ss[1..], m);
    assert TruncateEach(ss, m) == [Take(Sort(ss[0]), m)] + rest;
    if i > 0 {
      TruncateEachAt(ss[1..], m, i - 1);
      assert ss[1..][i - 1] == ss[i];
    }
  }

  /** Truncating each part to its `m >= k` closest before merging does not change
      the `k` closest of the whole. */
  lemma {:induction false} MergeOfTruncated(ss: seq<seq<Match>>, m: nat, k: nat)
    requires k <= m
    ensures Take(Sort(Flatten(TruncateEach(ss, m))), k) == Take(Sort(Flatten(ss)), k)
    decreases |ss|
  {
    if |ss| > 0 {
      MergeOfTruncated(ss[1..], m, k);
      TruncatedStep(ss, m, k);
    }
  }

  lemma TruncatedStep(ss: seq<seq<Match>>, m: nat, k: nat)
    requires |ss| > 0 && k <= m
    requires Take(Sort(Flatten(TruncateEach(ss[1..], m))), k) == Take(Sort(Flatten(ss[1..])), k)
    ensures Take(Sort(Flatten(TruncateEach(ss, m))), k) == Take(Sort(Flatten(ss)), k)
  {
    var t := TruncateEach(ss, m);
    assert t[1..] == TruncateEach(ss[1..], m);
    assert Flatten(t) == Take(Sort(ss[0]), m) + Flatten(t[1..]);
    assert Flatten(ss) == ss[0] + Flatten(ss[1..]);
    TruncatedHead(ss[0], Flatten(t[1..]), Flatten(ss[1..]), m, k);
  }

  /** One step of `MergeOfTruncated`: truncating the head part to its `m >= k`
      closest keeps the `k` closest of head and tail together, given that the tail
      already agrees on its `k` closest. */
  lemma TruncatedHead(a: seq<Match>, f': seq<Match>, f: seq<Match>, m: nat, k: nat)
    requires k <= m
    requires Take(Sort(f'), k) == Take(Sort(f), k)
    ensures Take(Sort(Take(Sort(a), m) + f'), k) == Take(Sort(a + f), k)
  {
    var a' := Take(Sort(a), m);
    assert Sorted(a') by { assert a' == TopK(a, m); }
    calc {
      Take(Sort(a' + f'), k);
      { SortAppend(a', f'); SortSorted(a'); }
      Take(Merge(a', Sort(f')), k);
      { TakeMerge(a', Sort(f'), k, k, k); }
      Take(Merge(Take(a', k), Take(Sort(f'), k)), k);
      { TakeTake(Sort(a), m, k); }
      Take(Merge(Take(Sort(a), k), Take(Sort(f), k)), k);
      { TakeMerge(Sort(a), Sort(f), k, k, k); }
      Take(Merge(Sort(a), Sort(f)), k);
      { SortAppend(a, f); }
      Take(Sort(a + f), k);
    }
  }

  /** Because `EXACT_GT_PER_SHARD >= TOP_K`, the merged ground truth is exactly the
      brute-force top-`TOP_K` over every vector of every shard: no true global
      neighbour can be missed by the per-shard truncation. */
  lemma GroundTruthIsGlobalExact(shards: seq<Index>, q: Vector, metric: Metric)
    ensures GroundTruth(shards, q, metric)
         == TopK(Flatten(seq(|shards|, s requires 0 <= s < |shards| => Score(shards[s], q, metric))), TOP_K)
  {
    var scores := seq(|shards|, s requires 0 <= s < |shards| => Score(shards[s], q, metric));
    var t := TruncateEach(scores, EXACT_GT_PER_SHARD);
    forall s | 0 <= s < |shards|
      ensures ShardExact(shards, q, metric)[s] == t[s]
    {
      TruncateEachAt(scores, EXACT_GT_PER_SHARD, s);
      assert |scores[s]| == Size(shards[s]);
    }
    assert ShardExact(shards, q, metric) == t;
    MergeOfTruncated(scores, EXACT_GT_PER_SHARD, TOP_K);
  }

  /** On partitioned shards the ground truth holds every key at most once: each
      shard's exact result has distinct keys, all owned by that shard, and the
      ground truth is drawn from their concatenation. */
  lemma GroundTruthUniqueKeys(shards: seq<Index>, q: Vector, metric: Metric)
    requires Partitioned(shards)
    ensures UniqueKeys(GroundTruth(shards, q, metric))
  {
    var ex := ShardExact(shards, q, metric);
    forall s | 0 <= s < |ex|
      ensures UniqueKeys(ex[s])
      ensures forall i :: 0 <= i < |ex[s]| ==> ShardOf(ex[s][i].key) == s
    {
      ExactSearchUniqueKeys(shards[s], q, PerShardK(Size(shards[s])), metric);
      forall i | 0 <= i < |ex[s]|
        ensures ShardOf(ex[s][i].key) == s
      {
        assert ex[s][i] in ex[s];
      }
    }
    FlattenUniqueKeys(ex, 0);
    assert GroundTruth(shards, q, metric) == TopK(AllExact(shards, q, metric), TOP_K);
    SubUniqueKeys(GroundTruth(shards, q, metric), AllExact(shards, q, metric));
  }

  /** Parts with distinct keys, part `s` holding only keys of shard `first + s`,
      concatenate to a sequence with distinct keys. */
  lemma {:induction false} FlattenUniqueKeys(ss: seq<seq<Match>>, first: nat)
    requires forall s :: 0 <= s < |ss| ==> UniqueKeys(ss[s])
    requires forall s, i :: 0 <= s < |ss| && 0 <= i < |ss[s]| ==> ShardOf(ss[s][i].key) == first + s
    ensures UniqueKeys(Flatten(ss))
    ensures forall i :: 0 <= i < |Flatten(ss)| ==> first <= ShardOf(Flatten(ss)[i].key)
    decreases |ss|
  {
    if |ss| > 0 {
      var h, t := ss[0], Flatten(ss[1..]);
      FlattenUniqueKeys(ss[1..], first + 1);
      var r := h + t;
      assert r == Flatten(ss);
      forall i, j | 0 <= i < j < |r|
        ensures r[i].key != r[j].key
      {
        if j < |h| {
          assert r[i] == h[i] && r[j] == h[j];
        } else if i < |h| {
          assert ShardOf(r[i].key) == first;
          assert r[j] == t[j - |h|];
        } else {
          assert r[i] == t[i - |h|] && r[j] == t[j - |h|];
        }
      }
      forall i | 0 <= i < |r|
        ensures first <= ShardOf(r[i].key)
      {
        if i >= |h| {
          assert r[i] == t[i - |h|];
        }
      }
    }
  }
}
