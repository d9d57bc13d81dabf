/** `distributed_search_with_reranking`: for each test vector, fan out, rerank,
    compute the ground truth and the recall; report the mean recall. */
module Pipeline {
  import opened Wrappers
  import opened Config
  import opened Seqs
  import opened Floats
  import opened Codec
  import opened Ranking
  import opened Engine
  import opened Sharding
  import opened Search
  import opened GroundTruthEval
  import opened Recall

  /** The engine's approximate `search(query, k)` on a shard. */
  type ApproxSearch = (Index, Vector, nat) -> seq<Key>

  /** The approximate search keeps its contract on every shard and query. */
  ghost predicate HonoursContract(search: ApproxSearch, metric: Metric)
  {
    forall idx, q, k :: ValidApprox(idx, q, k, metric, search(idx, q, k))
  }

  datatype QueryOutcome = QueryOutcome(
    candidates: seq<Candidate>,
    reranked: seq<Match>,
    groundTruth: seq<Match>,
    recall: real)

  /** Every shard's approximate result for the query, in shard order. With a
      search that keeps its contract, result `s` is at most
      `CANDIDATES_PER_SHARD` distinct keys of shard `s` in ascending distance;
      on partitioned shards every one of them is owned by shard `s`. */
  function ShardResults(shards: seq<Index>, q: Vector, search: ApproxSearch, metric: Metric): (r: seq<seq<Key>>)
    ensures |r| == |shards|
    ensures forall s :: 0 <= s < |shards| ==> r[s] == search(shards[s], q, CANDIDATES_PER_SHARD)
    ensures HonoursContract(search, metric) ==>
      forall s :: 0 <= s < |shards| ==> ValidApprox(shards[s], q, CANDIDATES_PER_SHARD, metric, r[s])
    ensures HonoursContract(search, metric) && Partitioned(shards) ==>
      forall s, i :: 0 <= s < |shards| && 0 <= i < |r[s]| ==> ShardOf(r[s][i]) == s
  {
    seq(|shards|, s requires 0 <= s < |shards| => search(shards[s], q, CANDIDATES_PER_SHARD))
  }

  /** One iteration of the query loop. A repeated candidate key makes it fail,
      and on valid shards it fails exactly then. When it succeeds the reranked
      result is the exact top-`TOP_K` of the candidates by true distance, with
      distinct keys each of which has an origin shard; the ground truth is that
      of the shards; and the recall, in `[0, 1]`, is 1 exactly when the ground
      truth holds `TOP_K` distinct keys all reranked, and 0 exactly when none of
      its keys is reranked. */
  function RunQuery(shards: seq<Index>, q: Vector, search: ApproxSearch, metric: Metric): (r: Result<QueryOutcome, Error>)
    ensures r.Ok? ==> DistinctKeys(FanOut(ShardResults(shards, q, search, metric)))
    ensures AllValid(shards) ==> (r.Ok? <==> DistinctKeys(FanOut(ShardResults(shards, q, search, metric))))
    ensures r.Ok? ==> r.value.candidates == FanOut(ShardResults(shards, q, search, metric))
    ensures r.Ok? ==> |r.value.reranked| <= TOP_K && |r.value.groundTruth| <= TOP_K
    ensures r.Ok? ==> OriginsKnown(r.value.reranked, r.value.candidates)
    ensures r.Ok? ==> r.value.groundTruth == GroundTruth(shards, q, metric)
    ensures r.Ok? ==> 0.0 <= r.value.recall <= 1.0
    ensures r.Ok? ==> r.value.reranked == TopK(CandidateScores(shards, q, r.value.candidates, metric), TOP_K)
    ensures r.Ok? ==> UniqueKeys(r.value.reranked)
    ensures r.Ok? ==> (r.value.recall == 1.0 <==>
      |KeySet(r.value.groundTruth)| == TOP_K && KeySet(r.value.groundTruth) <= KeySet(r.value.reranked))
    ensures r.Ok? ==> (r.value.recall == 0.0 <==> KeySet(r.value.groundTruth) !! KeySet(r.value.reranked))
  {
    var cands := FanOut(ShardResults(shards, q, search, metric));
    assert Addressable(cands, shards);
    RunCandidates(shards, q, cands, metric)
  }

  /** A query once its candidates are collected: rerank them, then evaluate the
      reranked result against the ground truth. */
  function RunCandidates(shards: seq<Index>, q: Vector, cands: seq<Candidate>, metric: Metric)
    : (r: Result<QueryOutcome, Error>)
    requires Addressable(cands, shards)
    ensures r.Ok? ==> DistinctKeys(cands)
    ensures AllValid(shards) ==> (r.Ok? <==> DistinctKeys(cands))
    ensures r.Ok? ==> r.value.candidates == cands
    ensures r.Ok? ==> |r.value.reranked| <= TOP_K && |r.value.groundTruth| <= TOP_K
    ensures r.Ok? ==> OriginsKnown(r.value.reranked, cands)
    ensures r.Ok? ==> r.value.groundTruth == GroundTruth(shards, q, metric)
    ensures r.Ok? ==> 0.0 <= r.value.recall <= 1.0
    ensures r.Ok? ==> r.value.reranked == TopK(CandidateScores(shards, q, r.value.candidates, metric), TOP_K)
    ensures r.Ok? ==> UniqueKeys(r.value.reranked)
    ensures r.Ok? ==> (r.value.recall == 1.0 <==>
      |KeySet(r.value.groundTruth)| == TOP_K && KeySet(r.value.groundTruth) <= KeySet(r.value.reranked))
    ensures r.Ok? ==> (r.value.recall == 0.0 <==> KeySet(r.value.groundTruth) !! KeySet(r.value.reranked))
  {
    match Rerank(shards, q, cands, metric)
    case Err(e) => Err(e)
    case Ok(finalMatches) =>
      assert |finalMatches| <= TOP_K;
      Ok(Evaluate(shards, q, metric, cands, finalMatches))
  }

  /** The ground truth and recall of a reranked result: the recall, in
      `[0, 1]`, measures the reranked keys against the ground truth's. */
  function Evaluate(shards: seq<Index>, q: Vector, metric: Metric, cands: seq<Candidate>, finalMatches: seq<Match>)
    : (o: QueryOutcome)
    ensures o.candidates == cands && o.reranked == finalMatches
    ensures o.groundTruth == GroundTruth(shards, q, metric)
    ensures |o.groundTruth| <= TOP_K
    ensures 0.0 <= o.recall <= 1.0
    ensures o.recall == 1.0 <==> |KeySet(o.groundTruth)| == TOP_K && KeySet(o.groundTruth) <= KeySet(o.reranked)
    ensures o.recall == 0.0 <==> KeySet(o.groundTruth) !! KeySet(o.reranked)
  {
    var gt := GroundTruth(shards, q, metric);
    QueryOutcome(cands, finalMatches, gt, RecallAtK(gt, finalMatches))
  }

  /** On shards built with disjoint key ranges, and with an approximate search that
      keeps its contract, a query never fails: the candidates have distinct keys,
      there are at most `|shards| * CANDIDATES_PER_SHARD` of them, the origin
      reported for every reranked key is the shard that owns it, and the ground
      truth holds every key at most once. */
  lemma QuerySucceeds(shards: seq<Index>, q: Vector, search: ApproxSearch, metric: Metric)
    requires Partitioned(shards)
    requires HonoursContract(search, metric)
    ensures RunQuery(shards, q, search, metric).Ok?
    ensures |RunQuery(shards, q, search, metric).value.candidates| <= |shards| * CANDIDATES_PER_SHARD
    ensures var o := RunQuery(shards, q, search, metric).value;
            forall m :: m in o.reranked ==> FindOrigin(o.candidates, m.key) == Some(ShardOf(m.key))
    ensures UniqueKeys(RunQuery(shards, q, search, metric).value.groundTruth)
  {
    var results := ShardResults(shards, q, search, metric);
    FanOutFromDistinct(results, 0);
    FanOutBound(results, CANDIDATES_PER_SHARD);
    var o := RunQuery(shards, q, search, metric).value;
    forall m | m in o.reranked
      ensures FindOrigin(o.candidates, m.key) == Some(ShardOf(m.key))
    {
      FindOriginIsOwner(o.candidates, m.key);
    }
    GroundTruthUniqueKeys(shards, q, metric);
  }

  /** What the run reports: each query's recall, and their mean when there was at
      least one query. */
  datatype Report = Report(recalls: seq<real>, average: Option<real>)

  /** The recalls of the queries, in order, or the error of the first query that
      fails. It fails exactly when some query fails; otherwise it holds one recall
      per query, each that query's recall. */
  function CollectRecalls(queries: seq<Vector>, run: Vector -> Result<QueryOutcome, Error>)
    : (r: Result<seq<real>, Error>)
    ensures r.Err? <==> exists i :: 0 <= i < |queries| && run(queries[i]).Err?
    ensures r.Ok? ==> |r.value| == |queries|
    ensures r.Ok? ==> forall i :: 0 <= i < |queries| ==> r.value[i] == run(queries[i]).value.recall
    decreases |queries|
  {
    if |queries| == 0 then Ok([])
    else
      var n := |queries| - 1;
      var init := queries[..n];
      assert forall i :: 0 <= i < n ==> init[i] == queries[i];
      match CollectRecalls(init, run)
      case Err(e) => Err(e)
      case Ok(rs) =>
        match run(queries[n])
        case Err(e) => Err(e)
        case Ok(o) => Ok(rs + [o.recall])
  }

  /** The whole query loop as one function of the queries: it fails exactly when
      some query fails, and otherwise reports each query's own recall, in order. */
  function RunAll(shards: seq<Index>, queries: seq<Vector>, search: ApproxSearch, metric: Metric)
    : (r: Result<seq<real>, Error>)
    ensures r.Err? <==> exists i :: 0 <= i < |queries| && RunQuery(shards, queries[i], search, metric).Err?
    ensures r.Ok? ==> |r.value| == |queries|
    ensures r.Ok? ==> forall i :: 0 <= i < |queries| ==> r.value[i] == RunQuery(shards, queries[i], search, metric).value.recall
  {
    CollectRecalls(queries, q => RunQuery(shards, q, search, metric))
  }

  /** Every recall the run reports lies in `[0, 1]`. */
  lemma RunAllRecallBounds(shards: seq<Index>, queries: seq<Vector>, search: ApproxSearch, metric: Metric)
    requires RunAll(shards, queries, search, metric).Ok?
    ensures AllUnit(RunAll(shards, queries, search, metric).value)
  {
    var run := q => RunQuery(shards, q, search, metric);
    forall i | 0 <= i < |queries|
      ensures 0.0 <= RunAll(shards, queries, search, metric).value[i] <= 1.0
    {
      assert run(queries[i]).Ok?;
    }
  }

  /** The body of the query loop, for any per-query step: it runs the queries in
      order, keeping the recalls and their running sum, and stops at the first
      failure. */
  method QueryLoop(queries: seq<Vector>, run: Vector -> Result<QueryOutcome, Error>)
    returns (r: Result<seq<real>, Error>, recallSum: real)
    ensures r == CollectRecalls(queries, run)
    ensures r.Ok? ==> recallSum == Sum(r.value)
  {
    var recalls: seq<real> := [];
    recallSum := 0.0;
    var numQueries := 0;
    while numQueries < |queries|
      invariant 0 <= numQueries <= |queries|
      invariant CollectRecalls(queries[..numQueries], run) == Ok(recalls)
      invariant recallSum == Sum(recalls)
    {
      var outcome := run(queries[numQueries]);
      assert queries[..numQueries + 1][..numQueries] == queries[..numQueries];
      if outcome.Err? {
        PrefixFailure(queries, numQueries + 1, run);
        return Err(outcome.error), recallSum;
      }
      recalls := recalls + [outcome.value.recall];
      recallSum := recallSum + outcome.value.recall;
      numQueries := numQueries + 1;
    }
    assert queries[..numQueries] == queries;
    return Ok(recalls), recallSum;
  }

  /** `distributed_search_with_reranking` over the test-vector file: the recalls of
      `RunAll` over the decoded queries, or its error; with the mean recall,
      present exactly when there was a query and within `[0, 1]`. */
  method DistributedSearch(shards: seq<Index>, testFile: seq<byte>, search: ApproxSearch, metric: Metric)
    returns (r: Result<Report, Error>)
    ensures r.Err? <==> RunAll(shards, Decode(testFile), search, metric).Err?
    ensures r.Ok? ==> r.value.recalls == RunAll(shards, Decode(testFile), search, metric).value
    ensures r.Ok? ==> r.value.average == Mean(r.value.recalls)
    ensures r.Ok? ==> (r.value.average.Some? <==> |Decode(testFile)| > 0)
    ensures r.Ok? && r.value.average.Some? ==> 0.0 <= r.value.average.value <= 1.0
  {
    var queries := LoadTestVectors(testFile);
    var collected, recallSum := QueryLoop(queries, q => RunQuery(shards, q, search, metric));
    if collected.Err? {
      return Err(collected.error);
    }
    var recalls := collected.value;
    var numQueries := |recalls|;
    var average: Option<real> := None;
    if numQueries > 0 {
      average := Some(recallSum / numQueries as real);
      RunAllRecallBounds(shards, queries, search, metric);
      MeanBounds(recalls);
    }
    return Ok(Report(recalls, average));
  }

  /** A failure among the first `n` queries is the failure of the whole run. */
  lemma {:induction false} PrefixFailure(queries: seq<Vector>, n: nat, run: Vector -> Result<QueryOutcome, Error>)
    requires n <= |queries|
    requires CollectRecalls(queries[..n], run).Err?
    ensures CollectRecalls(queries, run) == CollectRecalls(queries[..n], run)
    decreases |queries| - n
  {
    if n < |queries| {
      var m := |queries| - 1;
      assert queries[..m][..n] == queries[..n];
      PrefixFailure(queries[..m], n, run);
    } else {
      assert queries[..n] == queries;
    }
  }

  /** On partitioned shards with a contract-keeping approximate search, the whole
      run succeeds. */
  lemma RunSucceeds(shards: seq<Index>, testFile: seq<byte>, search: ApproxSearch, metric: Metric)
    requires Partitioned(shards)
    requires HonoursContract(search, metric)
    ensures RunAll(shards, Decode(testFile), search, metric).Ok?
  {
    var queries := Decode(testFile);
    var run := q => RunQuery(shards, q, search, metric);
    forall i | 0 <= i < |queries|
      ensures run(queries[i]).Ok?
    {
      QuerySucceeds(shards, queries[i], search, metric);
    }
  }
}
