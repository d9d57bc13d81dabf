/** Per-query coordination: fanning the query out to every shard, and reranking
    the pooled candidates exactly in a throw-away flat index. */
module Search {
  import opened Wrappers
  import opened Config
  import opened Seqs
  import opened Floats
  import opened Ranking
  import opened Engine
  import opened Sharding

  /** A candidate key and the index of the shard that returned it. */
  datatype Candidate = Candidate(key: Key, shard: nat)

  /** The keys tagged with shard `shard`, in candidate order. */
  function KeysOf(cands: seq<Candidate>, shard: nat): seq<Key>
  {
    if |cands| == 0 then []
    else (if cands[0].shard == shard then [cands[0].key] else []) + KeysOf(cands[1..], shard)
  }

  lemma {:induction false} KeysOfAppend(a: seq<Candidate>, b: seq<Candidate>, shard: nat)
    ensures KeysOf(a + b, shard) == KeysOf(a, shard) + KeysOf(b, shard)
    decreases |a|
  {
    if |a| == 0 {
      assert a + b == b;
    } else {
      var ab := a + b;
      assert ab[0] == a[0];
      assert ab[1..] == a[1..] + b;
      KeysOfAppend(a[1..], b, shard);
      var h := if a[0].shard == shard then [a[0].key] else [];
      assert KeysOf(ab, shard) == h + KeysOf(a[1..] + b, shard);
      assert KeysOf(a, shard) == h + KeysOf(a[1..], shard);
    }
  }

  /** Candidates none of which is tagged `shard` contribute no keys to it. */
  lemma {:induction false} KeysOfAbsent(cands: seq<Candidate>, shard: nat)
    requires forall i :: 0 <= i < |cands| ==> cands[i].shard != shard
    ensures KeysOf(cands, shard) == []
    decreases |cands|
  {
    if |cands| > 0 {
      KeysOfAbsent(cands[1..], shard);
    }
  }

  /** Every key of one shard's result, tagged with that shard. */
  function Tag(keys: seq<Key>, shard: nat): seq<Candidate>
  {
    seq(|keys|, i requires 0 <= i < |keys| => Candidate(keys[i], shard))
  }

  lemma {:induction false} KeysOfTag(keys: seq<Key>, shard: nat)
    ensures KeysOf(Tag(keys, shard), shard) == keys
    decreases |keys|
  {
    if |keys| > 0 {
      KeysOfTag(keys[1..], shard);
      assert Tag(keys, shard)[1..] == Tag(keys[1..], shard);
    }
  }

  /** Every candidate is tagged with a shard in `[lo, hi)`. */
  predicate TagsIn(cands: seq<Candidate>, lo: nat, hi: nat)
  {
    forall i :: 0 <= i < |cands| ==> lo <= cands[i].shard < hi
  }

  /** Candidates appear in shard order. */
  predicate TagsSorted(cands: seq<Candidate>)
  {
    forall i, j :: 0 <= i < j < |cands| ==> cands[i].shard <= cands[j].shard
  }

  /** A candidate list in shard order, tagged only with shards `first ..`, whose
      keys per shard are that shard's result. */
  predicate FanOutShaped(results: seq<seq<Key>>, first: nat, cands: seq<Candidate>)
  {
    && TagsIn(cands, first, first + |results|)
    && TagsSorted(cands)
    && (forall s :: 0 <= s < |results| ==> KeysOf(cands, first + s) == results[s])
  }

  /** The fan-out of `results`, whose first element is shard `first`'s result. */
  function FanOutFrom(results: seq<seq<Key>>, first: nat): (r: seq<Candidate>)
    ensures |r| == TotalLength(results)
    decreases |results|
  {
    if |results| == 0 then []
    else Tag(results[0], first) + FanOutFrom(results[1..], first + 1)
  }

  /** Every tag of `FanOutFrom` names one of its shards, in nondecreasing order. */
  lemma {:induction false} FanOutFromTags(results: seq<seq<Key>>, first: nat)
    ensures TagsIn(FanOutFrom(results, first), first, first + |results|)
    ensures TagsSorted(FanOutFrom(results, first))
    decreases |results|
  {
    if |results| > 0 {
      var head := Tag(results[0], first);
      var rest := FanOutFrom(results[1..], first + 1);
      FanOutFromTags(results[1..], first + 1);
      var r := head + rest;
      assert r == FanOutFrom(results, first);
      forall i | 0 <= i < |r| ensures first <= r[i].shard < first + |results| {
        if i >= |head| {
          assert r[i] == rest[i - |head|];
        } else {
          assert r[i] == head[i];
        }
      }
      forall i, j | 0 <= i < j < |r| ensures r[i].shard <= r[j].shard {
        if j >= |head| {
          assert r[j] == rest[j - |head|];
          if i >= |head| {
            assert r[i] == rest[i - |head|];
          } else {
            assert r[i] == head[i];
          }
        } else {
          assert r[i] == head[i] && r[j] == head[j];
        }
      }
    }
  }

  /** The keys `FanOutFrom` tags with shard `first + s` are the result `results[s]`. */
  lemma {:induction false} FanOutFromKeys(results: seq<seq<Key>>, first: nat, s: nat)
    requires s < |results|
    ensures KeysOf(FanOutFrom(results, first), first + s) == results[s]
    decreases |results|
  {
    var head := Tag(results[0], first);
    var rest := FanOutFrom(results[1..], first + 1);
    assert FanOutFrom(results, first) == head + rest;
    KeysOfAppend(head, rest, first + s);
    if s == 0 {
      KeysOfTag(results[0], first);
      FanOutFromTags(results[1..], first + 1);
      forall i | 0 <= i < |rest| ensures rest[i].shard != first {
        assert first + 1 <= rest[i].shard;
      }
      KeysOfAbsent(rest, first);
    } else {
      KeysOfAbsent(head, first + s);
      FanOutFromKeys(results[1..], first + 1, s - 1);
      assert (first + 1) + (s - 1) == first + s;
    }
  }

  /** `FanOutFrom` has the fan-out shape. */
  lemma FanOutFromShaped(results: seq<seq<Key>>, first: nat)
    ensures FanOutShaped(results, first, FanOutFrom(results, first))
  {
    FanOutFromTags(results, first);
    forall s | 0 <= s < |results|
      ensures KeysOf(FanOutFrom(results, first), first + s) == results[s]
    {
      FanOutFromKeys(results, first, s);
    }
  }

  /** Candidate collection: each shard's result keys, tagged with the shard's
      index, concatenated in shard order. Candidates are in shard order, every
      tag names a shard, and the keys tagged `s` are exactly shard `s`'s
      result, in its order. */
  function FanOut(results: seq<seq<Key>>): (r: seq<Candidate>)
    ensures |r| == TotalLength(results)
    ensures TagsIn(r, 0, |results|)
    ensures TagsSorted(r)
    ensures forall s :: 0 <= s < |results| ==> KeysOf(r, s) == results[s]
  {
    FanOutFromShaped(results, 0);
    FanOutFrom(results, 0)
  }

  /** A candidate list with no key tagged `shard` has no candidate tagged `shard`. */
  lemma {:induction false} KeysOfEmpty(cands: seq<Candidate>, shard: nat, i: nat)
    requires KeysOf(cands, shard) == []
    requires i < |cands|
    ensures cands[i].shard != shard
    decreases i
  {
    if cands[0].shard != shard && i > 0 {
      KeysOfEmpty(cands[1..], shard, i - 1);
    }
  }

  /** A non-empty list whose shard tags all lie in `[lo, hi)` needs that range non-empty. */
  lemma ShardRangeNonEmpty(lo: nat, hi: nat, cands: seq<Candidate>)
    requires forall i :: 0 <= i < |cands| ==> lo <= cands[i].shard < hi
    ensures |cands| > 0 ==> lo < hi
  {
    if |cands| > 0 {
      assert lo <= cands[0].shard < hi;
    }
  }

  /** The fan-out contract determines the fan-out: the only list of that shape is
      `FanOutFrom(results, first)`. */
  lemma {:induction false} FanOutFromUnique(results: seq<seq<Key>>, first: nat, cands: seq<Candidate>)
    requires FanOutShaped(results, first, cands)
    ensures cands == FanOutFrom(results, first)
    decreases |cands| + |results|, 1
  {
    if |results| == 0 {
      ShardRangeNonEmpty(first, first, cands);
    } else if |results[0]| == 0 {
      UniqueEmptyHead(results, first, cands);
    } else {
      UniqueNonEmptyHead(results, first, cands);
    }
  }

  lemma {:induction false} UniqueEmptyHead(results: seq<seq<Key>>, first: nat, cands: seq<Candidate>)
    requires FanOutShaped(results, first, cands)
    requires |results| > 0 && |results[0]| == 0
    ensures cands == FanOutFrom(results, first)
    decreases |cands| + |results|, 0
  {
    forall i | 0 <= i < |cands| ensures cands[i].shard != first {
      KeysOfEmpty(cands, first, i);
    }
    forall s | 0 <= s < |results[1..]| ensures KeysOf(cands, first + 1 + s) == results[1..][s] {
      assert KeysOf(cands, first + (s + 1)) == results[s + 1];
    }
    FanOutFromUnique(results[1..], first + 1, cands);
    assert Tag(results[0], first) == [];
  }

  /** Some candidate carries every shard that has a key. */
  lemma {:induction false} KeysOfWitness(cands: seq<Candidate>, shard: nat) returns (i: nat)
    requires KeysOf(cands, shard) != []
    ensures i < |cands| && cands[i].shard == shard
    decreases |cands|
  {
    if cands[0].shard == shard {
      i := 0;
    } else {
      var j := KeysOfWitness(cands[1..], shard);
      i := j + 1;
    }
  }

  /** When shard `first` has keys, the shaped list starts with one of them. */
  lemma HeadIsFirst(results: seq<seq<Key>>, first: nat, cands: seq<Candidate>)
    requires FanOutShaped(results, first, cands)
    requires |results| > 0 && |results[0]| > 0
    ensures |cands| > 0 && cands[0] == Candidate(results[0][0], first)
  {
    assert KeysOf(cands, first + 0) == results[0];
    var i := KeysOfWitness(cands, first);
    assert cands[0].shard <= cands[i].shard;
    assert KeysOf(cands, first) == [cands[0].key] + KeysOf(cands[1..], first);
  }

  lemma {:induction false} UniqueNonEmptyHead(results: seq<seq<Key>>, first: nat, cands: seq<Candidate>)
    requires FanOutShaped(results, first, cands)
    requires |results| > 0 && |results[0]| > 0
    ensures cands == FanOutFrom(results, first)
    decreases |cands| + |results|, 0
  {
    HeadIsFirst(results, first, cands);
    RestShaped(results, first, cands);
    FanOutFromUnique([results[0][1..]] + results[1..], first, cands[1..]);
    FanOutFromCons(results, first);
    assert cands == [cands[0]] + cands[1..];
  }

  /** The fan-out starts with the head shard's first key, followed by the
      fan-out of what is left. */
  lemma FanOutFromCons(results: seq<seq<Key>>, first: nat)
    requires |results| > 0 && |results[0]| > 0
    ensures FanOutFrom(results, first)
         == [Candidate(results[0][0], first)] + FanOutFrom([results[0][1..]] + results[1..], first)
  {
    var results' := [results[0][1..]] + results[1..];
    assert results'[1..] == results[1..];
    var tail := FanOutFrom(results[1..], first + 1);
    assert FanOutFrom(results', first) == Tag(results[0][1..], first) + tail;
    assert Tag(results[0], first) == [Candidate(results[0][0], first)] + Tag(results[0][1..], first);
  }

  /** Dropping the head candidate leaves a list shaped after the head shard's remaining keys. */
  lemma RestShaped(results: seq<seq<Key>>, first: nat, cands: seq<Candidate>)
    requires FanOutShaped(results, first, cands)
    requires |results| > 0 && |cands| > 0 && cands[0].shard == first
    ensures FanOutShaped([results[0][1..]] + results[1..], first, cands[1..])
  {
    var results' := [results[0][1..]] + results[1..];
    forall s | 0 <= s < |results'| ensures KeysOf(cands[1..], first + s) == results'[s] {
      RestKeys(results, first, cands, s);
    }
  }

  lemma RestKeys(results: seq<seq<Key>>, first: nat, cands: seq<Candidate>, s: nat)
    requires FanOutShaped(results, first, cands)
    requires |results| > 0 && |cands| > 0 && cands[0].shard == first
    requires s < |results|
    ensures KeysOf(cands[1..], first + s) == ([results[0][1..]] + results[1..])[s]
  {
    assert KeysOf(cands, first + s) == results[s];
    assert KeysOf(cands, first + s) == (if s == 0 then [cands[0].key] else []) + KeysOf(cands[1..], first + s);
  }

  /** `FanOut` is the only candidate list meeting its contract. */
  lemma FanOutUnique(results: seq<seq<Key>>, cands: seq<Candidate>)
    requires TagsIn(cands, 0, |results|)
    requires TagsSorted(cands)
    requires forall s :: 0 <= s < |results| ==> KeysOf(cands, s) == results[s]
    ensures cands == FanOut(results)
  {
    assert FanOutShaped(results, 0, cands) by {
      forall s | 0 <= s < |results| ensures KeysOf(cands, 0 + s) == results[s] {
      }
    }
    FanOutFromUnique(results, 0, cands);
  }

  /** When every shard returns at most `k` keys, there are at most
      `|results| * k` candidates. */
  lemma FanOutBound(results: seq<seq<Key>>, k: nat)
    requires forall s :: 0 <= s < |results| ==> |results[s]| <= k
    ensures |FanOut(results)| <= |results| * k
  {
    TotalLengthBound(results, k);
  }

  predicate DistinctKeys(cands: seq<Candidate>)
  {
    forall i, j :: 0 <= i < j < |cands| ==> cands[i].key != cands[j].key
  }

  /** When every shard's result has distinct keys from that shard's own key range,
      the fan-out has distinct keys, and each candidate's tag is its key's shard. */
  lemma {:induction false} FanOutFromDistinct(results: seq<seq<Key>>, first: nat)
    requires forall s, i, j :: 0 <= s < |results| && 0 <= i < j < |results[s]| ==> results[s][i] != results[s][j]
    requires forall s, i :: 0 <= s < |results| && 0 <= i < |results[s]| ==> ShardOf(results[s][i]) == first + s
    ensures DistinctKeys(FanOutFrom(results, first))
    ensures forall c :: c in FanOutFrom(results, first) ==> ShardOf(c.key) == c.shard
    decreases |results|
  {
    if |results| > 0 {
      var head := Tag(results[0], first);
      var rest := FanOutFrom(results[1..], first + 1);
      FanOutFromDistinct(results[1..], first + 1);
      FanOutFromShaped(results[1..], first + 1);
      var r := head + rest;
      assert r == FanOutFrom(results, first);
      forall i, j | 0 <= i < j < |r|
        ensures r[i].key != r[j].key
      {
        if j < |head| {
          assert r[i].key == results[0][i] && r[j].key == results[0][j];
        } else if i < |head| {
          assert ShardOf(r[i].key) == first;
          assert r[j] in rest;
        } else {
          assert r[i] == rest[i - |head|] && r[j] == rest[j - |head|];
        }
      }
      forall c | c in r
        ensures ShardOf(c.key) == c.shard
      {
        if c !in rest {
          var i :| 0 <= i < |head| && head[i] == c;
        }
      }
    }
  }

  /** Candidate tags all name existing shards. */
  predicate Addressable(cands: seq<Candidate>, shards: seq<Index>)
  {
    forall i :: 0 <= i < |cands| ==> cands[i].shard < |shards|
  }

  predicate AllValid(shards: seq<Index>)
  {
    forall s :: 0 <= s < |shards| ==> Valid(shards[s])
  }

  /** Each candidate with its true vector, fetched from the shard that returned it. */
  function CandidateEntries(shards: seq<Index>, cands: seq<Candidate>): seq<Entry>
    requires Addressable(cands, shards)
  {
    seq(|cands|, i requires 0 <= i < |cands| => Entry(cands[i].key, Fetch(shards[cands[i].shard], cands[i].key)))
  }

  /** Each candidate with its true distance to the query. */
  function CandidateScores(shards: seq<Index>, q: Vector, cands: seq<Candidate>, metric: Metric): seq<Match>
    requires Addressable(cands, shards)
  {
    seq(|cands|, i requires 0 <= i < |cands| => Match(cands[i].key, metric(q, Fetch(shards[cands[i].shard], cands[i].key))))
  }

  /** Building the flat rerank index: every candidate's vector is fetched from its
      shard and added under its key, in candidate order. It succeeds only when the
      candidate keys are distinct; on valid shards it fails exactly when a key
      repeats. */
  function BuildRerankIndex(shards: seq<Index>, cands: seq<Candidate>): (r: Result<Index, Error>)
    requires Addressable(cands, shards)
    ensures r.Ok? ==> DistinctKeys(cands)
    ensures AllValid(shards) ==> (r.Ok? <==> DistinctKeys(cands))
    ensures AllValid(shards) && r.Err? ==> r.error == DuplicateKey
    ensures r.Ok? ==> r.value.entries == CandidateEntries(shards, cands) && Valid(r.value)
    decreases |cands|
  {
    if |cands| == 0 then Ok(Empty)
    else
      var n := |cands| - 1;
      var init := cands[..n];
      var c := cands[n];
      match BuildRerankIndex(shards, init)
      case Err(e) =>
        DistinctKeysPrefix(cands);
        Err(e)
      case Ok(idx) =>
        CandidateEntriesSnoc(shards, cands);
        LastKeyFresh(cands, idx);
        assert AllValid(shards) ==> Valid(shards[c.shard]);
        Add(idx, c.key, Fetch(shards[c.shard], c.key))
  }

  lemma DistinctKeysPrefix(cands: seq<Candidate>)
    requires |cands| > 0
    ensures DistinctKeys(cands) ==> DistinctKeys(cands[..|cands| - 1])
  {
    var init := cands[..|cands| - 1];
    if DistinctKeys(cands) {
      forall i, j | 0 <= i < j < |init| ensures init[i].key != init[j].key {
        assert init[i] == cands[i] && init[j] == cands[j];
      }
    }
  }

  lemma CandidateEntriesSnoc(shards: seq<Index>, cands: seq<Candidate>)
    requires Addressable(cands, shards) && |cands| > 0
    ensures var c := cands[|cands| - 1];
      CandidateEntries(shards, cands)
      == CandidateEntries(shards, cands[..|cands| - 1]) + [Entry(c.key, Fetch(shards[c.shard], c.key))]
  {
  }

  /** With the first `n` candidates already in the index, the last candidate's key
      is new exactly when all candidate keys are distinct. */
  lemma LastKeyFresh(cands: seq<Candidate>, idx: Index)
    requires |cands| > 0
    requires DistinctKeys(cands[..|cands| - 1])
    requires |idx.entries| == |cands| - 1
    requires forall i :: 0 <= i < |idx.entries| ==> idx.entries[i].key == cands[i].key
    ensures cands[|cands| - 1].key !in Keys(idx) <==> DistinctKeys(cands)
  {
    var n := |cands| - 1;
    var c := cands[n];
    if DistinctKeys(cands) {
      forall x | x in Keys(idx) ensures x != c.key {
        var i :| 0 <= i < n && idx.entries[i].key == x;
      }
    } else if c.key !in Keys(idx) {
      forall i | 0 <= i < n ensures cands[i].key != c.key {
        assert idx.entries[i].key in Keys(idx);
      }
      forall i, j | 0 <= i < j < |cands| ensures cands[i].key != cands[j].key {
        if j < n {
          assert cands[..n][i] == cands[i] && cands[..n][j] == cands[j];
        }
      }
    }
  }

  /** The rerank step: exact search for the `TOP_K` closest among the candidates.
      On valid shards it fails exactly when a candidate key repeats. When it
      succeeds the result is the exact top-`TOP_K` of the candidates by true
      distance, every key it returns is a candidate key (so the origin lookup that
      follows always succeeds), and it holds at most `TOP_K` matches. */
  function Rerank(shards: seq<Index>, q: Vector, cands: seq<Candidate>, metric: Metric): (r: Result<seq<Match>, Error>)
    requires Addressable(cands, shards)
    ensures r.Ok? ==> DistinctKeys(cands)
    ensures AllValid(shards) ==> (r.Ok? <==> DistinctKeys(cands))
    ensures AllValid(shards) && r.Err? ==> r.error == DuplicateKey
    ensures r.Ok? ==> r.value == TopK(CandidateScores(shards, q, cands, metric), TOP_K)
    ensures r.Ok? ==> |r.value| == if TOP_K < |cands| then TOP_K else |cands|
    ensures r.Ok? ==> OriginsKnown(r.value, cands)
    ensures r.Ok? ==> UniqueKeys(r.value)
  {
    match BuildRerankIndex(shards, cands)
    case Err(e) => Err(e)
    case Ok(idx) =>
      RerankFound(shards, q, cands, metric, idx);
      ExactSearchUniqueKeys(idx, q, TOP_K, metric);
      Ok(ExactSearch(idx, q, TOP_K, metric))
  }

  /** Exact search in the rerank index ranks the candidates by true distance and
      returns only candidate keys. */
  lemma RerankFound(shards: seq<Index>, q: Vector, cands: seq<Candidate>, metric: Metric, idx: Index)
    requires Addressable(cands, shards)
    requires BuildRerankIndex(shards, cands) == Ok(idx)
    ensures ExactSearch(idx, q, TOP_K, metric) == TopK(CandidateScores(shards, q, cands, metric), TOP_K)
    ensures OriginsKnown(ExactSearch(idx, q, TOP_K, metric), cands)
  {
    ScoreOfCandidates(shards, q, cands, metric, idx);
    OriginsOfStored(shards, cands, idx, ExactSearch(idx, q, TOP_K, metric));
  }

  lemma ScoreOfCandidates(shards: seq<Index>, q: Vector, cands: seq<Candidate>, metric: Metric, idx: Index)
    requires Addressable(cands, shards)
    requires idx.entries == CandidateEntries(shards, cands)
    ensures Score(idx, q, metric) == CandidateScores(shards, q, cands, metric)
  {
  }

  /** Stored keys of the rerank index are candidate keys. */
  lemma OriginsOfStored(shards: seq<Index>, cands: seq<Candidate>, idx: Index, found: seq<Match>)
    requires Addressable(cands, shards)
    requires idx.entries == CandidateEntries(shards, cands)
    requires forall m :: m in found ==> m.key in Keys(idx)
    ensures OriginsKnown(found, cands)
  {
    forall m | m in found
      ensures FindOrigin(cands, m.key).Some?
    {
      var i :| 0 <= i < |idx.entries| && idx.entries[i].key == m.key;
      assert cands[i].key == m.key;
    }
  }

  /** Every match's key is among the candidates, so looking up its origin
      cannot fail. */
  predicate OriginsKnown(found: seq<Match>, cands: seq<Candidate>)
  {
    forall m :: m in found ==> FindOrigin(cands, m.key).Some?
  }

  /** The shard a key came from: the tag of its first occurrence among the
      candidates, if any. */
  function FindOrigin(cands: seq<Candidate>, key: Key): (r: Option<nat>)
    ensures r.Some? <==> exists i :: 0 <= i < |cands| && cands[i].key == key
    ensures r.Some? ==> exists i :: 0 <= i < |cands| && cands[i] == Candidate(key, r.value)
                                 && forall j :: 0 <= j < i ==> cands[j].key != key
  {
    if |cands| == 0 then None
    else if cands[0].key == key then Some(cands[0].shard)
    else
      var r := FindOrigin(cands[1..], key);
      assert forall i :: 1 <= i < |cands| ==> cands[i] == cands[1..][i - 1];
      if r.Some? then
        var i :| 0 <= i < |cands[1..]| && cands[1..][i] == Candidate(key, r.value)
                 && forall j :: 0 <= j < i ==> cands[1..][j].key != key;
        assert cands[i + 1] == Candidate(key, r.value);
        r
      else r
  }

  /** When every candidate's tag is its key's shard, the origin lookup reports the
      shard that owns the key. */
  lemma FindOriginIsOwner(cands: seq<Candidate>, key: Key)
    requires forall c :: c in cands ==> ShardOf(c.key) == c.shard
    requires exists i :: 0 <= i < |cands| && cands[i].key == key
    ensures FindOrigin(cands, key) == Some(ShardOf(key))
  {
    var i :| 0 <= i < |cands| && cands[i] == Candidate(key, FindOrigin(cands, key).value);
    assert cands[i] in cands;
  }
}
