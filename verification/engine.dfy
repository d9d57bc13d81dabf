/** The ANN index engine, seen only through the capabilities the driver uses.
    An index is its stored (key, vector) entries in insertion order; exact search
    is defined, approximate search is left to the caller as an arbitrary
    function constrained by `ValidApprox`. */
module Engine {
  import opened Wrappers
  import opened Config
  import opened Floats
  import opened Ranking
  import opened Seqs

  /** The engine failures the model keeps: a vector of the wrong dimension, and a
      key already stored. */
  datatype Error = DimensionMismatch | DuplicateKey

  datatype Entry = Entry(key: Key, vec: Vector)

  /** A single-valued (`multi: false`) index of `DIMS`-wide vectors. */
  datatype Index = Index(entries: seq<Entry>)

  /** Distance from a query to a stored vector; lower is closer. */
  type Metric = (Vector, Vector) -> int

  const Empty: Index := Index([])

  function Size(idx: Index): nat
  {
    |idx.entries|
  }

  function Keys(idx: Index): set<Key>
  {
    set i | 0 <= i < |idx.entries| :: idx.entries[i].key
  }

  /** The engine's representation invariant: every stored vector has the index's
      dimension, and no key is stored twice. */
  predicate Valid(idx: Index)
  {
    && (forall i :: 0 <= i < |idx.entries| ==> |idx.entries[i].vec| == DIMS)
    && (forall i, j :: 0 <= i < j < |idx.entries| ==> idx.entries[i].key != idx.entries[j].key)
  }

  /** `index.add(key, vector)`: appends the entry, or fails on a vector of the
      wrong dimension or a key already present. */
  function Add(idx: Index, key: Key, vec: Vector): (r: Result<Index, Error>)
    ensures r.Ok? <==> |vec| == DIMS && key !in Keys(idx)
    ensures r.Err? && |vec| != DIMS ==> r.error == DimensionMismatch
    ensures r.Ok? ==> r.value.entries == idx.entries + [Entry(key, vec)]
    ensures r.Ok? ==> Keys(r.value) == Keys(idx) + {key}
    ensures r.Ok? && Valid(idx) ==> Valid(r.value)
  {
    if |vec| != DIMS then Err(DimensionMismatch)
    else if key in Keys(idx) then Err(DuplicateKey)
    else
      var r := Index(idx.entries + [Entry(key, vec)]);
      assert r.entries[|idx.entries|].key == key;
      assert forall i :: 0 <= i < |idx.entries| ==> r.entries[i] == idx.entries[i];
      assert Keys(r) <= Keys(idx) + {key} by {
        forall x | x in Keys(r) ensures x in Keys(idx) + {key} {
          var i :| 0 <= i < |r.entries| && r.entries[i].key == x;
          if i < |idx.entries| {
            assert idx.entries[i].key == x;
          }
        }
      }
      assert Keys(idx) + {key} <= Keys(r) by {
        forall x | x in Keys(idx) ensures x in Keys(r) {
          var i :| 0 <= i < |idx.entries| && idx.entries[i].key == x;
          assert r.entries[i].key == x;
        }
      }
      Ok(r)
  }

  /** The vector stored under `key` (the first, should there be several). */
  function Lookup(entries: seq<Entry>, key: Key): (r: Option<Vector>)
    ensures r.Some? <==> exists i :: 0 <= i < |entries| && entries[i].key == key
    ensures r.Some? ==> exists i :: 0 <= i < |entries| && entries[i] == Entry(key, r.value)
  {
    if |entries| == 0 then None
    else if entries[0].key == key then Some(entries[0].vec)
    else
      var r := Lookup(entries[1..], key);
      assert forall i :: 1 <= i < |entries| ==> entries[i] == entries[1..][i - 1];
      r
  }

  /** In a valid index, looking up a stored key finds the vector stored with it. */
  lemma {:induction false} LookupStored(entries: seq<Entry>, i: nat)
    requires i < |entries|
    requires forall a, b :: 0 <= a < b < |entries| ==> entries[a].key != entries[b].key
    ensures Lookup(entries, entries[i].key) == Some(entries[i].vec)
    decreases i
  {
    if i > 0 {
      LookupStored(entries[1..], i - 1);
    }
  }

  /** `get(key, &mut buffer)` into a buffer of `DIMS` zeros: the stored vector, or
      the untouched zero buffer when the key is absent. */
  function Fetch(idx: Index, key: Key): (v: Vector)
    ensures Valid(idx) ==> |v| == DIMS
    ensures key !in Keys(idx) ==> v == ZeroVector()
  {
    match Lookup(idx.entries, key)
    case Some(v) =>
      assert key in Keys(idx);
      v
    case None => ZeroVector()
  }

  /** In a valid index, fetching a stored key returns the vector stored with it. */
  lemma FetchStored(idx: Index, i: nat)
    requires Valid(idx) && i < |idx.entries|
    ensures Fetch(idx, idx.entries[i].key) == idx.entries[i].vec
  {
    LookupStored(idx.entries, i);
  }

  /** Every stored entry scored against the query, in insertion order. */
  function Score(idx: Index, q: Vector, metric: Metric): (r: seq<Match>)
    ensures |r| == Size(idx)
  {
    seq(|idx.entries|, i requires 0 <= i < |idx.entries| => Match(idx.entries[i].key, metric(q, idx.entries[i].vec)))
  }

  /** `exact_search(query, k)`: brute force over every stored vector; the `k`
      closest, ascending, ties in insertion order. */
  function ExactSearch(idx: Index, q: Vector, k: nat, metric: Metric): (r: seq<Match>)
    ensures |r| == if k < Size(idx) then k else Size(idx)
    ensures Sorted(r)
    ensures multiset(r) <= multiset(Score(idx, q, metric))
    ensures forall m :: m in r ==> m.key in Keys(idx)
    ensures Valid(idx) ==> forall m :: m in r ==> m.dist == metric(q, Fetch(idx, m.key))
    ensures forall m, x :: m in multiset(Score(idx, q, metric)) - multiset(r) && x in r ==> x.dist <= m.dist
  {
    ScoreMembers(idx, q, metric, TopK(Score(idx, q, metric), k));
    TopK(Score(idx, q, metric), k)
  }

  /** Any sub-multiset of the scores names stored keys, at their true distances. */
  lemma ScoreMembers(idx: Index, q: Vector, metric: Metric, r: seq<Match>)
    requires multiset(r) <= multiset(Score(idx, q, metric))
    ensures forall m :: m in r ==> m.key in Keys(idx)
    ensures Valid(idx) ==> forall m :: m in r ==> m.dist == metric(q, Fetch(idx, m.key))
  {
    var pool := Score(idx, q, metric);
    forall m | m in r
      ensures m.key in Keys(idx)
      ensures Valid(idx) ==> m.dist == metric(q, Fetch(idx, m.key))
    {
      assert m in multiset(pool);
      var i :| 0 <= i < |pool| && pool[i] == m;
      if Valid(idx) {
        FetchStored(idx, i);
      }
    }
  }

  /** The keys of a result, in order (`matches.keys`). */
  function MatchKeys(ms: seq<Match>): seq<Key>
  {
    seq(|ms|, i requires 0 <= i < |ms| => ms[i].key)
  }

  /** Exact search meets the contract assumed of approximate search: on a valid
      index its keys are at most `k` distinct stored keys in ascending distance.
      The assumption is therefore one a real search can keep. */
  lemma ExactSearchIsValidApprox(idx: Index, q: Vector, k: nat, metric: Metric)
    requires Valid(idx)
    ensures ValidApprox(idx, q, k, metric, MatchKeys(ExactSearch(idx, q, k, metric)))
  {
    var r := ExactSearch(idx, q, k, metric);
    assert UniqueKeys(Score(idx, q, metric));
    SubScoreIsValidApprox(idx, q, k, metric, r, Score(idx, q, metric));
  }

  /** Matches drawn from a pool with distinct keys, sorted, at their true
      distances, name at most `k` distinct stored keys in ascending distance. */
  lemma SubScoreIsValidApprox(idx: Index, q: Vector, k: nat, metric: Metric, r: seq<Match>, pool: seq<Match>)
    requires |r| <= k && Sorted(r)
    requires multiset(r) <= multiset(pool)
    requires UniqueKeys(pool)
    requires forall m :: m in r ==> m.key in Keys(idx)
    requires forall m :: m in r ==> m.dist == metric(q, Fetch(idx, m.key))
    ensures ValidApprox(idx, q, k, metric, MatchKeys(r))
  {
    SubUniqueKeys(r, pool);
    ExactKeysOrdered(idx, q, metric, r);
    ExactKeysStored(idx, r);
  }

  /** On a valid index exact search returns every key at most once. */
  lemma ExactSearchUniqueKeys(idx: Index, q: Vector, k: nat, metric: Metric)
    requires Valid(idx)
    ensures UniqueKeys(ExactSearch(idx, q, k, metric))
  {
    var pool := Score(idx, q, metric);
    assert UniqueKeys(pool);
    SubUniqueKeys(ExactSearch(idx, q, k, metric), pool);
  }

  /** A selection drawn from a pool whose keys are distinct has distinct keys. */
  lemma SubUniqueKeys(r: seq<Match>, pool: seq<Match>)
    requires multiset(r) <= multiset(pool)
    requires UniqueKeys(pool)
    ensures UniqueKeys(r)
  {
    forall i, j | 0 <= i < j < |r|
      ensures r[i].key != r[j].key
    {
      NoRepeatInSub(r, pool, i, j);
      assert r[i] in multiset(pool) && r[j] in multiset(pool);
      var a :| 0 <= a < |pool| && pool[a] == r[i];
      var b :| 0 <= b < |pool| && pool[b] == r[j];
    }
  }

  /** Sorted matches at their true distances list their keys in ascending distance. */
  lemma ExactKeysOrdered(idx: Index, q: Vector, metric: Metric, r: seq<Match>)
    requires Sorted(r)
    requires forall m :: m in r ==> m.dist == metric(q, Fetch(idx, m.key))
    ensures forall i, j :: 0 <= i < j < |r| ==> metric(q, Fetch(idx, MatchKeys(r)[i])) <= metric(q, Fetch(idx, MatchKeys(r)[j]))
  {
    forall i, j | 0 <= i < j < |r|
      ensures metric(q, Fetch(idx, MatchKeys(r)[i])) <= metric(q, Fetch(idx, MatchKeys(r)[j]))
    {
      assert r[i] in r && r[j] in r;
    }
  }

  lemma ExactKeysStored(idx: Index, r: seq<Match>)
    requires forall m :: m in r ==> m.key in Keys(idx)
    ensures forall i :: 0 <= i < |r| ==> MatchKeys(r)[i] in Keys(idx)
  {
    forall i | 0 <= i < |r|
      ensures MatchKeys(r)[i] in Keys(idx)
    {
      assert r[i] in r;
    }
  }

  /** A sub-multiset of a sequence without repeats has no repeats either. */
  lemma NoRepeatInSub(r: seq<Match>, pool: seq<Match>, i: nat, j: nat)
    requires multiset(r) <= multiset(pool)
    requires forall a, b :: 0 <= a < b < |pool| ==> pool[a] != pool[b]
    requires i < j < |r|
    ensures r[i] != r[j]
  {
    RepeatCount(r, i, j);
    DistinctCount(pool, r[i]);
    assert multiset(r)[r[i]] <= multiset(pool)[r[i]];
  }

  /** What the driver may assume of `search(query, k)` (approximate search): at
      most `k` distinct stored keys, in ascending distance. Which keys is the
      engine's business. */
  predicate ValidApprox(idx: Index, q: Vector, k: nat, metric: Metric, keys: seq<Key>)
  {
    && |keys| <= k
    && (forall i, j :: 0 <= i < j < |keys| ==> keys[i] != keys[j])
    && (forall i :: 0 <= i < |keys| ==> keys[i] in Keys(idx))
    && (forall i, j :: 0 <= i < j < |keys| ==> metric(q, Fetch(idx, keys[i])) <= metric(q, Fetch(idx, keys[j])))
  }
}
