/** Recall@K of one query, and its mean over all queries. */
module Recall {
  import opened Wrappers
  import opened Config
  import opened Ranking

  /** The set of keys of a result (`HashSet<u64>` collected from it). It loses
      nothing exactly when no key repeats. */
  function KeySet(ms: seq<Match>): (r: set<Key>)
    ensures |r| <= |ms|
    ensures forall k :: k in r <==> exists i :: 0 <= i < |ms| && ms[i].key == k
    ensures UniqueKeys(ms) ==> |r| == |ms|
  {
    if |ms| == 0 then {}
    else
      var tail := ms[1..];
      assert forall i :: 1 <= i < |ms| ==> ms[i] == tail[i - 1];
      HeadKeyFresh(ms);
      {ms[0].key} + KeySet(tail)
  }

  /** With no key repeated, the tail repeats none and does not hold the head's key. */
  lemma HeadKeyFresh(ms: seq<Match>)
    requires |ms| > 0
    ensures UniqueKeys(ms) ==> UniqueKeys(ms[1..])
    ensures UniqueKeys(ms) ==> forall i :: 0 <= i < |ms[1..]| ==> ms[1..][i].key != ms[0].key
  {
    assert forall i :: 0 <= i < |ms[1..]| ==> ms[1..][i] == ms[i + 1];
  }

  /** `intersect as f64 / TOP_K as f64`. With a ground truth of at most `TOP_K`
      matches the ratio lies in `[0, 1]`, and it is 1 exactly when the ground
      truth holds `TOP_K` distinct keys, all of them predicted; it is 0 exactly when
      no ground-truth key is predicted. */
  function RecallAtK(gt: seq<Match>, pred: seq<Match>): (r: real)
    ensures |gt| <= TOP_K ==> 0.0 <= r <= 1.0
    ensures |gt| <= TOP_K ==> (r == 1.0 <==> |KeySet(gt)| == TOP_K && KeySet(gt) <= KeySet(pred))
    ensures r == 0.0 <==> KeySet(gt) !! KeySet(pred)
  {
    var g, p := KeySet(gt), KeySet(pred);
    RecallOfSets(g, p);
    |g * p| as real / TOP_K as real
  }

  /** The share of the ground-truth keys `g` found among the predicted keys `p`. */
  lemma RecallOfSets(g: set<Key>, p: set<Key>)
    ensures var r := |g * p| as real / TOP_K as real;
      && (|g| <= TOP_K ==> 0.0 <= r <= 1.0)
      && (|g| <= TOP_K ==> (r == 1.0 <==> |g| == TOP_K && g <= p))
      && (r == 0.0 <==> g !! p)
  {
    IntersectionSize(g, p);
    if g !! p {
      assert g * p == {};
    } else {
      var x :| x in g && x in p;
      assert x in g * p;
    }
    ShareOf(|g * p|, TOP_K);
  }

  /** `c` out of a positive `t` is 0 exactly when `c` is, 1 exactly when `c` is
      all of `t`, and in `[0, 1]` when `c` is at most `t`. */
  lemma ShareOf(c: nat, t: nat)
    requires t > 0
    ensures c as real / t as real == 0.0 <==> c == 0
    ensures c as real / t as real == 1.0 <==> c == t
    ensures c <= t ==> 0.0 <= c as real / t as real <= 1.0
  {
    var x := c as real / t as real;
    assert x * t as real == c as real;
    if c <= t {
      UnitQuotient(c as real, t as real);
    }
  }

  /** The intersection is no larger than `g`, and as large exactly when `g <= p`. */
  lemma IntersectionSize<T>(g: set<T>, p: set<T>)
    ensures |g * p| <= |g|
    ensures |g * p| == |g| <==> g <= p
  {
    assert g * p <= g;
    assert |g - g * p| == |g| - |g * p|;
    if |g * p| == |g| {
      assert g - g * p == {};
      assert g <= g * p;
    }
  }

  /** Every value lies in `[0, 1]`. */
  predicate AllUnit(xs: seq<real>)
  {
    forall i :: 0 <= i < |xs| ==> 0.0 <= xs[i] <= 1.0
  }

  /** Running total of a sequence of reals, summed front to back (`recall_sum`).
      A total of `n` values in `[0, 1]` lies in `[0, n]`. */
  function Sum(xs: seq<real>): (r: real)
    ensures AllUnit(xs) ==> 0.0 <= r <= |xs| as real
  {
    if |xs| == 0 then 0.0
    else
      var init := xs[..|xs| - 1];
      assert AllUnit(xs) ==> AllUnit(init) by {
        assert forall i :: 0 <= i < |init| ==> init[i] == xs[i];
      }
      Sum(init) + xs[|xs| - 1]
  }

  /** The average printed after the query loop; there is none without queries. */
  function Mean(xs: seq<real>): (r: Option<real>)
    ensures r.Some? <==> |xs| > 0
  {
    if |xs| == 0 then None else Some(Sum(xs) / |xs| as real)
  }

  /** The mean of recalls lies in `[0, 1]`. */
  lemma MeanBounds(xs: seq<real>)
    requires |xs| > 0
    requires AllUnit(xs)
    ensures 0.0 <= Mean(xs).value <= 1.0
  {
    UnitQuotient(Sum(xs), |xs| as real);
  }

  /** A share of a positive whole, at most the whole, lies in `[0, 1]`. */
  lemma UnitQuotient(s: real, n: real)
    requires 0.0 < n && 0.0 <= s <= n
    ensures 0.0 <= s / n <= 1.0
  {
    var inv := 1.0 / n;
    assert inv * n == 1.0;
    assert 0.0 < inv;
    assert s / n == s * inv;
    assert s * inv <= n * inv;
  }
}
