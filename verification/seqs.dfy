/** Generic sequence operations: concatenation of a sequence of sequences,
    `Vec::truncate`, and `chunks_exact`. */
module Seqs {
  import opened Arith

  /** Sum of the lengths of the inner sequences. */
  function TotalLength<T>(ss: seq<seq<T>>): nat
  {
    if |ss| == 0 then 0 else |ss[0]| + TotalLength(ss[1..])
  }

  /** The inner sequences concatenated in order. */
  function Flatten<T>(ss: seq<seq<T>>): (r: seq<T>)
    ensures |r| == TotalLength(ss)
  {
    if |ss| == 0 then [] else ss[0] + Flatten(ss[1..])
  }

  lemma {:induction false} FlattenAppend<T>(a: seq<seq<T>>, b: seq<seq<T>>)
    ensures Flatten(a + b) == Flatten(a) + Flatten(b)
    decreases |a|
  {
    if |a| == 0 {
      assert a + b == b;
    } else {
      assert (a + b)[1..] == a[1..] + b;
      FlattenAppend(a[1..], b);
    }
  }

  /** Every element of the concatenation comes from one of the inner sequences. */
  lemma {:induction false} FlattenMember<T>(ss: seq<seq<T>>, x: T)
    requires x in Flatten(ss)
    ensures exists i :: 0 <= i < |ss| && x in ss[i]
    decreases |ss|
  {
    if x !in ss[0] {
      FlattenMember(ss[1..], x);
      var i :| 0 <= i < |ss[1..]| && x in ss[1..][i];
      assert x in ss[i + 1];
    }
  }

  /** When every inner sequence has at most `k` elements, the concatenation has at
      most `|ss| * k`. */
  lemma {:induction false} TotalLengthBound<T>(ss: seq<seq<T>>, k: nat)
    requires forall i :: 0 <= i < |ss| ==> |ss[i]| <= k
    ensures TotalLength(ss) <= |ss| * k
    decreases |ss|
  {
    if |ss| > 0 {
      TotalLengthBound(ss[1..], k);
      assert |ss| * k == k + (|ss| - 1) * k;
    }
  }

  /** When every inner sequence has exactly `k` elements, the concatenation has
      exactly `|ss| * k`. */
  lemma {:induction false} TotalLengthUniform<T>(ss: seq<seq<T>>, k: nat)
    requires forall i :: 0 <= i < |ss| ==> |ss[i]| == k
    ensures TotalLength(ss) == |ss| * k
    decreases |ss|
  {
    if |ss| > 0 {
      TotalLengthUniform(ss[1..], k);
      assert |ss| * k == k + (|ss| - 1) * k;
    }
  }

  /** In a sequence without repeats every value occurs at most once. */
  lemma {:induction false} DistinctCount<T>(s: seq<T>, x: T)
    requires forall i, j :: 0 <= i < j < |s| ==> s[i] != s[j]
    ensures multiset(s)[x] <= 1
    decreases |s|
  {
    if |s| > 0 {
      DistinctCount(s[1..], x);
      assert s == [s[0]] + s[1..];
      assert forall k :: 0 <= k < |s[1..]| ==> s[1..][k] == s[k + 1];
      assert s[0] !in s[1..];
    }
  }

  /** An element at `i` occurs again at `j > i` only if it occurs at least twice. */
  lemma RepeatCount<T>(s: seq<T>, i: nat, j: nat)
    requires i < j < |s|
    ensures multiset(s)[s[i]] >= 1 + multiset(s[j..])[s[i]]
    ensures multiset(s[j..])[s[j]] >= 1
  {
    assert s == s[..j] + s[j..];
    assert s[..j][i] == s[i];
    assert s[j..][0] == s[j];
  }

  /** `Vec::truncate(n)`: keeps the first `n` elements, or all of them when there
      are fewer. */
  function Take<T>(s: seq<T>, n: nat): (r: seq<T>)
    ensures |r| == if n < |s| then n else |s|
    ensures forall i :: 0 <= i < |r| ==> r[i] == s[i]
  {
    if n < |s| then s[..n] else s
  }

  lemma TakeCons<T>(x: T, s: seq<T>, k: nat)
    requires k > 0
    ensures Take([x] + s, k) == [x] + Take(s, k - 1)
  {
  }

  lemma TakeTail<T>(s: seq<T>, n: nat)
    requires |s| > 0 && n > 0
    ensures |Take(s, n)| > 0 && Take(s, n)[0] == s[0]
    ensures Take(s, n)[1..] == Take(s[1..], n - 1)
  {
  }

  lemma TakeTake<T>(s: seq<T>, m: nat, k: nat)
    requires k <= m
    ensures Take(Take(s, m), k) == Take(s, k)
  {
  }

  /** `chunks_exact(n)`: consecutive chunks of exactly `n` elements; a trailing
      remainder shorter than `n` is dropped. */
  function ChunksExact<T>(s: seq<T>, n: nat): (r: seq<seq<T>>)
    requires n > 0
    ensures |r| == |s| / n
    ensures forall i :: 0 <= i < |r| ==> |r[i]| == n
    decreases |s|
  {
    if |s| < n then []
    else
      DivStep(|s|, n);
      [s[..n]] + ChunksExact(s[n..], n)
  }

  /** Chunking a concatenation of `n`-element pieces followed by fewer than `n`
      trailing elements gives back exactly the pieces. */
  lemma {:induction false} ChunksOfFlatten<T>(cs: seq<seq<T>>, tail: seq<T>, n: nat)
    requires n > 0
    requires forall i :: 0 <= i < |cs| ==> |cs[i]| == n
    requires |tail| < n
    ensures ChunksExact(Flatten(cs) + tail, n) == cs
    decreases |cs|
  {
    if |cs| == 0 {
      assert Flatten(cs) + tail == tail;
    } else {
      var s := Flatten(cs) + tail;
      assert s == cs[0] + (Flatten(cs[1..]) + tail);
      assert s[..n] == cs[0];
      assert s[n..] == Flatten(cs[1..]) + tail;
      ChunksOfFlatten(cs[1..], tail, n);
      assert cs == [cs[0]] + cs[1..];
    }
  }

  /** Concatenating the chunks gives back the input without its dropped remainder. */
  lemma {:induction false} FlattenOfChunks<T>(s: seq<T>, n: nat)
    requires n > 0
    ensures Flatten(ChunksExact(s, n)) == s[..(|s| / n) * n]
  {
    var c := ChunksExact(s, n);
    ChunksArePrefix(s, n);
    TotalLengthUniform(c, n);
  }

  lemma {:induction false} ChunksArePrefix<T>(s: seq<T>, n: nat)
    requires n > 0
    ensures Flatten(ChunksExact(s, n)) <= s
    decreases |s|
  {
    if |s| >= n {
      var c := ChunksExact(s, n);
      ChunksArePrefix(s[n..], n);
      assert c[1..] == ChunksExact(s[n..], n);
      assert s == s[..n] + s[n..];
    }
  }

  /** Concatenating the first `m` chunks gives the first `m * n` elements. */
  lemma FlattenChunksPrefix<T>(s: seq<T>, n: nat, m: nat)
    requires n > 0
    requires m <= |s| / n
    ensures Flatten(ChunksExact(s, n)[..m]) == s[..m * n]
  {
    var c := ChunksExact(s, n);
    ChunksArePrefix(s, n);
    assert c == c[..m] + c[m..];
    FlattenAppend(c[..m], c[m..]);
    TotalLengthUniform(c[..m], n);
  }

  /** The `i`-th chunk is the slice `[i * n, i * n + n)`. */
  lemma {:induction false} ChunkAt<T>(s: seq<T>, n: nat, i: nat)
    requires n > 0
    requires i < |s| / n
    ensures n * i + n <= |s|
    ensures ChunksExact(s, n)[i] == s[n * i..n * i + n]
    decreases i
  {
    DivBound(|s|, n, i);
    if i > 0 {
      DivStep(|s|, n);
      ChunkAt(s[n..], n, i - 1);
      MulPred(n, i);
      var p := n * (i - 1);
      assert n + p == n * i;
      assert ChunksExact(s, n)[i] == ChunksExact(s[n..], n)[i - 1];
      assert s[n..][p..p + n] == s[n + p..n + p + n];
    }
  }
}
