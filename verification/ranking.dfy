/** Search results as (key, distance) matches, ordered by ascending distance
    (lower is closer), with the stable sort, the two-way merge and the top-k
    selection the driver and the engine rely on. */
module Ranking {
  import opened Seqs

  /** A `u64` vector key; the bound is proved where keys are made. */
  type Key = nat

  /** One search hit. Distances are an abstract ordered type, modelled as `int`. */
  datatype Match = Match(key: Key, dist: int)

  predicate Sorted(s: seq<Match>)
  {
    forall i, j :: 0 <= i < j < |s| ==> s[i].dist <= s[j].dist
  }

  /** No key is matched twice. */
  predicate UniqueKeys(s: seq<Match>)
  {
    forall i, j :: 0 <= i < j < |s| ==> s[i].key != s[j].key
  }

  /** The subsequence of matches at distance `d`, in their original order. A
      sort is stable exactly when it keeps every such subsequence unchanged. */
  function AtDist(s: seq<Match>, d: int): seq<Match>
  {
    if |s| == 0 then [] else (if s[0].dist == d then [s[0]] else []) + AtDist(s[1..], d)
  }

  lemma {:induction false} AtDistAppend(a: seq<Match>, b: seq<Match>, d: int)
    ensures AtDist(a + b, d) == AtDist(a, d) + AtDist(b, d)
    decreases |a|
  {
    if |a| > 0 {
      assert (a + b)[1..] == a[1..] + b;
      AtDistAppend(a[1..], b, d);
    } else {
      assert a + b == b;
    }
  }

  /** A sorted sequence whose first element is farther than `d` has nothing at `d`. */
  lemma {:induction false} AtDistAbove(s: seq<Match>, d: int)
    requires Sorted(s)
    requires |s| > 0 && s[0].dist > d
    ensures AtDist(s, d) == []
    decreases |s|
  {
    if |s| > 1 {
      AtDistAbove(s[1..], d);
    }
  }

  /** Places `m` before the first element that is not closer than it. */
  function Insert(m: Match, s: seq<Match>): (r: seq<Match>)
    requires Sorted(s)
    ensures Sorted(r)
    ensures multiset(r) == multiset([m] + s)
    ensures forall d :: AtDist(r, d) == AtDist([m] + s, d)
  {
    if |s| == 0 || m.dist <= s[0].dist then [m] + s
    else
      var rest := Insert(m, s[1..]);
      var r := [s[0]] + rest;
      InsertStep(m, s, rest);
      r
  }

  lemma InsertStep(m: Match, s: seq<Match>, rest: seq<Match>)
    requires Sorted(s) && |s| > 0 && s[0].dist < m.dist
    requires Sorted(rest)
    requires multiset(rest) == multiset([m] + s[1..])
    requires forall d :: AtDist(rest, d) == AtDist([m] + s[1..], d)
    ensures Sorted([s[0]] + rest)
    ensures multiset([s[0]] + rest) == multiset([m] + s)
    ensures forall d :: AtDist([s[0]] + rest, d) == AtDist([m] + s, d)
  {
    BelowPermutation(s[0], [m], s[1..], rest);
    ConsSorted(s[0], rest);
    InsertStepPermutes(m, s, rest);
    forall d
      ensures AtDist([s[0]] + rest, d) == AtDist([m] + s, d)
    {
      InsertStepAtDist(m, s, rest, d);
    }
  }

  lemma InsertStepPermutes(m: Match, s: seq<Match>, rest: seq<Match>)
    requires |s| > 0
    requires multiset(rest) == multiset([m] + s[1..])
    ensures multiset([s[0]] + rest) == multiset([m] + s)
  {
    ConsPermutes(s[0], [m], s[1..], rest);
    assert s == [s[0]] + s[1..];
  }

  /** A match no farther than anything in `rest` can go in front of it. */
  lemma ConsSorted(x: Match, rest: seq<Match>)
    requires Sorted(rest)
    requires forall j :: 0 <= j < |rest| ==> x.dist <= rest[j].dist
    ensures Sorted([x] + rest)
  {
    var r := [x] + rest;
    forall i, j | 0 <= i < j < |r| ensures r[i].dist <= r[j].dist {
      assert r[j] == rest[j - 1];
      if i > 0 {
        assert r[i] == rest[i - 1];
      }
    }
  }

  /** A match no farther than the heads of two sorted sequences is no farther
      than any rearrangement of their elements. */
  lemma BelowPermutation(x: Match, a: seq<Match>, b: seq<Match>, rest: seq<Match>)
    requires Sorted(a) && Sorted(b)
    requires |a| > 0 ==> x.dist <= a[0].dist
    requires |b| > 0 ==> x.dist <= b[0].dist
    requires multiset(rest) == multiset(a) + multiset(b)
    ensures forall j :: 0 <= j < |rest| ==> x.dist <= rest[j].dist
  {
    forall j | 0 <= j < |rest| ensures x.dist <= rest[j].dist {
      assert rest[j] in multiset(a) + multiset(b);
      if rest[j] in a {
        var i :| 0 <= i < |a| && a[i] == rest[j];
        assert a[0].dist <= a[i].dist;
      } else {
        assert rest[j] in b;
        var i :| 0 <= i < |b| && b[i] == rest[j];
        assert b[0].dist <= b[i].dist;
      }
    }
  }

  lemma InsertStepAtDist(m: Match, s: seq<Match>, rest: seq<Match>, d: int)
    requires |s| > 0 && s[0].dist < m.dist
    requires AtDist(rest, d) == AtDist([m] + s[1..], d)
    ensures AtDist([s[0]] + rest, d) == AtDist([m] + s, d)
  {
    var r := [s[0]] + rest;
    assert r[1..] == rest;
    assert ([m] + s)[1..] == s;
    assert ([m] + s[1..])[1..] == s[1..];
    var hs := if s[0].dist == d then [s[0]] else [];
    var hm := if m.dist == d then [m] else [];
    assert AtDist(r, d) == hs + AtDist(rest, d);
    assert AtDist(rest, d) == hm + AtDist(s[1..], d);
    assert AtDist([m] + s, d) == hm + AtDist(s, d);
    assert AtDist(s, d) == hs + AtDist(s[1..], d);
    assert hs == [] || hm == [];
  }

  /** `slice::sort_by` on distance: a stable sort. The result is ordered, is a
      permutation of the input, and keeps equal-distance matches in input order. */
  function Sort(s: seq<Match>): (r: seq<Match>)
    ensures |r| == |s|
    ensures Sorted(r)
    ensures multiset(r) == multiset(s)
    ensures forall d :: AtDist(r, d) == AtDist(s, d)
  {
    if |s| == 0 then []
    else
      var r := Insert(s[0], Sort(s[1..]));
      assert s == [s[0]] + s[1..];
      forall d
        ensures AtDist(r, d) == AtDist(s, d)
      {
        AtDistAppend([s[0]], Sort(s[1..]), d);
        AtDistAppend([s[0]], s[1..], d);
      }
      assert |r| == |multiset(r)| == |multiset(s)| == |s|;
      r
  }

  /** Sortedness and per-distance order determine a sequence: two sorted sequences
      with the same matches at every distance, in the same order, are equal. */
  lemma {:induction false} SortedUnique(a: seq<Match>, b: seq<Match>)
    requires Sorted(a) && Sorted(b)
    requires forall d :: AtDist(a, d) == AtDist(b, d)
    ensures a == b
    decreases |a| + |b|
  {
    if |a| > 0 {
      assert AtDist(a, a[0].dist) == [a[0]] + AtDist(a[1..], a[0].dist);
    }
    if |b| > 0 {
      assert AtDist(b, b[0].dist) == [b[0]] + AtDist(b[1..], b[0].dist);
    }
    if |a| > 0 && |b| > 0 {
      var da, db := a[0].dist, b[0].dist;
      if da < db {
        AtDistAbove(b, da);
      } else if db < da {
        AtDistAbove(a, db);
      } else {
        assert AtDist(a, da) == AtDist(b, da);
        assert a[0] == AtDist(a, da)[0];
        forall d
          ensures AtDist(a[1..], d) == AtDist(b[1..], d)
        {
          assert AtDist(a, d) == AtDist(b, d);
          if d == da {
            assert AtDist(a[1..], d) == AtDist(a, d)[1..];
            assert AtDist(b[1..], d) == AtDist(b, d)[1..];
          } else {
            assert AtDist(a, d) == AtDist(a[1..], d);
            assert AtDist(b, d) == AtDist(b[1..], d);
          }
        }
        SortedUnique(a[1..], b[1..]);
        assert a == [a[0]] + a[1..];
        assert b == [b[0]] + b[1..];
      }
    }
  }

  /** `Sort` is the only stable sort: any ordered result that keeps every
      equal-distance run in input order is `Sort(s)`. */
  lemma SortIsTheStableSort(s: seq<Match>, r: seq<Match>)
    requires Sorted(r)
    requires forall d :: AtDist(r, d) == AtDist(s, d)
    ensures r == Sort(s)
  {
    SortedUnique(r, Sort(s));
  }

  /** Sorting an already sorted sequence changes nothing. */
  lemma SortSorted(s: seq<Match>)
    requires Sorted(s)
    ensures Sort(s) == s
  {
    SortIsTheStableSort(s, s);
  }

  /** Two-way stable merge: on a tie the element of `a` goes first. */
  function Merge(a: seq<Match>, b: seq<Match>): seq<Match>
    decreases |a| + |b|
  {
    if |a| == 0 then b
    else if |b| == 0 then a
    else if a[0].dist <= b[0].dist then [a[0]] + Merge(a[1..], b)
    else [b[0]] + Merge(a, b[1..])
  }

  /** Merging keeps every element of both sides. */
  lemma {:induction false} MergePermutes(a: seq<Match>, b: seq<Match>)
    ensures multiset(Merge(a, b)) == multiset(a) + multiset(b)
    decreases |a| + |b|
  {
    if |a| > 0 && |b| > 0 {
      if a[0].dist <= b[0].dist {
        MergePermutes(a[1..], b);
        ConsPermutes(a[0], a[1..], b, Merge(a[1..], b));
        assert Merge(a, b) == [a[0]] + Merge(a[1..], b);
        assert a == [a[0]] + a[1..];
      } else {
        MergePermutes(a, b[1..]);
        ConsPermutes(b[0], b[1..], a, Merge(a, b[1..]));
        assert Merge(a, b) == [b[0]] + Merge(a, b[1..]);
        assert b == [b[0]] + b[1..];
      }
    }
  }

  lemma ConsPermutes(x: Match, s: seq<Match>, t: seq<Match>, rest: seq<Match>)
    requires multiset(rest) == multiset(s) + multiset(t)
    ensures multiset([x] + rest) == multiset([x] + s) + multiset(t)
  {
  }

  /** Merging two sorted sequences yields a sorted sequence. */
  lemma {:induction false} MergeSorted(a: seq<Match>, b: seq<Match>)
    requires Sorted(a) && Sorted(b)
    ensures Sorted(Merge(a, b))
    decreases |a| + |b|
  {
    if |a| > 0 && |b| > 0 {
      if a[0].dist <= b[0].dist {
        var rest := Merge(a[1..], b);
        MergeSorted(a[1..], b);
        MergePermutes(a[1..], b);
        BelowPermutation(a[0], a[1..], b, rest);
        ConsSorted(a[0], rest);
      } else {
        var rest := Merge(a, b[1..]);
        MergeSorted(a, b[1..]);
        MergePermutes(a, b[1..]);
        BelowPermutation(b[0], a, b[1..], rest);
        ConsSorted(b[0], rest);
      }
    }
  }

  /** Merging two sorted sequences keeps, at each distance, the matches of `a`
      before those of `b`. */
  lemma {:induction false} MergeAtDist(a: seq<Match>, b: seq<Match>, d: int)
    requires Sorted(a) && Sorted(b)
    ensures AtDist(Merge(a, b), d) == AtDist(a, d) + AtDist(b, d)
    decreases |a| + |b|
  {
    if |a| == 0 {
      assert AtDist(a, d) == [];
    } else if |b| == 0 {
      assert AtDist(b, d) == [];
    } else if a[0].dist <= b[0].dist {
      MergeAtDist(a[1..], b, d);
      MergeAtDistLeft(a, b, d);
    } else {
      MergeAtDist(a, b[1..], d);
      MergeAtDistRight(a, b, d);
    }
  }

  lemma AtDistSingle(m: Match, d: int)
    ensures AtDist([m], d) == if m.dist == d then [m] else []
  {
    assert [m][1..] == [];
  }

  /** The step of `MergeAtDist` that takes the head of `a`. */
  lemma MergeAtDistLeft(a: seq<Match>, b: seq<Match>, d: int)
    requires |a| > 0 && |b| > 0 && a[0].dist <= b[0].dist
    requires AtDist(Merge(a[1..], b), d) == AtDist(a[1..], d) + AtDist(b, d)
    ensures AtDist(Merge(a, b), d) == AtDist(a, d) + AtDist(b, d)
  {
    var h, rest := AtDist([a[0]], d), Merge(a[1..], b);
    calc {
      AtDist(Merge(a, b), d);
      { assert Merge(a, b) == [a[0]] + rest; AtDistAppend([a[0]], rest, d); }
      h + (AtDist(a[1..], d) + AtDist(b, d));
      { assert h + (AtDist(a[1..], d) + AtDist(b, d)) == (h + AtDist(a[1..], d)) + AtDist(b, d); }
      (h + AtDist(a[1..], d)) + AtDist(b, d);
      { assert a == [a[0]] + a[1..]; AtDistAppend([a[0]], a[1..], d); }
      AtDist(a, d) + AtDist(b, d);
    }
  }

  /** The step of `MergeAtDist` that takes the head of `b`: everything in `a` is
      farther, so nothing of `a` is at that head's distance. */
  lemma MergeAtDistRight(a: seq<Match>, b: seq<Match>, d: int)
    requires Sorted(a)
    requires |a| > 0 && |b| > 0 && b[0].dist < a[0].dist
    requires AtDist(Merge(a, b[1..]), d) == AtDist(a, d) + AtDist(b[1..], d)
    ensures AtDist(Merge(a, b), d) == AtDist(a, d) + AtDist(b, d)
  {
    var h, rest := AtDist([b[0]], d), Merge(a, b[1..]);
    var x, y := AtDist(a, d), AtDist(b[1..], d);
    calc {
      AtDist(Merge(a, b), d);
      { assert Merge(a, b) == [b[0]] + rest; AtDistAppend([b[0]], rest, d); }
      h + (x + y);
      { HeadBeforeSorted(b[0], a, d, y); }
      x + (h + y);
      { assert b == [b[0]] + b[1..]; AtDistAppend([b[0]], b[1..], d); }
      x + AtDist(b, d);
    }
  }

  /** A match closer than everything in a sorted sequence shares no distance
      class with it, so at every distance the two can be listed in either order. */
  lemma HeadBeforeSorted(m: Match, a: seq<Match>, d: int, rest: seq<Match>)
    requires Sorted(a)
    requires |a| > 0 && m.dist < a[0].dist
    ensures AtDist([m], d) == [] || AtDist(a, d) == []
    ensures AtDist([m], d) + (AtDist(a, d) + rest) == AtDist(a, d) + (AtDist([m], d) + rest)
  {
    AtDistSingle(m, d);
    if d == m.dist {
      AtDistAbove(a, d);
      assert AtDist(a, d) + (AtDist([m], d) + rest) == AtDist([m], d) + rest;
    } else {
      assert AtDist([m], d) + (AtDist(a, d) + rest) == AtDist(a, d) + rest;
    }
  }

  /** Stable-sorting a concatenation is merging the stably sorted parts. */
  lemma SortAppend(a: seq<Match>, b: seq<Match>)
    ensures Sort(a + b) == Merge(Sort(a), Sort(b))
  {
    var m := Merge(Sort(a), Sort(b));
    MergeSorted(Sort(a), Sort(b));
    forall d ensures AtDist(m, d) == AtDist(a + b, d) {
      MergeAtDist(Sort(a), Sort(b), d);
      AtDistAppend(a, b, d);
    }
    SortIsTheStableSort(a + b, m);
  }

  /** The first `k` of a merge depend only on the first `k` (or more) of each side. */
  lemma {:induction false} TakeMerge(a: seq<Match>, b: seq<Match>, ma: nat, mb: nat, k: nat)
    requires k <= ma && k <= mb
    ensures Take(Merge(Take(a, ma), Take(b, mb)), k) == Take(Merge(a, b), k)
    decreases k
  {
    var a', b' := Take(a, ma), Take(b, mb);
    if k == 0 {
    } else if |a| == 0 {
      assert a' == [];
      TakeTake(b, mb, k);
    } else if |b| == 0 {
      assert b' == [];
      TakeTake(a, ma, k);
    } else if a[0].dist <= b[0].dist {
      TakeMerge(a[1..], b, ma - 1, mb, k - 1);
      TakeMergeLeft(a, b, ma, mb, k);
    } else {
      TakeMerge(a, b[1..], ma, mb - 1, k - 1);
      TakeMergeRight(a, b, ma, mb, k);
    }
  }

  /** The step of `TakeMerge` that takes the head of `a`. */
  lemma TakeMergeLeft(a: seq<Match>, b: seq<Match>, ma: nat, mb: nat, k: nat)
    requires 0 < k <= ma && k <= mb
    requires |a| > 0 && |b| > 0 && a[0].dist <= b[0].dist
    requires Take(Merge(Take(a[1..], ma - 1), Take(b, mb)), k - 1) == Take(Merge(a[1..], b), k - 1)
    ensures Take(Merge(Take(a, ma), Take(b, mb)), k) == Take(Merge(a, b), k)
  {
    var a', b' := Take(a, ma), Take(b, mb);
    TakeTail(a, ma);
    TakeTail(b, mb);
    calc {
      Take(Merge(a', b'), k);
      { assert Merge(a', b') == [a[0]] + Merge(a'[1..], b'); TakeCons(a[0], Merge(a'[1..], b'), k); }
      [a[0]] + Take(Merge(a'[1..], b'), k - 1);
      [a[0]] + Take(Merge(a[1..], b), k - 1);
      { TakeCons(a[0], Merge(a[1..], b), k); }
      Take(Merge(a, b), k);
    }
  }

  /** The step of `TakeMerge` that takes the head of `b`. */
  lemma TakeMergeRight(a: seq<Match>, b: seq<Match>, ma: nat, mb: nat, k: nat)
    requires 0 < k <= ma && k <= mb
    requires |a| > 0 && |b| > 0 && b[0].dist < a[0].dist
    requires Take(Merge(Take(a, ma), Take(b[1..], mb - 1)), k - 1) == Take(Merge(a, b[1..]), k - 1)
    ensures Take(Merge(Take(a, ma), Take(b, mb)), k) == Take(Merge(a, b), k)
  {
    var a', b' := Take(a, ma), Take(b, mb);
    TakeTail(a, ma);
    TakeTail(b, mb);
    calc {
      Take(Merge(a', b'), k);
      { assert Merge(a', b') == [b[0]] + Merge(a', b'[1..]); TakeCons(b[0], Merge(a', b'[1..]), k); }
      [b[0]] + Take(Merge(a', b'[1..]), k - 1);
      [b[0]] + Take(Merge(a, b[1..]), k - 1);
      { TakeCons(b[0], Merge(a, b[1..]), k); }
      Take(Merge(a, b), k);
    }
  }

  /** Exact top-`k` selection: the `k` closest matches of `pool`, ascending, ties
      in pool order. Everything left out is no closer than anything kept. */
  function TopK(pool: seq<Match>, k: nat): (r: seq<Match>)
    ensures |r| == if k < |pool| then k else |pool|
    ensures Sorted(r)
    ensures multiset(r) <= multiset(pool)
    ensures forall m, x :: m in multiset(pool) - multiset(r) && x in r ==> x.dist <= m.dist
  {
    var s := Sort(pool);
    var r := Take(s, k);
    assert r == s[..|r|];
    PrefixOfSorted(s, |r|);
    LeftOut(s, |r|);
    r
  }

  /** A prefix of a sorted sequence is sorted, and no later element is closer than
      any element of the prefix. */
  lemma PrefixOfSorted(s: seq<Match>, n: nat)
    requires Sorted(s) && n <= |s|
    ensures Sorted(s[..n])
    ensures forall m, x :: m in s[n..] && x in s[..n] ==> x.dist <= m.dist
  {
    forall m, x | m in s[n..] && x in s[..n]
      ensures x.dist <= m.dist
    {
      var j :| 0 <= j < |s[n..]| && s[n..][j] == m;
      var i :| 0 <= i < n && s[..n][i] == x;
      assert s[i] == x && s[n + j] == m;
    }
  }

  /** What a prefix leaves out of a sequence is its suffix. */
  lemma LeftOut(s: seq<Match>, n: nat)
    requires n <= |s|
    ensures multiset(s[..n]) <= multiset(s)
    ensures forall m :: m in multiset(s) - multiset(s[..n]) ==> m in s[n..]
  {
    assert s == s[..n] + s[n..];
    assert multiset(s) - multiset(s[..n]) == multiset(s[n..]);
  }
}
