/** Ranking of a score list the way the demo does it: `argsort`, reversal,
    prefix slice. NumPy's default `argsort` is not stable, so the order in
    which it lists equal scores is not fixed; everything here holds for
    every order it may choose. */
module Ranking {

  function Min(a: nat, b: nat): nat
  {
    if a <= b then a else b
  }

  /** The indices 0, 1, ..., n - 1 in order. */
  function Range(n: nat): seq<nat>
  {
    seq(n, i requires 0 <= i < n => i)
  }

  /** Every entry of `p` is an index below `n`. */
  ghost predicate InRange(p: seq<nat>, n: nat)
  {
    forall i :: 0 <= i < |p| ==> p[i] < n
  }

  /** No entry of `p` is repeated. */
  ghost predicate Distinct(p: seq<nat>)
  {
    forall i, j :: 0 <= i < j < |p| ==> p[i] != p[j]
  }

  /** `p` lists each of the indices 0 .. n - 1 exactly once. */
  ghost predicate IsPermutation(p: seq<nat>, n: nat)
  {
    && |p| == n
    && InRange(p, n)
    && Distinct(p)
    && forall j :: 0 <= j < n ==> j in p
  }

  /** The scores read along `p` never decrease. */
  ghost predicate Ascending(scores: seq<real>, p: seq<nat>)
    requires InRange(p, |scores|)
  {
    forall i, j :: 0 <= i < j < |p| ==> scores[p[i]] <= scores[p[j]]
  }

  /** What `np.argsort(scores)` may return: a permutation of the indices
      that reads the scores in ascending order, equal scores in any order. */
  ghost predicate IsArgsort(scores: seq<real>, p: seq<nat>)
  {
    IsPermutation(p, |scores|) && Ascending(scores, p)
  }

  /** The score of index `j`; every caller passes an index in range. */
  function ScoreOf(scores: seq<real>, j: nat): real
  {
    if j < |scores| then scores[j] else 0.0
  }

  /** `scores[t]`: the scores found at the indices `t`, in the order of `t`. */
  function ScoresAt(scores: seq<real>, t: seq<nat>): (r: seq<real>)
    ensures |r| == |t| && forall i :: 0 <= i < |t| ==> r[i] == ScoreOf(scores, t[i])
    decreases |t|
  {
    if t == [] then [] else [ScoreOf(scores, t[0])] + ScoresAt(scores, t[1..])
  }

  /** `t` is a correct top-`k` selection for `scores`: min(k, n) distinct
      indices, scores non-increasing along `t`, and no index left out has a
      higher score than one taken. Nothing is said about equal scores. */
  ghost predicate IsTopK(scores: seq<real>, t: seq<nat>, k: nat)
  {
    && |t| == Min(k, |scores|)
    && InRange(t, |scores|)
    && Distinct(t)
    && (forall i, j :: 0 <= i < j < |t| ==> scores[t[i]] >= scores[t[j]])
    && (forall i, j :: 0 <= i < |t| && 0 <= j < |scores| && j !in t ==> scores[t[i]] >= scores[j])
  }

  /** In an ascending `p`, no later entry has a lower score than the first. */
  lemma HeadIsLowest(scores: seq<real>, p: seq<nat>)
    requires p != [] && InRange(p, |scores|) && Ascending(scores, p)
    ensures forall y :: y in multiset(p[1..]) ==> scores[p[0]] <= scores[y]
  {
    forall y | y in multiset(p[1..])
      ensures scores[p[0]] <= scores[y]
    {
      var k :| 0 <= k < |p[1..]| && p[1..][k] == y;
      assert p[k + 1] == y;
    }
  }

  /** An entry whose score is a lower bound can go in front of an ascending list. */
  lemma AscendingCons(scores: seq<real>, x: nat, rest: seq<nat>)
    requires x < |scores| && InRange(rest, |scores|) && Ascending(scores, rest)
    requires forall y :: y in multiset(rest) ==> scores[x] <= scores[y]
    ensures InRange([x] + rest, |scores|) && Ascending(scores, [x] + rest)
  {
    forall j | 0 < j < |rest| + 1
      ensures scores[x] <= scores[([x] + rest)[j]]
    {
      assert ([x] + rest)[j] == rest[j - 1];
      assert rest[j - 1] in multiset(rest);
    }
  }

  /** Places index `i` into the ascending list `p`, before the first entry
      whose score is not below that of `i`. */
  function Insert(scores: seq<real>, i: nat, p: seq<nat>): (r: seq<nat>)
    requires i < |scores| && InRange(p, |scores|) && Ascending(scores, p)
    ensures multiset(r) == multiset(p) + multiset{i}
    ensures InRange(r, |scores|) && Ascending(scores, r)
    decreases |p|
  {
    if p == [] || scores[i] <= scores[p[0]] then
      if p != [] then
        HeadIsLowest(scores, p);
        assert p == [p[0]] + p[1..];
        AscendingCons(scores, i, p);
        [i] + p
      else
        [i]
    else
      var rest := Insert(scores, i, p[1..]);
      assert p == [p[0]] + p[1..];
      HeadIsLowest(scores, p);
      AscendingCons(scores, p[0], rest);
      [p[0]] + rest
  }

  /** An ascending argsort of the first `m` indices, by insertion. */
  function SortPrefix(scores: seq<real>, m: nat): (r: seq<nat>)
    requires m <= |scores|
    ensures multiset(r) == multiset(Range(m))
    ensures InRange(r, |scores|) && Ascending(scores, r)
  {
    if m == 0 then []
    else
      assert Range(m) == Range(m - 1) + [m - 1];
      Insert(scores, m - 1, SortPrefix(scores, m - 1))
  }

  /** One of the results `np.argsort(scores)` may return. */
  function ArgSort(scores: seq<real>): (p: seq<nat>)
    ensures IsArgsort(scores, p)
  {
    var p := SortPrefix(scores, |scores|);
    MultisetPermutation(p, |scores|);
    p
  }

  /** `s[::-1]`. */
  function Reverse(s: seq<nat>): seq<nat>
  {
    seq(|s|, i requires 0 <= i < |s| => s[|s| - 1 - i])
  }

  /** `s[:k]` for a non-negative `k`: a `k` past the end takes everything. */
  function Take<T>(s: seq<T>, k: nat): (r: seq<T>)
    ensures |r| == Min(k, |s|) && r <= s
  {
    if k <= |s| then s[..k] else s
  }

  /** `argsort_result[::-1][:k]`. */
  function TopIndices(order: seq<nat>, k: nat): (r: seq<nat>)
    ensures |r| == Min(k, |order|)
    ensures forall i :: 0 <= i < |r| ==> r[i] == order[|order| - 1 - i]
  {
    Take(Reverse(order), k)
  }

  /** Whatever order `argsort` gives equal scores, reversing it and keeping
      the first `k` indices is a correct top-`k` selection. */
  lemma ArgsortTopK(scores: seq<real>, p: seq<nat>, k: nat)
    requires IsArgsort(scores, p)
    ensures IsTopK(scores, TopIndices(p, k), k)
  {
    var n := |scores|;
    var rev := Reverse(p);
    var t := TopIndices(p, k);
    assert forall i :: 0 <= i < |t| ==> t[i] == p[n - 1 - i];
    forall i, j | 0 <= i < |t| && 0 <= j < n && j !in t
      ensures scores[t[i]] >= scores[j]
    {
      assert j in p;
      var a :| 0 <= a < n && p[a] == j;
      KeptIfLate(p, k, a);
    }
  }

  /** An entry of the ascending order lands in the top `k` when it is among
      the last `k`. */
  lemma KeptIfLate(p: seq<nat>, k: nat, a: nat)
    requires a < |p|
    ensures |p| - Min(k, |p|) <= a ==> p[a] in TopIndices(p, k)
  {
    if |p| - Min(k, |p|) <= a {
      assert TopIndices(p, k)[|p| - 1 - a] == p[a];
    }
  }

  /** A distinct `p` holds each value at most once. */
  lemma DistinctCount(p: seq<nat>, x: nat)
    requires Distinct(p)
    ensures multiset(p)[x] <= 1
    decreases |p|
  {
    if p != [] {
      assert p == [p[0]] + p[1..];
      assert p[0] !in p[1..];
      DistinctCount(p[1..], x);
    }
  }

  /** A permutation of the indices holds exactly the values of `Range(n)`. */
  lemma {:induction false} PermutationMultiset(p: seq<nat>, n: nat)
    requires IsPermutation(p, n)
    ensures multiset(p) == multiset(Range(n))
  {
    forall x: nat
      ensures multiset(p)[x] == multiset(Range(n))[x]
    {
      DistinctCount(p, x);
      DistinctCount(Range(n), x);
      if x < n {
        assert Range(n)[x] == x;
        assert x in p;
      } else {
        assert x !in p;
        assert x !in Range(n);
      }
    }
    assert multiset(p) == multiset(Range(n));
  }

  /** A list with the values of `Range(n)`, each as often, is a permutation. */
  lemma MultisetPermutation(p: seq<nat>, n: nat)
    requires multiset(p) == multiset(Range(n))
    ensures IsPermutation(p, n)
  {
    assert |p| == |multiset(p)| == n;
    forall i | 0 <= i < |p|
      ensures p[i] < n
    {
      assert p[i] in multiset(Range(n));
    }
    forall j | 0 <= j < n
      ensures j in p
    {
      assert Range(n)[j] == j;
      assert j in multiset(p);
    }
    forall i, j | 0 <= i < j < |p|
      ensures p[i] != p[j]
    {
      if p[i] == p[j] {
        var x := p[i];
        assert p == p[..j] + p[j..];
        assert x in p[..j] && x in p[j..];
        assert multiset(p)[x] >= 2;
        DistinctCount(Range(n), x);
      }
    }
  }

  /** A score list in non-decreasing order. */
  ghost predicate Sorted(a: seq<real>)
  {
    forall i, j :: 0 <= i < j < |a| ==> a[i] <= a[j]
  }

  lemma {:induction false} ScoresAtConcat(scores: seq<real>, x: seq<nat>, y: seq<nat>)
    ensures ScoresAt(scores, x + y) == ScoresAt(scores, x) + ScoresAt(scores, y)
    decreases |x|
  {
    if x != [] {
      assert (x + y)[1..] == x[1..] + y;
      ScoresAtConcat(scores, x[1..], y);
    } else {
      assert x + y == y;
    }
  }

  lemma Cancel<T>(x: T, m1: multiset<T>, m2: multiset<T>)
    requires m1 + multiset{x} == m2 + multiset{x}
    ensures m1 == m2
  {
    forall y
      ensures m1[y] == m2[y]
    {
      assert (m1 + multiset{x})[y] == (m2 + multiset{x})[y];
    }
  }

  /** A value of `b` has a position in `b`. */
  lemma PositionOf(b: seq<nat>, x: nat, ms: multiset<nat>) returns (m: nat)
    requires multiset(b) == ms && x in ms
    ensures m < |b| && b[m] == x
  {
    assert x in multiset(b);
    m :| 0 <= m < |b| && b[m] == x;
  }

  lemma HeadRest(a: seq<nat>)
    requires a != []
    ensures multiset(a) == multiset(a[1..]) + multiset{a[0]}
  {
    assert a == [a[0]] + a[1..];
  }

  /** Taking entry `m` out of `b`. */
  lemma SeqMiddle(b: seq<nat>, m: nat)
    requires m < |b|
    ensures multiset(b) == multiset(b[..m] + b[m + 1..]) + multiset{b[m]}
  {
    assert b == b[..m] + [b[m]] + b[m + 1..];
  }

  /** Taking entry `m` out of `b`, for the scores read through `b`. */
  lemma ScoresAtMiddle(scores: seq<real>, b: seq<nat>, m: nat)
    requires m < |b|
    ensures multiset(ScoresAt(scores, b)) ==
            multiset(ScoresAt(scores, b[..m] + b[m + 1..])) + multiset{ScoreOf(scores, b[m])}
  {
    var l, r := b[..m], b[m + 1..];
    assert b == l + ([b[m]] + r);
    ScoresAtConcat(scores, l, [b[m]] + r);
    ScoresAtConcat(scores, l, r);
  }

  /** Reading the scores through two index lists with the same entries gives
      the same scores, each as often. */
  lemma {:induction false} ScoresAtMultiset(scores: seq<real>, a: seq<nat>, b: seq<nat>)
    requires multiset(a) == multiset(b)
    ensures multiset(ScoresAt(scores, a)) == multiset(ScoresAt(scores, b))
    decreases |a|
  {
    if a == [] {
      assert |b| == |multiset(b)| == 0;
    } else {
      var x := a[0];
      var m := PositionOf(b, x, multiset(a));
      var rest := b[..m] + b[m + 1..];
      SeqMiddle(b, m);
      HeadRest(a);
      Cancel(x, multiset(a[1..]), multiset(rest));
      ScoresAtMultiset(scores, a[1..], rest);
      ScoresAtMiddle(scores, b, m);
    }
  }
  /** Two sorted lists with the same entries are equal. */
  lemma {:induction false} SortedUnique(a: seq<real>, b: seq<real>)
    requires Sorted(a) && Sorted(b) && multiset(a) == multiset(b)
    ensures a == b
    decreases |a|
  {
    if a == [] {
      assert |b| == |multiset(b)| == 0;
    } else {
      assert |b| == |multiset(b)| == |a|;
      assert a[0] in multiset(b);
      assert b[0] in multiset(a);
      assert a[0] == b[0];
      assert a == [a[0]] + a[1..];
      assert b == [b[0]] + b[1..];
      assert multiset(a) == multiset(a[1..]) + multiset{a[0]};
      assert multiset(b) == multiset(b[1..]) + multiset{b[0]};
      Cancel(a[0], multiset(a[1..]), multiset(b[1..]));
      SortedUnique(a[1..], b[1..]);
    }
  }

  /** Any argsort reads the scores as the same sorted list. */
  lemma ArgsortScores(scores: seq<real>, p1: seq<nat>, p2: seq<nat>)
    requires IsArgsort(scores, p1) && IsArgsort(scores, p2)
    ensures ScoresAt(scores, p1) == ScoresAt(scores, p2)
  {
    PermutationMultiset(p1, |scores|);
    PermutationMultiset(p2, |scores|);
    ScoresAtMultiset(scores, p1, p2);
    SortedUnique(ScoresAt(scores, p1), ScoresAt(scores, p2));
  }

  /** Entry `i` of the top scores is entry `|p| - 1 - i` of the scores read along `p`. */
  lemma TopScoreAt(scores: seq<real>, p: seq<nat>, k: nat, i: nat)
    requires i < Min(k, |p|)
    ensures |ScoresAt(scores, TopIndices(p, k))| == Min(k, |p|)
    ensures ScoresAt(scores, TopIndices(p, k))[i] == ScoresAt(scores, p)[|p| - 1 - i]
  {
    assert TopIndices(p, k)[i] == Reverse(p)[i] == p[|p| - 1 - i];
  }

  /** The order `argsort` gives equal scores cannot change the scores that
      are shown: the top `k` scores come out the same, in the same order. */
  lemma TopScoresIgnoreTies(scores: seq<real>, p1: seq<nat>, p2: seq<nat>, k: nat)
    requires IsArgsort(scores, p1) && IsArgsort(scores, p2)
    ensures ScoresAt(scores, TopIndices(p1, k)) == ScoresAt(scores, TopIndices(p2, k))
  {
    ArgsortScores(scores, p1, p2);
    SameScoresSameTop(scores, p1, p2, k);
  }

  /** Orders that read the same scores keep the same top `k` scores. */
  lemma SameScoresSameTop(scores: seq<real>, p1: seq<nat>, p2: seq<nat>, k: nat)
    requires ScoresAt(scores, p1) == ScoresAt(scores, p2)
    ensures ScoresAt(scores, TopIndices(p1, k)) == ScoresAt(scores, TopIndices(p2, k))
  {
    var n := |p1|;
    var s1, s2 := ScoresAt(scores, TopIndices(p1, k)), ScoresAt(scores, TopIndices(p2, k));
    assert |s1| == |s2| == Min(k, n);
    forall i | 0 <= i < Min(k, n)
      ensures s1[i] == s2[i]
    {
      TopScoreAt(scores, p1, k, i);
      TopScoreAt(scores, p2, k, i);
    }
  }

  /** Without equal scores there is only one argsort, so the ranking is
      fully determined. */
  lemma DistinctScoresFixRanking(scores: seq<real>, p1: seq<nat>, p2: seq<nat>)
    requires IsArgsort(scores, p1) && IsArgsort(scores, p2)
    requires forall i, j :: 0 <= i < j < |scores| ==> scores[i] != scores[j]
    ensures p1 == p2
  {
    ArgsortScores(scores, p1, p2);
    forall i | 0 <= i < |scores|
      ensures p1[i] == p2[i]
    {
      assert ScoresAt(scores, p1)[i] == ScoresAt(scores, p2)[i];
    }
  }
}
