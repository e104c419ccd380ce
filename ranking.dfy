/**
  The discrete part of ranking: `np.argsort` over a score vector, the slice
  `[-k:]` with Python's index rules, the reversal `[::-1]`, and what the
  resulting top-k positions satisfy whatever order the sort gives to ties.
 */
module Ranking {

  /** Every entry of `order` is a position below `n`. */
  predicate InRange(order: seq<nat>, n: nat) {
    forall i :: 0 <= i < |order| ==> order[i] < n
  }

  /** No position occurs twice. */
  predicate Distinct(order: seq<nat>) {
    forall i, j :: 0 <= i < j < |order| ==> order[i] != order[j]
  }

  /** `order` lists each of the positions `0 .. n - 1` exactly once. */
  predicate IsPermutationOfRange(order: seq<nat>, n: nat) {
    && |order| == n
    && InRange(order, n)
    && Distinct(order)
    && forall p :: 0 <= p < n ==> p in order
  }

  /** The scores at the listed positions never decrease. */
  predicate Ascending(scores: seq<real>, order: seq<nat>) {
    && InRange(order, |scores|)
    && forall i, j :: 0 <= i < j < |order| ==> scores[order[i]] <= scores[order[j]]
  }

  /** The scores at the listed positions never increase. */
  predicate Descending(scores: seq<real>, order: seq<nat>) {
    && InRange(order, |scores|)
    && forall i, j :: 0 <= i < j < |order| ==> scores[order[i]] >= scores[order[j]]
  }

  /** What `np.argsort(scores)` promises: the positions of `scores` ordered
      by ascending score. Ties may come in any order. */
  predicate IsArgSort(scores: seq<real>, order: seq<nat>) {
    IsPermutationOfRange(order, |scores|) && Ascending(scores, order)
  }

  /** Insert position `x` into `sorted`, keeping the scores ascending. */
  function Insert(scores: seq<real>, sorted: seq<nat>, x: nat): (r: seq<nat>)
    requires x < |scores| && Ascending(scores, sorted)
    ensures |r| == |sorted| + 1
    ensures Ascending(scores, r)
    ensures forall y :: y in r <==> y in sorted || y == x
    ensures Distinct(sorted) && x !in sorted ==> Distinct(r)
    decreases |sorted|
  {
    if sorted == [] then [x]
    else if scores[x] <= scores[sorted[0]] then
      AscendingCons(scores, x, sorted);
      [x] + sorted
    else
      var rest := Insert(scores, sorted[1..], x);
      InsertBehindHead(scores, sorted, x, rest);
      [sorted[0]] + rest
  }

  /** The recursive step of `Insert`: when `x` scores above the head, the
      head stays in front of the insertion into the tail. */
  lemma InsertBehindHead(scores: seq<real>, sorted: seq<nat>, x: nat, rest: seq<nat>)
    requires x < |scores| && Ascending(scores, sorted) && sorted != []
    requires scores[sorted[0]] < scores[x]
    requires |rest| == |sorted| && Ascending(scores, rest)
    requires forall y :: y in rest <==> y in sorted[1..] || y == x
    requires Distinct(sorted[1..]) && x !in sorted[1..] ==> Distinct(rest)
    ensures var r := [sorted[0]] + rest;
            && Ascending(scores, r)
            && (forall y :: y in r <==> y in sorted || y == x)
            && (Distinct(sorted) && x !in sorted ==> Distinct(r))
  {
    var h := sorted[0];
    HeadIsLeast(scores, sorted);
    assert forall y :: y in sorted <==> y == h || y in sorted[1..] by {
      assert sorted == [h] + sorted[1..];
    }
    AscendingCons(scores, h, rest);
    assert Distinct(sorted) ==> h !in sorted[1..];
  }

  /** The head of an ascending list scores no more than anything in it. */
  lemma HeadIsLeast(scores: seq<real>, sorted: seq<nat>)
    requires Ascending(scores, sorted) && sorted != []
    ensures forall y :: y in sorted[1..] ==> scores[sorted[0]] <= scores[y]
  {
    forall y | y in sorted[1..] ensures scores[sorted[0]] <= scores[y] {
      var k :| 0 <= k < |sorted[1..]| && sorted[1..][k] == y;
      assert sorted[k + 1] == y;
    }
  }

  /** A position that scores no more than everything in an ascending list
      can go in front of it. */
  lemma AscendingCons(scores: seq<real>, h: nat, rest: seq<nat>)
    requires h < |scores| && Ascending(scores, rest)
    requires forall y :: y in rest ==> scores[h] <= scores[y]
    ensures Ascending(scores, [h] + rest)
  {
    var r := [h] + rest;
    forall i, j | 0 <= i < j < |r| ensures scores[r[i]] <= scores[r[j]] {
      assert r[j] == rest[j - 1];
      assert rest[j - 1] in rest;
      if i > 0 {
        assert r[i] == rest[i - 1];
      }
    }
  }

  /** An ascending ordering of the positions `0 .. n - 1`. */
  function ArgSortPrefix(scores: seq<real>, n: nat): (order: seq<nat>)
    requires n <= |scores|
    ensures IsPermutationOfRange(order, n) && Ascending(scores, order)
  {
    if n == 0 then []
    else
      var prev := ArgSortPrefix(scores, n - 1);
      assert n - 1 !in prev;
      var order := Insert(scores, prev, n - 1);
      assert forall i :: 0 <= i < |order| ==> order[i] in order;
      assert forall p :: 0 <= p < n - 1 ==> p in prev;
      order
  }

  /** One valid `np.argsort(scores)`; insertion order decides its ties. */
  function ArgSort(scores: seq<real>): (order: seq<nat>)
    ensures IsArgSort(scores, order)
  {
    ArgSortPrefix(scores, |scores|)
  }

  /** Where the slice `a[start:]` begins in a sequence of length `n`, by
      Python's rules: a negative start counts from the end, and a start
      outside the sequence is clamped to it. */
  function SliceStart(start: int, n: nat): (b: nat)
    ensures b <= n
  {
    if start < 0 then (if start + n < 0 then 0 else start + n)
    else if start > n then n
    else start
  }

  /** Python's `a[start:]`. */
  function SliceFrom<T>(a: seq<T>, start: int): (r: seq<T>)
    ensures |r| <= |a| && r == a[|a| - |r|..]
    ensures 0 <= start ==> |r| == if start < |a| then |a| - start else 0
    ensures start < 0 ==> |r| == if -start < |a| then -start else |a|
  {
    a[SliceStart(start, |a|)..]
  }

  /** Python's `a[::-1]`. */
  function Reverse<T>(a: seq<T>): (r: seq<T>)
    ensures |r| == |a|
    ensures forall i :: 0 <= i < |a| ==> r[i] == a[|a| - 1 - i]
  {
    if a == [] then [] else [a[|a| - 1]] + Reverse(a[..|a| - 1])
  }

  /** How many results `[-k:]` keeps of `n`: all of them for `k == 0`
      (since `-0 == 0`), at most `k` for positive `k`, and for negative `k`
      all but the first `-k`. */
  function ResultCount(n: nat, k: int): (count: nat)
    ensures count <= n
  {
    if k == 0 then n
    else if k > 0 then (if k < n then k else n)
    else (if n + k > 0 then n + k else 0)
  }

  /** `ResultCount` is the length of `a[-k:]`, as Python's slice rules give it. */
  lemma SliceKeepsResultCount<T>(a: seq<T>, k: int)
    ensures |SliceFrom(a, -k)| == ResultCount(|a|, k)
  { }

  /** `np.argsort(scores)[-k:][::-1]` for the argsort `order`. */
  function TopPositions(order: seq<nat>, k: int): (top: seq<nat>)
    ensures |top| == ResultCount(|order|, k)
    ensures forall i :: 0 <= i < |top| ==> top[i] == order[|order| - 1 - i]
  {
    Reverse(SliceFrom(order, -k))
  }

  /** Every position left out scores no more than any position selected. */
  predicate Dominates(scores: seq<real>, selected: seq<nat>) {
    && InRange(selected, |scores|)
    && forall i, p :: 0 <= i < |selected| && 0 <= p < |scores| && p !in selected ==>
         scores[p] <= scores[selected[i]]
  }

  /** `selected` names distinct positions of `scores`, highest score first,
      and no position left out beats one that was selected. */
  predicate IsTopSelection(scores: seq<real>, selected: seq<nat>) {
    && InRange(selected, |scores|)
    && Distinct(selected)
    && Descending(scores, selected)
    && Dominates(scores, selected)
  }

  /** Whatever valid argsort is used, the positions `[-k:][::-1]` picks are a
      top selection; for `k >= 1` there are `min(k, n)` of them, for `k == 0`
      all `n`. */
  lemma TopPositionsAreTop(scores: seq<real>, order: seq<nat>, k: int)
    requires IsArgSort(scores, order)
    ensures IsTopSelection(scores, TopPositions(order, k))
    ensures k >= 1 ==> |TopPositions(order, k)| == if k < |scores| then k else |scores|
    ensures k == 0 ==> |TopPositions(order, k)| == |scores|
  {
    TopDistinctDescending(scores, order, k);
    TopDominates(scores, order, k);
  }

  /** The selected positions are distinct and read off highest score first. */
  lemma TopDistinctDescending(scores: seq<real>, order: seq<nat>, k: int)
    requires IsArgSort(scores, order)
    ensures var top := TopPositions(order, k);
            InRange(top, |scores|) && Distinct(top) && Descending(scores, top)
  {
    var top := TopPositions(order, k);
    assert forall i :: 0 <= i < |top| ==> top[i] == order[|order| - 1 - i];
  }

  /** No position outside the selection scores above one inside it. */
  lemma TopDominates(scores: seq<real>, order: seq<nat>, k: int)
    requires IsArgSort(scores, order)
    ensures Dominates(scores, TopPositions(order, k))
  {
    TopHoldsTail(order, k);
    TailDominates(scores, order, TopPositions(order, k));
  }

  /** The last entries of an argsort, read backwards, dominate the rest. */
  lemma TailDominates(scores: seq<real>, order: seq<nat>, top: seq<nat>)
    requires IsArgSort(scores, order) && |top| <= |order|
    requires forall i :: 0 <= i < |top| ==> top[i] == order[|order| - 1 - i]
    requires forall q :: |order| - |top| <= q < |order| ==> order[q] in top
    ensures Dominates(scores, top)
  {
    var n := |scores|;
    var b := n - |top|;
    forall p | 0 <= p < n && p !in top ensures exists q :: 0 <= q < b && order[q] == p {
      assert p in order;
      var q :| 0 <= q < n && order[q] == p;
    }
    forall i, p | 0 <= i < |top| && 0 <= p < n && p !in top ensures scores[p] <= scores[top[i]] {
      var q :| 0 <= q < b && order[q] == p;
      assert q < n - 1 - i;
    }
  }

  /** The selected positions are the last `|top|` entries of the argsort. */
  lemma TopHoldsTail(order: seq<nat>, k: int)
    ensures var top := TopPositions(order, k);
            forall q :: |order| - |top| <= q < |order| ==> order[q] in top
  {
    var top := TopPositions(order, k);
    forall q | |order| - |top| <= q < |order| ensures order[q] in top {
      assert top[|order| - 1 - q] == order[q];
    }
  }

  // ----- the selected scores do not depend on how ties are broken -----

  /** The scores read off along `order`. */
  function ScoresAlong(scores: seq<real>, order: seq<nat>): (r: seq<real>)
    requires InRange(order, |scores|)
    ensures |r| == |order|
  {
    seq(|order|, i requires 0 <= i < |order| => scores[order[i]])
  }

  /** The set of the first `m` entries of `s`. */
  function PrefixSet(s: seq<nat>, m: nat): set<nat>
    requires m <= |s|
  {
    set t | 0 <= t < m :: s[t]
  }

  /** The first `m` entries name at most `m` positions, and exactly `m` when
      they are distinct. */
  lemma {:induction false} PrefixSetSize(s: seq<nat>, m: nat)
    requires m <= |s|
    ensures |PrefixSet(s, m)| <= m
    ensures Distinct(s) ==> |PrefixSet(s, m)| == m
  {
    if m > 0 {
      PrefixSetSize(s, m - 1);
      assert PrefixSet(s, m) == PrefixSet(s, m - 1) + {s[m - 1]};
      if Distinct(s) {
        assert s[m - 1] !in PrefixSet(s, m - 1);
      }
    }
  }

  /** Two valid argsorts read off the same scores at every rank. */
  lemma ArgSortScoresAgree(scores: seq<real>, o1: seq<nat>, o2: seq<nat>)
    requires IsArgSort(scores, o1) && IsArgSort(scores, o2)
    ensures ScoresAlong(scores, o1) == ScoresAlong(scores, o2)
  {
    forall q | 0 <= q < |scores| ensures scores[o1[q]] == scores[o2[q]] {
      RankScoreBound(scores, o1, o2, q);
      RankScoreBound(scores, o2, o1, q);
    }
  }

  /** The score at rank `q` of one argsort is no smaller than at rank `q` of
      another: otherwise `q + 1` positions would fit into `q` places. */
  lemma RankScoreBound(scores: seq<real>, o1: seq<nat>, o2: seq<nat>, q: nat)
    requires IsArgSort(scores, o1) && IsArgSort(scores, o2) && q < |scores|
    ensures scores[o2[q]] <= scores[o1[q]]
  {
    if scores[o1[q]] < scores[o2[q]] {
      var a := PrefixSet(o1, q + 1);
      var b := PrefixSet(o2, q);
      forall x | x in a ensures x in b {
        var t :| 0 <= t < q + 1 && o1[t] == x;
        assert x in o2;
        var u :| 0 <= u < |scores| && o2[u] == x;
        assert scores[x] <= scores[o1[q]] < scores[o2[q]];
        assert u < q;
      }
      PrefixSetSize(o1, q + 1);
      PrefixSetSize(o2, q);
      SubsetSize(a, b);
    }
  }

  lemma SubsetSize(a: set<nat>, b: set<nat>)
    requires a <= b
    ensures |a| <= |b|
  {
    assert b == a + (b - a);
  }

  /** The top-k scores, in order, are the same for every valid argsort: only
      which of several equally scored positions is reported can differ. */
  lemma TopScoresIgnoreTies(scores: seq<real>, o1: seq<nat>, o2: seq<nat>, k: int)
    requires IsArgSort(scores, o1) && IsArgSort(scores, o2)
    ensures var t1, t2 := TopPositions(o1, k), TopPositions(o2, k);
            |t1| == |t2| && forall i :: 0 <= i < |t1| ==> scores[t1[i]] == scores[t2[i]]
  {
    ArgSortScoresAgree(scores, o1, o2);
    var n := |scores|;
    forall j | 0 <= j < n ensures scores[o1[j]] == scores[o2[j]] {
      assert ScoresAlong(scores, o1)[j] == ScoresAlong(scores, o2)[j];
    }
    SameTailScores(scores, o1, o2, TopPositions(o1, k), TopPositions(o2, k));
  }

  /** Equally long tails, read backwards, of two orders that agree on the
      score at every rank agree on the score at every rank too. */
  lemma SameTailScores(scores: seq<real>, o1: seq<nat>, o2: seq<nat>, t1: seq<nat>, t2: seq<nat>)
    requires |o1| == |o2| == |scores| && InRange(o1, |scores|) && InRange(o2, |scores|)
    requires forall j :: 0 <= j < |scores| ==> scores[o1[j]] == scores[o2[j]]
    requires |t1| == |t2| <= |scores|
    requires forall i :: 0 <= i < |t1| ==> t1[i] == o1[|o1| - 1 - i]
    requires forall i :: 0 <= i < |t2| ==> t2[i] == o2[|o2| - 1 - i]
    ensures forall i :: 0 <= i < |t1| ==> scores[t1[i]] == scores[t2[i]]
  {
  }
}
