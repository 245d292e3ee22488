/** The consensus selector: among all pairs of collected results, the pair that
    sorts first under the comparator (smallest recorded difference, then the
    earlier `tm0`) wins, and its earlier member is the candidate estimate.
 */
module Selector {
  import opened Instants
  import opened Pairs

  /** The comparator handed to `sort.Slice`: the smaller difference first, then the earlier `tm0`. */
  predicate Less(p: Pair, q: Pair)
  {
    p.diff < q.diff || (p.diff == q.diff && p.tm0 < q.tm0)
  }

  /** The comparator is a strict order on pairs, and two pairs tie exactly when they have the same
      `diff` and the same `tm0`. */
  lemma LessOrdersKeys(p: Pair, q: Pair, r: Pair)
    ensures !Less(p, p)
    ensures Less(p, q) ==> !Less(q, p)
    ensures Less(p, q) && Less(q, r) ==> Less(p, r)
    ensures (!Less(p, q) && !Less(q, p)) <==> (p.diff == q.diff && p.tm0 == q.tm0)
  {
  }

  /** What `sort.Slice` promises of its result: no element sorts before an earlier one. */
  ghost predicate IsSorted(s: seq<Pair>)
  {
    forall i, j :: 0 <= i < j < |s| ==> !Less(s[j], s[i])
  }

  /** The sort followed by `list[0]`, as a scan: the first position holding a pair that nothing sorts before. */
  method SelectFirst(list: seq<Pair>) returns (k: nat)
    requires |list| > 0
    ensures k < |list|
    ensures forall m :: 0 <= m < |list| ==> !Less(list[m], list[k])
    ensures forall m :: 0 <= m < k ==> Less(list[k], list[m])
  {
    k := 0;
    var m := 1;
    while m < |list|
      invariant 1 <= m <= |list| && k < m
      invariant forall m' :: 0 <= m' < m ==> !Less(list[m'], list[k])
      invariant forall m' :: 0 <= m' < k ==> Less(list[k], list[m'])
    {
      if Less(list[m], list[k]) {
        k := m;
      }
      m := m + 1;
    }
  }

  /** Whatever order an unstable sort leaves equal elements in, the head of any sorted
      permutation of the list has the same difference and the same `tm0` as the pair the scan finds. */
  lemma SortedHeadMatchesScan(list: seq<Pair>, sorted: seq<Pair>, k: nat)
    requires k < |list|
    requires forall m :: 0 <= m < |list| ==> !Less(list[m], list[k])
    requires multiset(sorted) == multiset(list)
    requires IsSorted(sorted)
    ensures |sorted| == |list|
    ensures sorted[0].diff == list[k].diff && sorted[0].tm0 == list[k].tm0
  {
    assert |sorted| == |multiset(sorted)| == |multiset(list)| == |list|;
    assert list[k] in multiset(sorted);
    var s :| 0 <= s < |sorted| && sorted[s] == list[k];
    assert !Less(list[k], sorted[0]);
    assert sorted[0] in multiset(list);
    var m :| 0 <= m < |list| && list[m] == sorted[0];
    assert !Less(sorted[0], list[k]);
  }

  /** Whatever order `sort.Slice` leaves the pair list in, its head carries the chosen candidate:
      sorting all pairs and taking `list[0].tm0` yields exactly `Chosen`. */
  lemma SortedPairsHeadIsChosen(res: seq<Instant>, sorted: seq<Pair>, c: Instant)
    requires multiset(sorted) == multiset(AllPairs(res))
    requires IsSorted(sorted)
    requires Chosen(res, c)
    ensures |sorted| > 0 && sorted[0].tm0 == c
  {
    var list := AllPairs(res);
    var p :| IsClosest(res, p) && c == p.tm0;
    AllPairsMembers(res, p);
    var k :| 0 <= k < |list| && list[k] == p;
    forall m | 0 <= m < |list|
      ensures !Less(list[m], list[k])
    {
      AllPairsMembers(res, list[m]);
    }
    SortedHeadMatchesScan(list, sorted, k);
  }

  /** `p` is built from two distinct positions `i < j` of `res`. */
  ghost predicate IsPairOf(res: seq<Instant>, p: Pair)
  {
    exists i, j :: 0 <= i < j < |res| && p == MakePair(res[i], res[j])
  }

  /** `p` is a pair of `res` and no pair of `res` sorts before it. */
  ghost predicate IsClosest(res: seq<Instant>, p: Pair)
  {
    IsPairOf(res, p) && forall i, j :: 0 <= i < j < |res| ==> !Less(MakePair(res[i], res[j]), p)
  }

  /** `c` is the earlier member of a pair of `res` that no pair sorts before. */
  ghost predicate Chosen(res: seq<Instant>, c: Instant)
  {
    exists p :: IsClosest(res, p) && c == p.tm0
  }

  /** Builds every pair, finds the first under the comparator and takes its `tm0`. */
  method Select(res: seq<Instant>) returns (candidate: Instant)
    requires |res| >= 2
    ensures Chosen(res, candidate)
    ensures exists i, j :: 0 <= i < |res| && 0 <= j < |res| && i != j && candidate == res[i] <= res[j]
  {
    var list := BuildPairs(res);
    AllPairsLength(res);
    assert |list| > 0 by {
      assert 2 * |list| == |res| * (|res| - 1) >= 2;
    }
    var k := SelectFirst(list);
    var best := list[k];
    AllPairsMembers(res, best);
    forall i, j | 0 <= i < j < |res|
      ensures !Less(MakePair(res[i], res[j]), best)
    {
      AllPairsMembers(res, MakePair(res[i], res[j]));
    }
    assert IsClosest(res, best);
    candidate := best.tm0;
  }

  /** Two pairs that nothing sorts before have the same difference and the same earlier member. */
  lemma ClosestKeyUnique(res: seq<Instant>, p: Pair, q: Pair)
    requires IsClosest(res, p) && IsClosest(res, q)
    ensures p.diff == q.diff && p.tm0 == q.tm0
  {
    var i, j :| 0 <= i < j < |res| && p == MakePair(res[i], res[j]);
    var i', j' :| 0 <= i' < j' < |res| && q == MakePair(res[i'], res[j']);
    assert !Less(p, q) && !Less(q, p);
  }

  /** The selection is deterministic: a result set has at most one chosen estimate. */
  lemma ChosenIsUnique(res: seq<Instant>, c1: Instant, c2: Instant)
    requires Chosen(res, c1) && Chosen(res, c2)
    ensures c1 == c2
  {
    var p1 :| IsClosest(res, p1) && c1 == p1.tm0;
    var p2 :| IsClosest(res, p2) && c2 == p2.tm0;
    ClosestKeyUnique(res, p1, p2);
  }

  /** Positions `i < j` holding the same value make that value occur at least twice. */
  lemma TwoPositionsCount(s: seq<Instant>, i: nat, j: nat)
    requires i < j < |s| && s[i] == s[j]
    ensures multiset(s)[s[i]] >= 2
  {
    assert s == s[..j] + s[j..];
    assert s[i] in s[..j];
    assert s[j..][0] == s[j];
  }

  /** A value that occurs at least twice sits at two positions `i < j`. */
  lemma {:induction false} CountTwoPositions(s: seq<Instant>, v: Instant)
    requires multiset(s)[v] >= 2
    ensures exists i, j :: 0 <= i < j < |s| && s[i] == v && s[j] == v
  {
    var n := |s|;
    var init, last := s[..n - 1], s[n - 1];
    assert s == init + [last];
    if multiset(init)[v] >= 2 {
      CountTwoPositions(init, v);
      var i, j :| 0 <= i < j < |init| && init[i] == v && init[j] == v;
      assert s[i] == v && s[j] == v;
    } else {
      assert last == v && v in multiset(init);
      var i :| 0 <= i < |init| && init[i] == v;
      assert s[i] == v && s[n - 1] == v;
    }
  }

  /** Reordering the results keeps the set of pairs. */
  lemma PairOfPermutation(res: seq<Instant>, res': seq<Instant>, p: Pair)
    requires multiset(res) == multiset(res')
    requires IsPairOf(res, p)
    ensures IsPairOf(res', p)
  {
    var i, j :| 0 <= i < j < |res| && p == MakePair(res[i], res[j]);
    var a, b := res[i], res[j];
    if a == b {
      TwoPositionsCount(res, i, j);
      CountTwoPositions(res', a);
      var i', j' :| 0 <= i' < j' < |res'| && res'[i'] == a && res'[j'] == a;
      assert p == MakePair(res'[i'], res'[j']);
    } else {
      assert a in multiset(res') && b in multiset(res');
      var i' :| 0 <= i' < |res'| && res'[i'] == a;
      var j' :| 0 <= j' < |res'| && res'[j'] == b;
      if i' < j' {
        assert p == MakePair(res'[i'], res'[j']);
      } else {
        MakePairSymmetric(a, b);
        assert p == MakePair(res'[j'], res'[i']);
      }
    }
  }

  /** The candidate does not depend on the order in which the results arrived. */
  lemma ChosenIgnoresOrder(res: seq<Instant>, res': seq<Instant>, c: Instant)
    requires multiset(res) == multiset(res')
    requires Chosen(res, c)
    ensures Chosen(res', c)
  {
    var p :| IsClosest(res, p) && c == p.tm0;
    PairOfPermutation(res, res', p);
    forall i', j' | 0 <= i' < j' < |res'|
      ensures !Less(MakePair(res'[i'], res'[j']), p)
    {
      var q := MakePair(res'[i'], res'[j']);
      PairOfPermutation(res', res, q);
      var i, j :| 0 <= i < j < |res| && q == MakePair(res[i], res[j]);
    }
    assert IsClosest(res', p);
  }

  /** Distance between two instants. */
  function Dist(a: Instant, b: Instant): nat
  {
    if a <= b then b - a else a - b
  }

  /** A pair's recorded difference is the distance between its members while that fits a Duration. */
  lemma DiffIsDist(a: Instant, b: Instant)
    requires Dist(a, b) <= MaxDuration
    ensures MakePair(a, b).diff == Dist(a, b)
  {
  }

  /** No pair of `res` is closer than the one at `i, j`, and none as close starts earlier. */
  ghost predicate NoCloserPair(res: seq<Instant>, i: nat, j: nat)
    requires i < |res| && j < |res|
  {
    forall i', j' :: 0 <= i' < j' < |res| ==>
      Dist(res[i], res[j]) < Dist(res[i'], res[j']) ||
      (Dist(res[i], res[j]) == Dist(res[i'], res[j']) &&
       MakePair(res[i], res[j]).tm0 <= MakePair(res[i'], res[j']).tm0)
  }

  /** While every two results lie within the range of a Duration, the recorded differences are the
      true distances: the candidate is the earlier member of a closest pair, and among closest pairs
      of the one whose earlier member is earliest. */
  lemma ChosenIsClosestPair(res: seq<Instant>, c: Instant)
    requires forall i, j :: 0 <= i < j < |res| ==> Dist(res[i], res[j]) <= MaxDuration
    requires Chosen(res, c)
    ensures exists i, j :: 0 <= i < j < |res| && c == MakePair(res[i], res[j]).tm0 && NoCloserPair(res, i, j)
  {
    var p :| IsClosest(res, p) && c == p.tm0;
    var i, j :| 0 <= i < j < |res| && p == MakePair(res[i], res[j]);
    DiffIsDist(res[i], res[j]);
    forall i', j' | 0 <= i' < j' < |res|
      ensures Dist(res[i], res[j]) < Dist(res[i'], res[j']) ||
        (Dist(res[i], res[j]) == Dist(res[i'], res[j']) && p.tm0 <= MakePair(res[i'], res[j']).tm0)
    {
      DiffIsDist(res[i'], res[j']);
      assert !Less(MakePair(res[i'], res[j']), p);
    }
    assert NoCloserPair(res, i, j);
  }

  /** Three sources at T, T+1s and T+10s: the close pair (T, T+1s) wins and T is the candidate,
      whatever the order of arrival. */
  lemma ClosestPairWins(t: Instant, res: seq<Instant>)
    requires multiset(res) == multiset{t, t + Second, t + 10 * Second}
    ensures Chosen(res, t)
    ensures forall c :: Chosen(res, c) ==> c == t
  {
    var s := [t, t + Second, t + 10 * Second];
    assert multiset(s) == multiset{t, t + Second, t + 10 * Second};
    var p := MakePair(s[0], s[1]);
    forall i, j | 0 <= i < j < |s|
      ensures !Less(MakePair(s[i], s[j]), p)
    {
    }
    assert IsClosest(s, p);
    ChosenIgnoresOrder(s, res, t);
    forall c | Chosen(res, c)
      ensures c == t
    {
      ChosenIsUnique(res, c, t);
    }
  }

  /** Two equally close pairs, (T, T+1s) and (T+1s, T+2s): the pair with the earlier start wins. */
  lemma EarlierPairWinsTie(t: Instant)
    ensures Chosen([t + 2 * Second, t + Second, t], t)
  {
    var s := [t + 2 * Second, t + Second, t];
    var p := MakePair(s[1], s[2]);
    forall i, j | 0 <= i < j < |s|
      ensures !Less(MakePair(s[i], s[j]), p)
    {
    }
    assert IsClosest(s, p);
  }

  const Year: int := 365 * 24 * 3600 * Second

  /** Beyond the range of a Duration every difference saturates to the same value and the
      comparator falls back on `tm0`: for results at 0, 400 and 700 years the candidate is 0,
      although the closest pair is the one 300 years apart. */
  lemma SaturatedDifferencesTie()
    ensures Chosen([0, 400 * Year, 700 * Year], 0)
    ensures Dist(400 * Year, 700 * Year) < Dist(0, 400 * Year)
  {
    var s := [0, 400 * Year, 700 * Year];
    var p := MakePair(s[0], s[1]);
    forall i, j | 0 <= i < j < |s|
      ensures !Less(MakePair(s[i], s[j]), p)
    {
    }
    assert IsClosest(s, p);
  }
}
