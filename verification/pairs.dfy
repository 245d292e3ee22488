/** The pair list of the consensus selector: one normalised pair for every two
    collected results, built by two nested loops.
 */
module Pairs {
  import opened Instants

  /** One entry of the list: the earlier member, the later member and the recorded difference. */
  datatype Pair = Pair(tm0: Instant, tm1: Instant, diff: Duration)

  /** The pair built from results `a` and `b`: swapped if `a` is after `b`, with `diff = tm1.Sub(tm0)`. */
  function MakePair(a: Instant, b: Instant): (p: Pair)
    ensures p.tm0 <= p.tm1
    ensures (p.tm0 == a && p.tm1 == b) || (p.tm0 == b && p.tm1 == a)
    ensures p.diff >= 0 && (p.diff == 0 <==> a == b)
    ensures p.tm1 - p.tm0 <= MaxDuration ==> p.diff == p.tm1 - p.tm0
    ensures p.tm1 - p.tm0 > MaxDuration ==> p.diff == MaxDuration
  {
    var tm0, tm1 := if a > b then b else a, if a > b then a else b;
    Pair(tm0, tm1, Sub(tm1, tm0))
  }

  /** Building a pair does not depend on which of the two results came first. */
  lemma MakePairSymmetric(a: Instant, b: Instant)
    ensures MakePair(a, b) == MakePair(b, a)
  {
  }

  /** The index pairs `(i, i+1), …, (i, j-1)` the inner loop of row `i` has visited when `j` is next. */
  function RowTo(i: nat, j: nat): (r: seq<(nat, nat)>)
    ensures |r| == if j <= i + 1 then 0 else j - i - 1
    ensures forall k :: 0 <= k < |r| ==> r[k] == (i, i + 1 + k)
    decreases j
  {
    if j <= i + 1 then [] else RowTo(i, j - 1) + [(i, j - 1)]
  }

  /** The index pairs of rows `0 .. i-1` over `n` results, in the order the loops visit them. */
  function Rows(n: nat, i: nat): (r: seq<(nat, nat)>)
    ensures forall k :: 0 <= k < |r| ==> r[k].0 < i && r[k].0 < r[k].1 < n
  {
    if i == 0 then [] else Rows(n, i - 1) + RowTo(i - 1, n)
  }

  /** Every index pair the nested loops over `n` results visit, in visiting order. */
  function IndexPairs(n: nat): seq<(nat, nat)>
  {
    Rows(n, n)
  }

  /** The pairs built from `res` for the index pairs `ips`, in the order of `ips`. */
  function PairsAt(res: seq<Instant>, ips: seq<(nat, nat)>): (ps: seq<Pair>)
    requires forall k :: 0 <= k < |ips| ==> ips[k].0 < |res| && ips[k].1 < |res|
    ensures |ps| == |ips|
    ensures forall k :: 0 <= k < |ps| ==> ps[k] == MakePair(res[ips[k].0], res[ips[k].1])
    decreases |ips|
  {
    if ips == [] then []
    else PairsAt(res, ips[..|ips| - 1]) + [MakePair(res[ips[|ips| - 1].0], res[ips[|ips| - 1].1])]
  }

  /** Appending an index pair appends its pair. */
  lemma PairsAtSnoc(res: seq<Instant>, ips: seq<(nat, nat)>, x: (nat, nat))
    requires forall k :: 0 <= k < |ips| ==> ips[k].0 < |res| && ips[k].1 < |res|
    requires x.0 < |res| && x.1 < |res|
    ensures PairsAt(res, ips + [x]) == PairsAt(res, ips) + [MakePair(res[x.0], res[x.1])]
  {
    assert (ips + [x])[..|ips|] == ips;
  }

  /** The list the loops build from `res`: the pair of `res[i]` and `res[j]` for each visited `(i, j)`. */
  ghost function AllPairs(res: seq<Instant>): (ps: seq<Pair>)
    ensures |ps| == |IndexPairs(|res|)|
    ensures forall k :: 0 <= k < |ps| ==> ps[k].tm0 <= ps[k].tm1 && ps[k].diff >= 0
  {
    PairsAt(res, IndexPairs(|res|))
  }

  /** The body of the inner loop: swap the two results if the first is after the second, and
      record the difference of the later minus the earlier. */
  method NormalisedPair(a: Instant, b: Instant) returns (p: Pair)
    ensures p == MakePair(a, b)
  {
    var tm0, tm1 := a, b;
    if tm0 > tm1 {
      tm0, tm1 := tm1, tm0;
    }
    p := Pair(tm0, tm1, Sub(tm1, tm0));
  }

  /** The list the loops have built from `res` once rows `0 .. i-1` are done and row `i` has
      reached column `j`. */
  ghost function Built(res: seq<Instant>, i: nat, j: nat): seq<Pair>
    requires i <= |res| && j <= |res|
  {
    PairsAt(res, Rows(|res|, i) + RowTo(i, j))
  }

  /** The inner loop's step from `j` to `j + 1` appends the pair of `res[i]` and `res[j]`. */
  lemma BuiltStep(res: seq<Instant>, i: nat, j: nat)
    requires i < j < |res|
    ensures Built(res, i, j + 1) == Built(res, i, j) + [MakePair(res[i], res[j])]
  {
    var rows, row := Rows(|res|, i), RowTo(i, j);
    assert RowTo(i, j + 1) == row + [(i, j)];
    assert rows + (row + [(i, j)]) == (rows + row) + [(i, j)];
    PairsAtSnoc(res, rows + row, (i, j));
  }

  /** Finishing row `i` is starting row `i + 1`. */
  lemma BuiltNextRow(res: seq<Instant>, i: nat)
    requires i < |res|
    ensures Built(res, i + 1, 0) == Built(res, i, |res|)
  {
    assert Rows(|res|, i + 1) + RowTo(i + 1, 0) == Rows(|res|, i) + RowTo(i, |res|);
  }

  /** The nested loops of the selector: for i < j, normalise `res[i]`, `res[j]` and append the pair. */
  method BuildPairs(res: seq<Instant>) returns (list: seq<Pair>)
    ensures list == AllPairs(res)
  {
    var n := |res|;
    list := [];
    var i := 0;
    while i < n
      invariant 0 <= i <= n
      invariant list == Built(res, i, 0)
    {
      var j := i + 1;
      assert RowTo(i, j) == RowTo(i, 0);
      while j < n
        invariant i + 1 <= j <= n
        invariant list == Built(res, i, j)
      {
        if i != j {
          var p := NormalisedPair(res[i], res[j]);
          BuiltStep(res, i, j);
          list := list + [p];
        }
        j := j + 1;
      }
      BuiltNextRow(res, i);
      i := i + 1;
    }
    assert Rows(n, n) + RowTo(n, 0) == IndexPairs(n);
  }

  /** `n` results give `n(n-1)/2` index pairs, as rows of `n-1, n-2, …, 0` pairs. */
  lemma {:induction false} RowsLength(n: nat, i: nat)
    requires i <= n
    ensures 2 * |Rows(n, i)| == i * (2 * n - i - 1)
  {
    if i > 0 {
      RowsLength(n, i - 1);
      assert |RowTo(i - 1, n)| == n - i;
      var m := 2 * n - i;
      assert (i - 1) * m == i * m - m;
      assert i * (m - 1) == i * m - i;
    }
  }

  /** Exactly `n(n-1)/2` pairs are built from `n` results. */
  lemma AllPairsLength(res: seq<Instant>)
    ensures 2 * |AllPairs(res)| == |res| * (|res| - 1)
  {
    RowsLength(|res|, |res|);
  }

  /** Lexicographic order on index pairs: the order in which the loops visit them. */
  predicate LexLess(x: (nat, nat), y: (nat, nat))
  {
    x.0 < y.0 || (x.0 == y.0 && x.1 < y.1)
  }

  /** The loops visit index pairs in strictly increasing lexicographic order. */
  lemma {:induction false} RowsIncreasing(n: nat, i: nat)
    ensures forall k1, k2 :: 0 <= k1 < k2 < |Rows(n, i)| ==> LexLess(Rows(n, i)[k1], Rows(n, i)[k2])
  {
    if i > 0 {
      RowsIncreasing(n, i - 1);
      var a, b := Rows(n, i - 1), RowTo(i - 1, n);
      assert Rows(n, i) == a + b;
      forall k1, k2 | 0 <= k1 < k2 < |a + b|
        ensures LexLess((a + b)[k1], (a + b)[k2])
      {
        if k2 < |a| {
          assert (a + b)[k1] == a[k1] && (a + b)[k2] == a[k2];
        } else if k1 < |a| {
          assert (a + b)[k1] == a[k1] && (a + b)[k2] == b[k2 - |a|];
        } else {
          assert (a + b)[k1] == b[k1 - |a|] && (a + b)[k2] == b[k2 - |a|];
        }
      }
    }
  }

  /** No index pair is visited twice, and no pair pairs an index with itself. */
  lemma IndexPairsDistinct(n: nat)
    ensures forall k1, k2 :: 0 <= k1 < k2 < |IndexPairs(n)| ==> IndexPairs(n)[k1] != IndexPairs(n)[k2]
    ensures forall k :: 0 <= k < |IndexPairs(n)| ==> IndexPairs(n)[k].0 < IndexPairs(n)[k].1 < n
  {
    RowsIncreasing(n, n);
  }

  /** Rows `0 .. i-1` contain every index pair `(a, b)` with `a < i` and `a < b < n`. */
  lemma {:induction false} RowsComplete(n: nat, i: nat, a: nat, b: nat)
    requires a < i && a < b < n
    ensures (a, b) in Rows(n, i)
  {
    var r, t := Rows(n, i - 1), RowTo(i - 1, n);
    assert Rows(n, i) == r + t;
    if a < i - 1 {
      RowsComplete(n, i - 1, a, b);
    } else {
      assert t[b - a - 1] == (a, b);
    }
  }

  /** Every entry of the list is built from two positions `i < j` of the results. */
  lemma AllPairsFromPositions(res: seq<Instant>, k: nat)
    requires k < |AllPairs(res)|
    ensures exists i, j :: 0 <= i < j < |res| && AllPairs(res)[k] == MakePair(res[i], res[j])
  {
    var ips := IndexPairs(|res|);
    assert AllPairs(res)[k] == MakePair(res[ips[k].0], res[ips[k].1]);
  }

  /** The pair of any two positions `i < j` of the results is in the list. */
  lemma AllPairsHasPositions(res: seq<Instant>, i: nat, j: nat)
    requires i < j < |res|
    ensures MakePair(res[i], res[j]) in AllPairs(res)
  {
    var ips := IndexPairs(|res|);
    RowsComplete(|res|, |res|, i, j);
    var k :| 0 <= k < |ips| && ips[k] == (i, j);
    assert AllPairs(res)[k] == MakePair(res[i], res[j]);
  }

  /** A pair of `res` is in the list if and only if it is built from two distinct positions `i < j`. */
  lemma AllPairsMembers(res: seq<Instant>, p: Pair)
    ensures p in AllPairs(res) <==> exists i, j :: 0 <= i < j < |res| && p == MakePair(res[i], res[j])
  {
    var ps := AllPairs(res);
    if p in ps {
      var k :| 0 <= k < |ps| && ps[k] == p;
      AllPairsFromPositions(res, k);
    }
    if i, j :| 0 <= i < j < |res| && p == MakePair(res[i], res[j]) {
      AllPairsHasPositions(res, i, j);
    }
  }
}
