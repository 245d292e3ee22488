/** The monotonic clamp: the process-wide running estimate `rtime`, which a new
    candidate replaces only when it is strictly later, so that the values handed
    back to callers never go backward.
 */
module Clamp {
  import opened Instants

  /** The running estimate after offering `c`: `c` if it is after `prev`, else `prev`. */
  function Advance(prev: Instant, c: Instant): (r: Instant)
    ensures prev <= r && c <= r
    ensures r == prev || r == c
  {
    if c > prev then c else prev
  }

  /** The process-wide running estimate. */
  class RunningEstimate {
    var rtime: Instant

    /** At process start the running estimate is the zero time. */
    constructor ()
      ensures rtime == Zero
    {
      rtime := Zero;
    }

    /** Replaces the running estimate by `candidate` if that is strictly later, and returns it. */
    method Clamp(candidate: Instant) returns (r: Instant)
      modifies this
      ensures rtime == Advance(old(rtime), candidate)
      ensures r == rtime
      ensures old(rtime) <= r && candidate <= r
    {
      if candidate > rtime {
        rtime := candidate;
      }
      r := rtime;
    }
  }

  /** The values returned by successive clamps of `cands`, starting from the running estimate `r0`. */
  function Returns(r0: Instant, cands: seq<Instant>): (rs: seq<Instant>)
    ensures |rs| == |cands|
    decreases |cands|
  {
    if cands == [] then [] else [Advance(r0, cands[0])] + Returns(Advance(r0, cands[0]), cands[1..])
  }

  /** Successive returns never go backward, and never below the estimate they started from. */
  lemma {:induction false} ReturnsNonDecreasing(r0: Instant, cands: seq<Instant>)
    ensures forall i :: 0 <= i < |cands| ==> r0 <= Returns(r0, cands)[i]
    ensures forall i, j :: 0 <= i <= j < |cands| ==> Returns(r0, cands)[i] <= Returns(r0, cands)[j]
    decreases |cands|
  {
    if cands != [] {
      var r1 := Advance(r0, cands[0]);
      ReturnsNonDecreasing(r1, cands[1..]);
      var rs, tail := Returns(r0, cands), Returns(r1, cands[1..]);
      assert forall i :: 1 <= i < |rs| ==> rs[i] == tail[i - 1];
    }
  }

  /** Each return is the latest of the starting estimate and every candidate offered so far. */
  lemma {:induction false} ReturnsIsRunningMax(r0: Instant, cands: seq<Instant>)
    ensures forall i, k :: 0 <= k <= i < |cands| ==> cands[k] <= Returns(r0, cands)[i]
    ensures forall i :: 0 <= i < |cands| ==>
      Returns(r0, cands)[i] == r0 || exists k :: 0 <= k <= i && Returns(r0, cands)[i] == cands[k]
    decreases |cands|
  {
    if cands != [] {
      var r1 := Advance(r0, cands[0]);
      ReturnsIsRunningMax(r1, cands[1..]);
      ReturnsNonDecreasing(r1, cands[1..]);
      var rs, tail := Returns(r0, cands), Returns(r1, cands[1..]);
      assert forall i :: 1 <= i < |rs| ==> rs[i] == tail[i - 1];
      forall i | 1 <= i < |cands|
        ensures rs[i] == r0 || exists k :: 0 <= k <= i && rs[i] == cands[k]
      {
        if rs[i] == r1 {
          assert rs[i] == r0 || rs[i] == cands[0];
        } else {
          var k :| 0 <= k <= i - 1 && tail[i - 1] == cands[1..][k];
          assert rs[i] == cands[k + 1];
        }
      }
    }
  }

  /** The running estimate left behind by successive clamps of `cands`, starting from `r0`. */
  function Final(r0: Instant, cands: seq<Instant>): Instant
  {
    if cands == [] then r0 else Returns(r0, cands)[|cands| - 1]
  }

  /** One more clamp appends its return, computed from the estimate the earlier clamps left. */
  lemma {:induction false} ReturnsSnoc(r0: Instant, cands: seq<Instant>, x: Instant)
    ensures Returns(r0, cands + [x]) == Returns(r0, cands) + [Advance(Final(r0, cands), x)]
    decreases |cands|
  {
    if cands != [] {
      var r1 := Advance(r0, cands[0]);
      assert (cands + [x])[1..] == cands[1..] + [x];
      ReturnsSnoc(r1, cands[1..], x);
      if |cands| > 1 {
        assert Returns(r0, cands)[|cands| - 1] == Returns(r1, cands[1..])[|cands| - 2];
      }
    }
  }

  /** Successive calls on one running estimate, one per candidate: the values handed back are
      `Returns(old rtime, cands)`, so by `ReturnsNonDecreasing` they never go backward. */
  method ClampSuccessive(est: RunningEstimate, cands: seq<Instant>) returns (outs: seq<Instant>)
    modifies est
    ensures outs == Returns(old(est.rtime), cands)
    ensures est.rtime == Final(old(est.rtime), cands)
  {
    outs := [];
    var i := 0;
    while i < |cands|
      invariant 0 <= i <= |cands|
      invariant outs == Returns(old(est.rtime), cands[..i])
      invariant est.rtime == Final(old(est.rtime), cands[..i])
    {
      var r := est.Clamp(cands[i]);
      ReturnsSnoc(old(est.rtime), cands[..i], cands[i]);
      assert cands[..i + 1] == cands[..i] + [cands[i]];
      outs := outs + [r];
      i := i + 1;
    }
    assert cands[..i] == cands;
  }
}
