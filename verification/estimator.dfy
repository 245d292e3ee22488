/** The body of `Now` after the probes are launched: at every wake-up the loop
    either selects from a quorum of results, gives up once the deadline has
    fired, or waits. The probes, the timer and the condition variable are
    represented only by what the loop observes at each wake-up.
 */
module Estimator {
  import opened Instants
  import opened Selector
  import opened Clamp

  /** The minimum number of collected results before a selection is made. */
  const Quorum: nat := 3

  /** What one wake-up of the loop does. */
  datatype Action = Select | GiveUp | Wait

  /** The decision at a wake-up with `count` results collected: the quorum check comes first,
      then the deadline. */
  function Decide(count: nat, timedout: bool): (a: Action)
    ensures a == Select <==> count >= Quorum
    ensures a == GiveUp <==> count < Quorum && timedout
    ensures a == Wait <==> count < Quorum && !timedout
  {
    if count >= Quorum then Select
    else if timedout then GiveUp
    else Wait
  }

  /** What the loop observes at one wake-up: the results collected so far and whether the
      deadline has fired. */
  datatype Snapshot = Snapshot(res: seq<Instant>, timedout: bool)

  /** One call of `Now`, given the snapshots observed at its successive wake-ups (the deadline
      always fires, so the last one has timed out). Returns the time handed back and the index of
      the wake-up at which the loop returned. */
  method Now(est: RunningEstimate, wakes: seq<Snapshot>) returns (t: Instant, k: nat)
    requires |wakes| > 0 && wakes[|wakes| - 1].timedout
    modifies est
    ensures k < |wakes|
    ensures forall m :: 0 <= m < k ==> Decide(|wakes[m].res|, wakes[m].timedout) == Wait
    ensures Decide(|wakes[k].res|, wakes[k].timedout) == Select ==>
      exists c :: Chosen(wakes[k].res, c) && est.rtime == Advance(old(est.rtime), c) && t == est.rtime
    ensures Decide(|wakes[k].res|, wakes[k].timedout) == GiveUp ==>
      t == Zero && est.rtime == old(est.rtime)
    ensures Decide(|wakes[k].res|, wakes[k].timedout) != Wait
  {
    k := 0;
    while Decide(|wakes[k].res|, wakes[k].timedout) == Wait
      invariant k < |wakes|
      invariant forall m :: 0 <= m < k ==> Decide(|wakes[m].res|, wakes[m].timedout) == Wait
      decreases |wakes| - k
    {
      k := k + 1;
    }
    var snapshot := wakes[k];
    if |snapshot.res| >= Quorum {
      var candidate := Selector.Select(snapshot.res);
      t := est.Clamp(candidate);
    } else {
      t := Zero;
    }
  }
}
