/** The control process with the low-pass velocity law.

    During the cruise every received window sum is averaged and drives an
    exponential low-pass filter whose output is the forward velocity: a
    clear path pulls it toward the maximum velocity, an obstacle toward 0. */
module DynControl {
  import opened Mission

  /** Maximum forward velocity (m/s). */
  const VelMax: real := 0.40

  /** Filter coefficient: the weight of the new target against the previous velocity. */
  const Alpha: real := 0.85

  /** The obstacle probability a received window sum stands for. */
  function Average(msg: real): real {
    msg / WindowLength
  }

  /** One step of the filter: the next velocity moves from `vPrev` toward
      the target (1 - inference) * VelMax, closing the fraction `alpha` of
      the gap. */
  function Velocity(vPrev: real, alpha: real, inference: real): (v: real)
    ensures v - (1.0 - inference) * VelMax == (1.0 - alpha) * (vPrev - (1.0 - inference) * VelMax)
  {
    (1.0 - alpha) * vPrev + alpha * (1.0 - inference) * VelMax
  }

  /** With coefficient and probability in [0, 1], the next velocity is a
      convex combination of the previous one and the target, so it stays
      between them and never leaves [0, VelMax]. */
  lemma VelocityConvex(vPrev: real, alpha: real, inference: real)
    requires 0.0 <= alpha <= 1.0 && 0.0 <= inference <= 1.0 && 0.0 <= vPrev <= VelMax
    ensures 0.0 <= Velocity(vPrev, alpha, inference) <= VelMax
    ensures var target := (1.0 - inference) * VelMax;
      (vPrev <= target ==> vPrev <= Velocity(vPrev, alpha, inference) <= target) &&
      (target <= vPrev ==> target <= Velocity(vPrev, alpha, inference) <= vPrev)
  {
    var target := (1.0 - inference) * VelMax;
    var v := Velocity(vPrev, alpha, inference);
    assert 0.0 <= target <= VelMax by {
      assert 0.0 <= 1.0 - inference <= 1.0;
    }
    var gap := vPrev - target;
    var step := (1.0 - alpha) * gap;
    assert v == target + step;
    assert step - gap == -alpha * gap;
    if vPrev <= target {
      assert (1.0 - alpha) * gap <= 0.0 && alpha * gap <= 0.0 by {
        ProductSign(1.0 - alpha, gap);
        ProductSign(alpha, gap);
      }
    } else {
      assert (1.0 - alpha) * -gap <= 0.0 && alpha * -gap <= 0.0 by {
        ProductSign(1.0 - alpha, -gap);
        ProductSign(alpha, -gap);
      }
    }
  }

  /** A non-negative factor times a non-positive one is non-positive. */
  lemma ProductSign(a: real, b: real)
    requires 0.0 <= a && b <= 0.0
    ensures a * b <= 0.0
  {
  }

  /** With probability 1 (an obstacle for sure) the velocity decays: it is
      (1 - alpha) * vPrev, between 0 and a non-negative vPrev. */
  lemma VelocityBlocked(vPrev: real, alpha: real)
    requires 0.0 <= alpha <= 1.0 && 0.0 <= vPrev
    ensures Velocity(vPrev, alpha, 1.0) == (1.0 - alpha) * vPrev
    ensures 0.0 <= Velocity(vPrev, alpha, 1.0) <= vPrev
  {
    assert (1.0 - alpha) * vPrev <= vPrev;
  }

  /** With probability 0 (a clear path) the velocity rises toward VelMax
      without overshooting it. */
  lemma VelocityClear(vPrev: real, alpha: real)
    requires 0.0 <= alpha <= 1.0 && 0.0 <= vPrev <= VelMax
    ensures vPrev <= Velocity(vPrev, alpha, 0.0) <= VelMax
  {
    VelocityConvex(vPrev, alpha, 0.0);
  }

  /** The velocity before step `k`: the initial state `v0` for the first
      step, the output of step k - 1 afterwards. */
  function Before(vs: seq<real>, k: int, v0: real): real
    requires 0 <= k <= |vs|
  {
    if k == 0 then v0 else vs[k - 1]
  }

  /** The velocities the filter produces from state `v0` on the received
      values `msgs`, one per message. */
  function Filter(v0: real, msgs: seq<real>): (vs: seq<real>)
    ensures |vs| == |msgs|
  {
    if |msgs| == 0 then []
    else
      var prev := Filter(v0, msgs[..|msgs| - 1]);
      prev + [Velocity(Before(prev, |prev|, v0), Alpha, Average(msgs[|msgs| - 1]))]
  }

  /** Each velocity of the filter is the law applied to the velocity before
      it (the initial state for the first) and the average of its message. */
  lemma {:induction false} FilterStep(v0: real, msgs: seq<real>, k: int)
    requires 0 <= k < |msgs|
    ensures Filter(v0, msgs)[k] == Velocity(Before(Filter(v0, msgs), k, v0), Alpha, Average(msgs[k]))
    decreases |msgs|
  {
    var n := |msgs|;
    var vs := Filter(v0, msgs);
    var prev := Filter(v0, msgs[..n - 1]);
    if k < n - 1 {
      FilterStep(v0, msgs[..n - 1], k);
      assert msgs[..n - 1][k] == msgs[k];
      assert vs[k] == prev[k];
      assert Before(vs, k, v0) == Before(prev, k, v0);
    } else {
      assert Before(vs, k, v0) == Before(prev, |prev|, v0);
    }
  }

  /** Received sums in [0, 5] keep every velocity of the filter, started in
      [0, VelMax], within [0, VelMax]. */
  lemma {:induction false} FilterStaysInEnvelope(v0: real, msgs: seq<real>)
    requires 0.0 <= v0 <= VelMax
    requires forall i :: 0 <= i < |msgs| ==> 0.0 <= msgs[i] <= WindowLength
    ensures forall k :: 0 <= k < |msgs| ==> 0.0 <= Filter(v0, msgs)[k] <= VelMax
    decreases |msgs|
  {
    if |msgs| > 0 {
      var n := |msgs|;
      var vs := Filter(v0, msgs);
      FilterStaysInEnvelope(v0, msgs[..n - 1]);
      assert forall k :: 0 <= k < n - 1 ==> vs[k] == Filter(v0, msgs[..n - 1])[k];
      var prev := if n == 1 then v0 else vs[n - 2];
      VelocityConvex(prev, Alpha, Average(msgs[n - 1]));
    }
  }

  /** On a clear path (every received sum 0) the velocity never decreases
      and never passes VelMax. */
  lemma FilterClearPathRises(v0: real, msgs: seq<real>)
    requires 0.0 <= v0 <= VelMax
    requires forall i :: 0 <= i < |msgs| ==> msgs[i] == 0.0
    ensures forall k :: 0 <= k < |msgs| ==>
      Before(Filter(v0, msgs), k, v0) <= Filter(v0, msgs)[k] <= VelMax
  {
    var vs := Filter(v0, msgs);
    FilterStaysInEnvelope(v0, msgs);
    forall k | 0 <= k < |msgs|
      ensures Before(vs, k, v0) <= vs[k] <= VelMax
    {
      var prev := Before(vs, k, v0);
      FilterStep(v0, msgs, k);
      assert Average(msgs[k]) == 0.0;
      VelocityClear(prev, Alpha);
    }
  }

  /** In front of a certain obstacle (every received sum 5) the velocity
      decays geometrically by the factor 1 - Alpha and stays non-negative. */
  lemma {:induction false} FilterBlockedDecays(v0: real, msgs: seq<real>)
    requires 0.0 <= v0
    requires forall i :: 0 <= i < |msgs| ==> msgs[i] == WindowLength
    ensures forall k :: 0 <= k < |msgs| ==>
      Filter(v0, msgs)[k] == (1.0 - Alpha) * Before(Filter(v0, msgs), k, v0) &&
      0.0 <= Filter(v0, msgs)[k] <= Before(Filter(v0, msgs), k, v0)
    decreases |msgs|
  {
    if |msgs| > 0 {
      var n := |msgs|;
      var vs := Filter(v0, msgs);
      var init := Filter(v0, msgs[..n - 1]);
      FilterBlockedDecays(v0, msgs[..n - 1]);
      assert vs[..n - 1] == init;
      forall k | 0 <= k < n
        ensures vs[k] == (1.0 - Alpha) * Before(vs, k, v0) && 0.0 <= vs[k] <= Before(vs, k, v0)
      {
        var prev := Before(vs, k, v0);
        if k < n - 1 {
          assert vs[k] == init[k];
          assert Before(vs, k, v0) == Before(init, k, v0);
        } else {
          if k > 0 {
            assert vs[k - 1] == init[k - 1];
            assert 0.0 <= init[k - 1] <= Before(init, k - 1, v0);
          }
          assert 0.0 <= prev;
          FilterStep(v0, msgs, k);
          assert Average(msgs[k]) == 1.0;
          VelocityBlocked(prev, Alpha);
        }
      }
    }
  }

  /** Starting from rest on a clear path: 0.34, then 0.391. */
  lemma FilterFromRest()
    ensures Filter(0.0, [0.0, 0.0]) == [0.34, 0.391]
  {
    var vs := Filter(0.0, [0.0, 0.0]);
    assert vs[0] == 0.34;
    assert vs[1] == 0.391;
  }

  /** The control process: reset, take off, cruise for exactly 251 received
      messages with the filter starting at rest and carried from step to
      step, then land. If fewer messages arrive, it blocks on the next
      receive, or stops with an error once the sender has closed the
      channel, and never lands. */
  method Controller(msgs: seq<real>) returns (out: Outcome)
    ensures out.Completed? <==> |msgs| >= CruiseSteps
    ensures out.Completed? ==>
      out.consumed == CruiseSteps && out.trace == Flight(Filter(0.0, msgs[..CruiseSteps]))
    ensures out.Starved? ==> out.trace == Unfinished(Filter(0.0, msgs))
  {
    var trace := ResetSequence;
    trace := EmitTakeoff(trace);
    var vPrev := 0.0;
    var steps := 0;
    while steps <= LastStep
      invariant steps <= CruiseSteps && steps <= |msgs|
      invariant trace == Unfinished(Filter(0.0, msgs[..steps]))
      invariant vPrev == Before(Filter(0.0, msgs[..steps]), steps, 0.0)
    {
      if steps == |msgs| {
        assert msgs[..steps] == msgs;
        return Starved(trace);
      }
      var v := Velocity(vPrev, Alpha, Average(msgs[steps]));
      assert msgs[..steps + 1][..steps] == msgs[..steps];
      assert Filter(0.0, msgs[..steps + 1]) == Filter(0.0, msgs[..steps]) + [v];
      UnfinishedSnoc(Filter(0.0, msgs[..steps]), v);
      trace := trace + [HoverSetpoint(v, 0.0, 0.0, CruiseAltitude)];
      vPrev := v;
      steps := steps + 1;
    }
    trace := EmitLanding(trace);
    return Completed(trace, steps);
  }

  /** Every cruise velocity of a completed mission lies in [0, VelMax] when
      every received sum lies in [0, 5], as the perception side guarantees
      for predictions in [0, 1]. */
  lemma CruiseWithinEnvelope(msgs: seq<real>)
    requires |msgs| >= CruiseSteps
    requires forall i :: 0 <= i < |msgs| ==> 0.0 <= msgs[i] <= WindowLength
    ensures forall k :: 0 <= k < CruiseSteps ==> 0.0 <= Filter(0.0, msgs[..CruiseSteps])[k] <= VelMax
  {
    FilterStaysInEnvelope(0.0, msgs[..CruiseSteps]);
  }
}
