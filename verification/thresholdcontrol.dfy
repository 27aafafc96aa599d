/** The control process with the threshold law.

    During the cruise every received window sum is averaged; above the
    threshold the vehicle hovers in place, otherwise it moves forward at a
    fixed velocity. Only forward steps count toward the end of the cruise,
    so the vehicle may hover for as long as the obstacle stays. */
module ThresholdControl {
  import opened Mission

  /** Obstacle probability above which the vehicle hovers. */
  const Threshold: real := 0.85

  /** Forward velocity when no obstacle is seen (m/s). */
  const ForwardVelocity: real := 0.35

  /** A message asks for a forward step: its average is at most the
      threshold (the boundary value 0.85 itself moves forward). */
  predicate Advances(msg: real) {
    msg / WindowLength <= Threshold
  }

  /** The outcome of one cruise step: the forward velocity commanded and
      the step counter afterwards. */
  datatype Decision = Decision(velocity: real, steps: nat)

  /** The threshold law for one received message. The vehicle either hovers
      or moves at the fixed velocity, and the counter advances exactly on
      the steps that move forward. */
  function Law(msg: real, steps: nat): (r: Decision)
    ensures r.velocity == 0.0 || r.velocity == ForwardVelocity
    ensures r.steps == steps || r.steps == steps + 1
    ensures r.steps == steps + 1 <==> r.velocity == ForwardVelocity
    ensures r.steps == steps + 1 <==> Advances(msg)
  {
    if msg / WindowLength > Threshold then Decision(0.0, steps)
    else Decision(ForwardVelocity, steps + 1)
  }

  /** The average 0.85 exactly is not above the threshold: it moves forward. */
  lemma BoundaryAdvances(steps: nat)
    ensures Law(4.25, steps) == Decision(ForwardVelocity, steps + 1)
  {
  }

  /** The number of messages in `msgs` that ask for a forward step. */
  function CountAdvancing(msgs: seq<real>): nat {
    if |msgs| == 0 then 0
    else CountAdvancing(msgs[..|msgs| - 1]) + (if Advances(msgs[|msgs| - 1]) then 1 else 0)
  }

  /** The number of messages in `msgs` that make the vehicle hover. */
  function CountHovering(msgs: seq<real>): nat {
    if |msgs| == 0 then 0
    else CountHovering(msgs[..|msgs| - 1]) + (if Advances(msgs[|msgs| - 1]) then 0 else 1)
  }

  /** Every message either advances or hovers. */
  lemma {:induction false} CountsPartition(msgs: seq<real>)
    ensures CountAdvancing(msgs) + CountHovering(msgs) == |msgs|
    decreases |msgs|
  {
    if |msgs| > 0 {
      CountsPartition(msgs[..|msgs| - 1]);
    }
  }

  /** A prefix has no more forward messages than the whole sequence. */
  lemma {:induction false} CountPrefix(msgs: seq<real>, n: nat)
    requires n <= |msgs|
    ensures CountAdvancing(msgs[..n]) <= CountAdvancing(msgs)
    decreases |msgs|
  {
    if n < |msgs| {
      var m := |msgs|;
      assert msgs[..m - 1][..n] == msgs[..n];
      CountPrefix(msgs[..m - 1], n);
    } else {
      assert msgs[..n] == msgs;
    }
  }

  /** The forward velocities the law commands for `msgs`, in order. */
  function Velocities(msgs: seq<real>): seq<real> {
    if |msgs| == 0 then []
    else Velocities(msgs[..|msgs| - 1]) + [Law(msgs[|msgs| - 1], 0).velocity]
  }

  /** Every cruise setpoint is either a hover or the fixed forward motion,
      with no lateral motion or yaw and at the cruise altitude; it is the
      forward motion exactly when its message advances. */
  lemma CruiseSetpoints(msgs: seq<real>)
    ensures var c := Cruise(Velocities(msgs));
      && |c| == |msgs|
      && forall k :: 0 <= k < |msgs| ==>
        && (c[k] == HoverSetpoint(0.0, 0.0, 0.0, CruiseAltitude) || c[k] == HoverSetpoint(ForwardVelocity, 0.0, 0.0, CruiseAltitude))
        && (c[k].vx == ForwardVelocity <==> Advances(msgs[k]))
  {
  }

  /** One more received message extends the forward count and the
      unfinished trace by that message's decision. */
  lemma CruiseStep(msgs: seq<real>, received: nat, steps: nat)
    requires received < |msgs|
    requires steps == CountAdvancing(msgs[..received])
    ensures Law(msgs[received], steps).steps == CountAdvancing(msgs[..received + 1])
    ensures Unfinished(Velocities(msgs[..received + 1])) ==
      Unfinished(Velocities(msgs[..received])) + [HoverSetpoint(Law(msgs[received], steps).velocity, 0.0, 0.0, CruiseAltitude)]
  {
    var d := Law(msgs[received], steps);
    assert msgs[..received + 1][..received] == msgs[..received];
    assert Velocities(msgs[..received + 1]) == Velocities(msgs[..received]) + [d.velocity];
    UnfinishedSnoc(Velocities(msgs[..received]), d.velocity);
  }

  /** The control process: reset, take off, cruise until 251 messages have
      asked for a forward step, then land. The cruise ends on the message
      that completes the 251st forward step, after consuming 251 plus the
      number of hover messages; if fewer than 251 messages ever advance, it
      blocks on a receive, or stops with an error once the sender has closed
      the channel, and never lands. */
  method Controller(msgs: seq<real>) returns (out: Outcome)
    ensures out.Completed? <==> CountAdvancing(msgs) >= CruiseSteps
    ensures out.Completed? ==>
      && 0 < out.consumed <= |msgs|
      && CountAdvancing(msgs[..out.consumed]) == CruiseSteps
      && Advances(msgs[out.consumed - 1])
      && out.consumed == CruiseSteps + CountHovering(msgs[..out.consumed])
      && out.trace == Flight(Velocities(msgs[..out.consumed]))
    ensures out.Starved? ==> out.trace == Unfinished(Velocities(msgs))
  {
    var trace := ResetSequence;
    trace := EmitTakeoff(trace);
    var steps := 0;
    var received := 0;
    while steps <= LastStep
      invariant received <= |msgs| && steps <= CruiseSteps
      invariant steps == CountAdvancing(msgs[..received])
      invariant steps == CruiseSteps ==> received > 0 && Advances(msgs[received - 1])
      invariant trace == Unfinished(Velocities(msgs[..received]))
      decreases |msgs| - received
    {
      if received == |msgs| {
        assert msgs[..received] == msgs;
        return Starved(trace);
      }
      var d := Law(msgs[received], steps);
      CruiseStep(msgs, received, steps);
      trace := trace + [HoverSetpoint(d.velocity, 0.0, 0.0, CruiseAltitude)];
      steps := d.steps;
      received := received + 1;
    }
    CountPrefix(msgs, received);
    CountsPartition(msgs[..received]);
    trace := EmitLanding(trace);
    return Completed(trace, received);
  }
}
