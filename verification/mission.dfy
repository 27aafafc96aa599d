/** The mission skeleton shared by both control processes: reset the state
    estimator, ramp up, cruise on received messages, ramp down.

    The flight-controller driver is a sink; what it receives is modelled as
    a trace of commands. Timing (the pauses between commands) is not modelled. */
module Mission {
  import RollingWindow

  /** A command to the flight controller: setting a parameter, or a hover
      setpoint (forward velocity, lateral velocity, yaw rate, altitude). */
  datatype Command =
    | SetParam(name: string, value: string)
    | HoverSetpoint(vx: real, vy: real, yawRate: real, z: real)

  /** How a run of the control process ends: the whole mission was flown
      after receiving `consumed` messages, or the messages ran out during the
      cruise: the process blocks on the next receive, or stops with an error
      if the sender has closed the channel, and in either case never lands. */
  datatype Outcome =
    | Completed(trace: seq<Command>, consumed: nat)
    | Starved(trace: seq<Command>)

  const ResetParam: string := "kalman.resetEstimation"

  /** Raising and then clearing the estimator reset flag. */
  const ResetSequence: seq<Command> := [SetParam(ResetParam, "1"), SetParam(ResetParam, "0")]

  /** Number of setpoints in each of the takeoff and landing ramps. */
  const RampLength: nat := 20

  /** Each received value is the sum of the predictions in a full window;
      the control processes divide it by this count to get an average. */
  const WindowLength: real := 5.0

  /** The divisor is the number of predictions the perception window holds. */
  lemma WindowLengthIsCapacity()
    ensures WindowLength == RollingWindow.Capacity as real
  {
  }

  /** Altitude held during the cruise. */
  const CruiseAltitude: real := 0.8

  /** The cruise loop runs while its counter is at most `LastStep`, so it
      needs `CruiseSteps` counted steps. */
  const LastStep: nat := 250
  const CruiseSteps: nat := LastStep + 1

  /** A hover setpoint with no motion other than toward its altitude. */
  predicate AltitudeOnly(c: Command) {
    c.HoverSetpoint? && c.vx == 0.0 && c.vy == 0.0 && c.yawRate == 0.0
  }

  /** Hover setpoints whose altitude strictly rises along the sequence. */
  predicate StrictlyRising(r: seq<Command>) {
    forall i, j :: 0 <= i < j < |r| ==> r[i].HoverSetpoint? && r[j].HoverSetpoint? && r[i].z < r[j].z
  }

  /** Hover setpoints whose altitude strictly falls along the sequence. */
  predicate StrictlyFalling(r: seq<Command>) {
    forall i, j :: 0 <= i < j < |r| ==> r[i].HoverSetpoint? && r[j].HoverSetpoint? && r[i].z > r[j].z
  }

  /** The takeoff ramp: altitude y/25 for y = 0 .. 19, strictly rising from
      the ground to 0.76. */
  function TakeoffRamp(): (r: seq<Command>)
    ensures |r| == RampLength
    ensures forall i :: 0 <= i < |r| ==> AltitudeOnly(r[i])
    ensures StrictlyRising(r)
    ensures r[0] == HoverSetpoint(0.0, 0.0, 0.0, 0.0)
    ensures r[RampLength - 1] == HoverSetpoint(0.0, 0.0, 0.0, 0.76)
  {
    seq(RampLength, y => HoverSetpoint(0.0, 0.0, 0.0, y as real / 25.0))
  }

  /** The landing ramp: altitude -y/25 for y = 0 .. 19. It starts at the
      ground, not at the cruise altitude, and strictly falls below it. */
  function LandingRamp(): (r: seq<Command>)
    ensures |r| == RampLength
    ensures forall i :: 0 <= i < |r| ==> AltitudeOnly(r[i])
    ensures StrictlyFalling(r)
    ensures r[0] == HoverSetpoint(0.0, 0.0, 0.0, 0.0)
    ensures r[RampLength - 1] == HoverSetpoint(0.0, 0.0, 0.0, -0.76)
  {
    seq(RampLength, y => HoverSetpoint(0.0, 0.0, 0.0, -(y as real) / 25.0))
  }

  /** The cruise setpoints for the forward velocities `vs`. */
  function Cruise(vs: seq<real>): (r: seq<Command>)
    ensures |r| == |vs|
  {
    if |vs| == 0 then []
    else Cruise(vs[..|vs| - 1]) + [HoverSetpoint(vs[|vs| - 1], 0.0, 0.0, CruiseAltitude)]
  }

  /** Cruise setpoint k carries velocity k, at the cruise altitude, with no
      lateral motion or yaw. */
  lemma {:induction false} CruiseAt(vs: seq<real>, k: int)
    requires 0 <= k < |vs|
    ensures Cruise(vs)[k] == HoverSetpoint(vs[k], 0.0, 0.0, CruiseAltitude)
    decreases |vs|
  {
    if k < |vs| - 1 {
      CruiseAt(vs[..|vs| - 1], k);
    }
  }

  /** The trace up to and including the cruise with velocities `vs`. */
  function Unfinished(vs: seq<real>): seq<Command> {
    ResetSequence + TakeoffRamp() + Cruise(vs)
  }

  /** The trace of a whole mission whose cruise used velocities `vs`. */
  function Flight(vs: seq<real>): seq<Command> {
    Unfinished(vs) + LandingRamp()
  }

  /** A mission trace is, in order: the reset pair, the takeoff ramp, one
      cruise setpoint per velocity at the cruise altitude, the landing ramp. */
  lemma FlightShape(vs: seq<real>)
    ensures var t := Flight(vs);
      && |t| == |ResetSequence| + 2 * RampLength + |vs|
      && t[..2] == ResetSequence
      && t[2..2 + RampLength] == TakeoffRamp()
      && (forall k :: 0 <= k < |vs| ==> t[2 + RampLength + k] == HoverSetpoint(vs[k], 0.0, 0.0, CruiseAltitude))
      && t[2 + RampLength + |vs|..] == LandingRamp()
  {
    var t := Flight(vs);
    assert t == ResetSequence + TakeoffRamp() + Cruise(vs) + LandingRamp();
    forall k | 0 <= k < |vs|
      ensures t[2 + RampLength + k] == HoverSetpoint(vs[k], 0.0, 0.0, CruiseAltitude)
    {
      CruiseAt(vs, k);
    }
    assert t[..2] == ResetSequence;
    assert t[2..2 + RampLength] == TakeoffRamp();
    assert t[2 + RampLength + |vs|..] == LandingRamp();
  }

  /** Appending one cruise setpoint extends the unfinished trace. */
  lemma UnfinishedSnoc(vs: seq<real>, v: real)
    ensures Unfinished(vs + [v]) == Unfinished(vs) + [HoverSetpoint(v, 0.0, 0.0, CruiseAltitude)]
  {
    assert Cruise(vs + [v]) == Cruise(vs) + [HoverSetpoint(v, 0.0, 0.0, CruiseAltitude)];
  }

  /** Sends the takeoff ramp, one setpoint per iteration. */
  method EmitTakeoff(trace: seq<Command>) returns (t: seq<Command>)
    ensures t == trace + TakeoffRamp()
  {
    t := trace;
    for y := 0 to RampLength
      invariant t == trace + TakeoffRamp()[..y]
    {
      assert TakeoffRamp()[..y + 1] == TakeoffRamp()[..y] + [TakeoffRamp()[y]];
      t := t + [HoverSetpoint(0.0, 0.0, 0.0, y as real / 25.0)];
    }
  }

  /** Sends the landing ramp, one setpoint per iteration. */
  method EmitLanding(trace: seq<Command>) returns (t: seq<Command>)
    ensures t == trace + LandingRamp()
  {
    t := trace;
    for y := 0 to RampLength
      invariant t == trace + LandingRamp()[..y]
    {
      assert LandingRamp()[..y + 1] == LandingRamp()[..y] + [LandingRamp()[y]];
      t := t + [HoverSetpoint(0.0, 0.0, 0.0, -(y as real) / 25.0)];
    }
  }
}
