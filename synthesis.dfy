/** The arithmetic of the command the plugin streams in control mode:
    one trajectory point per joint set, reached in a time bounded below
    by the minimum trajectory duration and stretched by the speed scale.
    Durations are exact reals, not floating point. */
module Synthesis {

  import opened Wrappers
  import opened Discovery

  /** The per-joint entry of `_joint_pos`: the last reported position
      and the user's command, each absent until first set. */
  datatype JointState = JointState(position: Option<real>, command: Option<real>)

  /** The entry `{}` created for each joint when a controller is loaded. */
  const EmptyJointState: JointState := JointState(None, None)

  /** Command publishing rate, in Hz. */
  const CmdPubFreq: real := 10.0

  /** Shortest trajectory the plugin sends: five publishing periods. */
  const MinTrajDur: real := 5.0 / CmdPubFreq

  /** A trajectory point: joint positions and the time to reach them. */
  datatype TrajectoryPoint = TrajectoryPoint(positions: seq<real>, timeFromStart: real)

  /** A joint trajectory message. */
  datatype JointTrajectory = JointTrajectory(jointNames: seq<string>, points: seq<TrajectoryPoint>)

  function Abs(x: real): real
  {
    if x < 0.0 then -x else x
  }

  function Max(a: real, b: real): real
  {
    if a >= b then a else b
  }

  /** Python's `max` of a non-empty list. */
  function MaxOf(s: seq<real>): (m: real)
    requires |s| > 0
    ensures forall k :: 0 <= k < |s| ==> s[k] <= m
    ensures exists k :: 0 <= k < |s| && m == s[k]
  {
    if |s| == 1 then s[0]
    else
      var m := MaxOf(s[..|s| - 1]);
      if s[|s| - 1] > m then s[|s| - 1] else m
  }

  /** Every joint has a reported position and a usable velocity limit:
      what the command callback reads without raising. */
  predicate CanSynthesize(names: seq<string>, table: map<string, JointState>, limits: map<string, JointLimits>)
  {
    forall n :: n in names ==>
      n in table && table[n].position.Some? && n in limits && limits[n].maxVelocity != 0.0
  }

  /** The position sent for a joint: its command when set, otherwise
      the position it holds. */
  function Target(js: JointState): real
    requires js.position.Some?
  {
    match js.command
    case Some(c) => c
    case None => js.position.value
  }

  /** Time for one joint to reach its target at its maximum velocity, but
      never less than the minimum trajectory duration. */
  function JointDuration(js: JointState, lim: JointLimits): (d: real)
    requires js.position.Some? && lim.maxVelocity != 0.0
    ensures d >= MinTrajDur
    ensures js.command.None? ==> d == MinTrajDur
  {
    Max(Abs(Target(js) - js.position.value) / lim.maxVelocity, MinTrajDur)
  }

  /** The per-joint durations, in joint order. */
  function Durations(names: seq<string>, table: map<string, JointState>, limits: map<string, JointLimits>): (ds: seq<real>)
    requires CanSynthesize(names, table, limits)
    ensures |ds| == |names|
  {
    seq(|names|, k requires 0 <= k < |names| => JointDuration(table[names[k]], limits[names[k]]))
  }

  /** The duration of the synthesized point: the slowest joint's time,
      divided by the speed scale. */
  function TrajectoryDuration(names: seq<string>, table: map<string, JointState>,
                              limits: map<string, JointLimits>, speedScale: real): real
    requires |names| > 0 && CanSynthesize(names, table, limits) && speedScale > 0.0
  {
    MaxOf(Durations(names, table, limits)) / speedScale
  }

  /** The unscaled duration is the slowest joint's: no joint needs
      longer and some joint needs exactly that long; so the scaled
      duration is at least the minimum duration over the speed scale. */
  lemma TrajectoryDurationIsSlowestJoint(names: seq<string>, table: map<string, JointState>,
                                         limits: map<string, JointLimits>, speedScale: real)
    requires |names| > 0 && CanSynthesize(names, table, limits) && speedScale > 0.0
    ensures forall k :: 0 <= k < |names| ==>
      JointDuration(table[names[k]], limits[names[k]]) <= MaxOf(Durations(names, table, limits))
    ensures exists k :: 0 <= k < |names| &&
                        JointDuration(table[names[k]], limits[names[k]]) == MaxOf(Durations(names, table, limits))
    ensures TrajectoryDuration(names, table, limits, speedScale) >= MinTrajDur / speedScale
  {
    var ds := Durations(names, table, limits);
    var m := MaxOf(ds);
    forall k | 0 <= k < |names|
      ensures JointDuration(table[names[k]], limits[names[k]]) <= m
    {
      assert ds[k] == JointDuration(table[names[k]], limits[names[k]]);
    }
    var k :| 0 <= k < |ds| && m == ds[k];
    DivideMonotone(MinTrajDur, m, speedScale);
  }

  lemma DivideMonotone(a: real, b: real, c: real)
    requires a <= b && c > 0.0
    ensures a / c <= b / c
  {
  }

  /** With no command set, every joint holds its position and the point
      takes exactly the minimum duration over the speed scale. */
  lemma HoldingDuration(names: seq<string>, table: map<string, JointState>,
                        limits: map<string, JointLimits>, speedScale: real)
    requires |names| > 0 && CanSynthesize(names, table, limits) && speedScale > 0.0
    requires forall n :: n in names ==> table[n].command.None?
    ensures TrajectoryDuration(names, table, limits, speedScale) == MinTrajDur / speedScale
  {
    var ds := Durations(names, table, limits);
    var k :| 0 <= k < |ds| && MaxOf(ds) == ds[k];
    assert names[k] in names;
  }
}
