/** The session core of the joint trajectory controller panel: the
    plugin object, whose fields the Qt slots and timer callbacks update
    in place. Timers are flags, ROS handles are optional topic names, and
    the controller lister, the robot description and the feedback
    messages are parameters of the methods that read them. */
module JointTrajectoryPlugin {

  import opened Wrappers
  import opened Naming
  import opened Discovery
  import opened Synthesis

  /** How loading a selected controller ended: it was loaded, or
      `_load_jtc` raised before changing anything because there is no
      controller lister (calling `None`) or no running controller of that
      name (`next` raising StopIteration). */
  datatype LoadOutcome = Loaded | NoControllerLister | NoSuchController

  /** A `JointTrajectoryControllerState` message, reduced to the fields
      read here: joint names and feedback positions. */
  datatype ControllerStateMsg = ControllerStateMsg(jointNames: seq<string>, feedbackPositions: seq<real>)

  const StateTopicSuffix: string := "/controller_state"
  const CommandTopicSuffix: string := "/joint_trajectory"

  class JointTrajectoryController {
    /** Namespace of the selected controller manager. */
    var cmNs: string
    /** Whether `_list_controllers` is a lister (true) or None (false). */
    var hasLister: bool
    /** Entries of the controller combo box. */
    var jtcCombo: seq<string>
    /** Name of the selected controller; "" when none is selected. */
    var jtcName: string
    /** Ordered joints of the selected controller. */
    var jointNames: seq<string>
    /** Per-joint position and command of the selected controller. */
    var jointPos: map<string, JointState>
    /** Joint limits, filled once from the robot description. */
    var robotJointLimits: map<string, JointLimits>
    /** Running state of the command timer and of the widget-refresh timer. */
    var cmdTimerOn: bool
    var refreshTimerOn: bool
    /** Checked state of the enable button. */
    var enableChecked: bool
    /** Enabled state of the speed-scaling widget. */
    var speedScalingEnabled: bool
    /** Fraction of maximum speed used for commands. */
    var speedScale: real
    /** Topic of the state subscription and of the command publisher, if any. */
    var stateSub: Option<string>
    var cmdPub: Option<string>
    /** Whether the executor thread spins the node. */
    var executorSpinning: bool
    /** Whether `jointStateChanged` is connected to `_on_joint_state_change`. */
    var jointStateConnected: bool

    /** The facts every slot relies on, apart from the enable button. */
    ghost predicate SessionConsistent()
      reads this`speedScale, this`cmdTimerOn, this`refreshTimerOn, this`jointNames, this`jointPos,
            this`stateSub, this`cmdPub, this`executorSpinning, this`jointStateConnected, this`jtcName
    {
      && speedScale > 0.0
      && !(cmdTimerOn && refreshTimerOn)
      && NoDup(jointNames)
      && jointPos.Keys == (set n | n in jointNames)
      && stateSub.Some? == cmdPub.Some?
      && executorSpinning == cmdPub.Some?
      && jointStateConnected == cmdPub.Some?
      && (cmdPub.Some? ==> jtcName != "")
    }

    /** The object invariant: the command timer runs only while the
        enable button is checked, and the button is checked only while a
        controller is selected. */
    ghost predicate Valid()
      reads this`speedScale, this`cmdTimerOn, this`refreshTimerOn, this`jointNames, this`jointPos,
            this`stateSub, this`cmdPub, this`executorSpinning, this`jointStateConnected, this`jtcName, this`enableChecked
    {
      && SessionConsistent()
      && (cmdTimerOn ==> enableChecked)
      && (enableChecked ==> jtcName != "")
    }

    /** The state `_unload_jtc` leaves: no ROS interfaces, no joints,
        button unchecked, no commands sent. */
    ghost predicate Unloaded()
      reads this`stateSub, this`cmdPub, this`executorSpinning, this`jointStateConnected, this`jointNames,
            this`jointPos, this`enableChecked, this`cmdTimerOn
    {
      && stateSub.None? && cmdPub.None? && !executorSpinning && !jointStateConnected
      && jointNames == [] && jointPos == map[]
      && !enableChecked && !cmdTimerOn
    }

    /** Monitor mode: feedback refreshes the widgets, no commands are sent. */
    ghost predicate MonitorMode()
      reads this`cmdTimerOn, this`refreshTimerOn
    {
      !cmdTimerOn && refreshTimerOn
    }

    /** The members `__init__` initialises; `initialSpeedScale` is the
        speed-scaling editor's initial value over its slider maximum. */
    constructor (initialSpeedScale: real)
      requires initialSpeedScale > 0.0
      ensures Valid() && Unloaded()
      ensures jtcName == "" && cmNs == "" && !hasLister && jtcCombo == [] && robotJointLimits == map[]
      ensures !refreshTimerOn && !speedScalingEnabled && speedScale == initialSpeedScale
    {
      cmNs := "";
      hasLister := false;
      jtcCombo := [];
      jtcName := "";
      jointNames := [];
      jointPos := map[];
      robotJointLimits := map[];
      cmdTimerOn := false;
      refreshTimerOn := false;
      enableChecked := false;
      speedScalingEnabled := false;
      speedScale := initialSpeedScale;
      stateSub := None;
      cmdPub := None;
      executorSpinning := false;
      jointStateConnected := false;
    }

    /** `_update_jtc_list`, one tick of the controller poll with the
        lister's report `controllers` and the robot description's limits
        `urdf`. The limits table is filled on the first tick that sees a
        running controller while it is empty, and is otherwise left alone. */
    method UpdateJtcList(controllers: seq<ControllerInfo>, urdf: map<string, JointLimits>)
      modifies this`jtcCombo, this`robotJointLimits
      ensures !hasLister ==> jtcCombo == []
      ensures hasLister ==> jtcCombo == PublishedJtcNames(controllers, robotJointLimits)
      ensures hasLister && |old(robotJointLimits)| == 0 && |RunningJtcInfo(controllers)| > 0 ==>
        robotJointLimits == CachedLimits(urdf, RunningJtcInfo(controllers))
      ensures !(hasLister && |old(robotJointLimits)| == 0 && |RunningJtcInfo(controllers)| > 0) ==>
        robotJointLimits == old(robotJointLimits)
    {
      if !hasLister {
        jtcCombo := [];
        return;
      }
      var running := RunningJtcInfo(controllers);
      if |running| > 0 && |robotJointLimits| == 0 {
        robotJointLimits := CollectJointLimits(urdf, running);
      }
      var valid := ValidJtcNames(running, robotJointLimits);
      jtcCombo := SortStrings(valid);
    }

    /** The loop of `_update_jtc_list` that fills the limits table: the
        robot description's limits for the joints of each running
        controller, merged in controller order. */
    static method CollectJointLimits(urdf: map<string, JointLimits>, running: seq<ControllerInfo>)
      returns (limits: map<string, JointLimits>)
      ensures limits == CachedLimits(urdf, running)
    {
      limits := map[];
      for i := 0 to |running|
        invariant limits == CachedLimits(urdf, running[..i])
      {
        var names := JtcJointNames(running[i].requiredStateInterfaces);
        assert running[..i + 1][..i] == running[..i];
        limits := limits + GetJointLimits(urdf, names);
      }
      assert running[..|running|] == running;
    }

    /** `_on_cm_change`: select a controller manager; a non-empty
        namespace gets a lister (reporting `controllers`), an emptied
        combo box and an immediate controller poll. */
    method OnCmChange(ns: string, controllers: seq<ControllerInfo>, urdf: map<string, JointLimits>)
      modifies this`cmNs, this`hasLister, this`jtcCombo, this`robotJointLimits
      ensures cmNs == ns && hasLister == (ns != "")
      ensures ns == "" ==> jtcCombo == old(jtcCombo)
      ensures ns != "" ==> jtcCombo == PublishedJtcNames(controllers, robotJointLimits)
      ensures ns != "" && |old(robotJointLimits)| == 0 && |RunningJtcInfo(controllers)| > 0 ==>
        robotJointLimits == CachedLimits(urdf, RunningJtcInfo(controllers))
      ensures !(ns != "" && |old(robotJointLimits)| == 0 && |RunningJtcInfo(controllers)| > 0) ==>
        robotJointLimits == old(robotJointLimits)
    {
      cmNs := ns;
      if ns != "" {
        hasLister := true;
        jtcCombo := [];
        UpdateJtcList(controllers, urdf);
      } else {
        hasLister := false;
      }
    }

    /** `_on_speed_scaling_change`: the editor value `val` (at least 1)
        over the slider maximum. */
    method OnSpeedScalingChange(val: real, sliderMaximum: real)
      requires Valid() && val > 0.0 && sliderMaximum > 0.0
      modifies this`speedScale
      ensures Valid()
      ensures speedScale == val / sliderMaximum
    {
      speedScale := val / sliderMaximum;
    }

    /** `_on_jtc_enabled`, the slot of the enable button's `toggled(val)`
        signal (so the button already shows `val`), also called directly
        with false by `_load_jtc`. Without a selected controller it
        unchecks the button; its own `toggled(False)` then re-enters here
        and finds nothing left to do. Otherwise `val` picks control mode
        (command timer) or monitor mode (refresh timer). */
    method OnJtcEnabled(val: bool)
      requires SessionConsistent() && enableChecked == val
      requires cmdTimerOn ==> jtcName != ""
      modifies this`enableChecked, this`cmdTimerOn, this`refreshTimerOn, this`speedScalingEnabled
      decreases if enableChecked then 1 else 0
      ensures Valid()
      ensures jtcName == "" ==>
        && !enableChecked
        && cmdTimerOn == old(cmdTimerOn) && refreshTimerOn == old(refreshTimerOn)
        && speedScalingEnabled == old(speedScalingEnabled)
      ensures jtcName != "" ==>
        && enableChecked == val
        && cmdTimerOn == val && refreshTimerOn == !val
        && speedScalingEnabled == val
    {
      if jtcName == "" {
        if enableChecked {
          enableChecked := false;
          OnJtcEnabled(false);
        }
        return;
      }
      speedScalingEnabled := val;
      if val {
        refreshTimerOn := false;
        cmdTimerOn := true;
      } else {
        cmdTimerOn := false;
        refreshTimerOn := true;
      }
    }

    /** The enable button's `setChecked(checked)` (by the user or by
        the plugin): `toggled` reaches `_on_jtc_enabled` only when the
        checked state changes. */
    method SetEnableButton(checked: bool)
      requires Valid()
      modifies this`enableChecked, this`cmdTimerOn, this`refreshTimerOn, this`speedScalingEnabled
      ensures Valid()
      ensures old(enableChecked) == checked ==>
        && enableChecked == checked
        && cmdTimerOn == old(cmdTimerOn) && refreshTimerOn == old(refreshTimerOn)
        && speedScalingEnabled == old(speedScalingEnabled)
      ensures old(enableChecked) != checked && jtcName == "" ==>
        && !enableChecked
        && cmdTimerOn == old(cmdTimerOn) && refreshTimerOn == old(refreshTimerOn)
        && speedScalingEnabled == old(speedScalingEnabled)
      ensures old(enableChecked) != checked && jtcName != "" ==>
        && enableChecked == checked
        && cmdTimerOn == checked && refreshTimerOn == !checked
        && speedScalingEnabled == checked
    {
      if enableChecked != checked {
        enableChecked := checked;
        OnJtcEnabled(checked);
      }
    }

    /** `_unregister_cmd_pub`: destroy the publisher if there is one. */
    method UnregisterCmdPub()
      modifies this`cmdPub
      ensures cmdPub == None
    {
      if cmdPub.Some? {
        cmdPub := None;
      }
    }

    /** `_unregister_state_sub`: destroy the subscription if there is one. */
    method UnregisterStateSub()
      modifies this`stateSub
      ensures stateSub == None
    {
      if stateSub.Some? {
        stateSub := None;
      }
    }

    /** `_unregister_executor`: shut the executor down and join its
        thread if there is one. */
    method UnregisterExecutor()
      modifies this`executorSpinning
      ensures !executorSpinning
    {
      if executorSpinning {
        executorSpinning := false;
      }
    }

    /** `_unload_jtc`: tear down the ROS interfaces, forget the joints and
        force monitor mode by unchecking the enable button. */
    method UnloadJtc()
      requires Valid()
      modifies this`jointNames, this`jointPos, this`enableChecked, this`cmdTimerOn, this`refreshTimerOn,
               this`speedScalingEnabled, this`stateSub, this`cmdPub, this`executorSpinning, this`jointStateConnected
      ensures Valid() && Unloaded()
      ensures old(enableChecked) ==> refreshTimerOn && !speedScalingEnabled
      ensures !old(enableChecked) ==>
        refreshTimerOn == old(refreshTimerOn) && speedScalingEnabled == old(speedScalingEnabled)
    {
      jointStateConnected := false;
      UnregisterStateSub();
      UnregisterCmdPub();
      UnregisterExecutor();
      jointNames := [];
      jointPos := map[];
      SetEnableButton(false);
    }

    /** `_load_jtc` for the selected controller, with the lister's report
        `controllers`: take the joints of the first running controller of
        that name, give each an empty entry, enter monitor mode and set up
        the ROS interfaces in the controller's namespace. */
    method LoadJtc(controllers: seq<ControllerInfo>) returns (outcome: LoadOutcome)
      requires Valid() && Unloaded() && jtcName != ""
      modifies this`jointNames, this`jointPos, this`enableChecked, this`cmdTimerOn, this`refreshTimerOn,
               this`speedScalingEnabled, this`stateSub, this`cmdPub, this`executorSpinning, this`jointStateConnected
      ensures Valid()
      ensures outcome == NoControllerLister <==> !hasLister
      ensures outcome == Loaded <==> hasLister && FirstNamed(RunningJtcInfo(controllers), jtcName).Some?
      ensures outcome != Loaded ==>
        && Unloaded()
        && refreshTimerOn == old(refreshTimerOn) && speedScalingEnabled == old(speedScalingEnabled)
      ensures outcome == Loaded ==>
        var running := RunningJtcInfo(controllers);
        Bound(JointNames(running[FirstNamed(running, jtcName).value].requiredStateInterfaces))
    {
      if !hasLister {
        return NoControllerLister;
      }
      var running := RunningJtcInfo(controllers);
      var found := FirstNamed(running, jtcName);
      if found.None? {
        return NoSuchController;
      }
      var names := JtcJointNames(running[found.value].requiredStateInterfaces);
      BindJtc(names);
      outcome := Loaded;
    }

    /** The state after loading a controller with joints `names`: one
        empty entry per joint, monitor mode, and the ROS interfaces in
        the controller's namespace. */
    ghost predicate Bound(names: seq<string>)
      requires jtcName != ""
      reads this
    {
      var ns := ResolveControllerNs(cmNs, jtcName);
      && jointNames == names
      && (forall n :: n in jointPos ==> jointPos[n] == EmptyJointState)
      && MonitorMode() && !enableChecked && !speedScalingEnabled
      && Connected(ns)
    }

    /** The ROS interfaces of a loaded controller in namespace `ns`. */
    ghost predicate Connected(ns: string)
      reads this`stateSub, this`cmdPub, this`executorSpinning, this`jointStateConnected
    {
      && stateSub == Some(ns + StateTopicSuffix) && cmdPub == Some(ns + CommandTopicSuffix)
      && executorSpinning && jointStateConnected
    }

    /** The part of `_load_jtc` after the lookup: store the joints, give
        each an empty entry, enter monitor mode through `_on_jtc_enabled`
        and set up the ROS interfaces in the controller's namespace. */
    method BindJtc(names: seq<string>)
      requires Valid() && Unloaded() && jtcName != "" && NoDup(names)
      modifies this`jointNames, this`jointPos, this`enableChecked, this`cmdTimerOn, this`refreshTimerOn,
               this`speedScalingEnabled, this`stateSub, this`cmdPub, this`executorSpinning, this`jointStateConnected
      ensures Valid() && Bound(names)
    {
      jointNames := names;
      jointPos := EmptyJointTable(jointNames);
      OnJtcEnabled(false);
      ConnectInterfaces(ResolveControllerNs(cmNs, jtcName));
    }

    /** The last step of `_load_jtc`: subscribe to the controller state,
        create the command publisher, connect the feedback signal and
        start the executor thread, all under namespace `ns`. */
    method ConnectInterfaces(ns: string)
      requires Valid() && jtcName != "" && stateSub.None? && cmdPub.None?
      modifies this`stateSub, this`cmdPub, this`executorSpinning, this`jointStateConnected
      ensures Valid() && Connected(ns)
    {
      stateSub := Some(ns + StateTopicSuffix);
      cmdPub := Some(ns + CommandTopicSuffix);
      jointStateConnected := true;
      executorSpinning := true;
    }

    /** The joint table `_load_jtc` builds: one empty entry per joint,
        added one joint at a time. */
    static method EmptyJointTable(names: seq<string>) returns (table: map<string, JointState>)
      ensures table.Keys == (set n | n in names)
      ensures forall n :: n in table ==> table[n] == EmptyJointState
    {
      table := map[];
      var i := 0;
      while i < |names|
        invariant 0 <= i <= |names|
        invariant forall n :: n in table <==> n in names[..i]
        invariant forall n :: n in table ==> table[n] == EmptyJointState
      {
        table := table[names[i] := EmptyJointState];
        assert names[..i + 1] == names[..i] + [names[i]];
        i := i + 1;
      }
      assert names[..i] == names;
    }

    /** `_on_jtc_change`: a new combo selection `name` always unloads the
        current controller first, then loads the new one when the name is
        not empty. `None` means nothing was loaded because nothing is
        selected. */
    method OnJtcChange(name: string, controllers: seq<ControllerInfo>) returns (outcome: Option<LoadOutcome>)
      requires Valid()
      modifies this`jtcName, this`jointNames, this`jointPos, this`enableChecked, this`cmdTimerOn, this`refreshTimerOn,
               this`speedScalingEnabled, this`stateSub, this`cmdPub, this`executorSpinning, this`jointStateConnected
      ensures Valid()
      ensures jtcName == name
      ensures robotJointLimits == old(robotJointLimits) && jtcCombo == old(jtcCombo)
      ensures outcome.None? <==> name == ""
      ensures outcome != Some(Loaded) ==> Unloaded()
      ensures outcome != Some(Loaded) ==>
        && refreshTimerOn == (old(refreshTimerOn) || old(enableChecked))
        && speedScalingEnabled == (old(speedScalingEnabled) && !old(enableChecked))
      ensures outcome == Some(Loaded) <==> name != "" && hasLister && FirstNamed(RunningJtcInfo(controllers), name).Some?
      ensures outcome == Some(Loaded) ==>
        && jtcName != ""
        && var running := RunningJtcInfo(controllers);
           Bound(JointNames(running[FirstNamed(running, name).value].requiredStateInterfaces))
    {
      UnloadJtc();
      jtcName := name;
      if jtcName != "" {
        var loaded := LoadJtc(controllers);
        outcome := Some(loaded);
      } else {
        outcome := None;
      }
    }

    /** `_state_cb`: the name-to-position map of one state message; a
        name that occurs twice takes its last position. */
    method StateCallback(msg: ControllerStateMsg) returns (currentPos: map<string, real>)
      requires |msg.feedbackPositions| >= |msg.jointNames|
      ensures forall n :: n in currentPos <==> n in msg.jointNames
      ensures forall i :: 0 <= i < |msg.jointNames| && msg.jointNames[i] !in msg.jointNames[i + 1..] ==>
        currentPos[msg.jointNames[i]] == msg.feedbackPositions[i]
    {
      var names := msg.jointNames;
      currentPos := map[];
      var i := 0;
      while i < |names|
        invariant 0 <= i <= |names|
        invariant forall n :: n in currentPos <==> n in names[..i]
        invariant forall j :: 0 <= j < i && names[j] !in names[j + 1..i] ==>
          currentPos[names[j]] == msg.feedbackPositions[j]
      {
        currentPos := currentPos[names[i] := msg.feedbackPositions[i]];
        assert names[..i + 1] == names[..i] + [names[i]];
        forall j | 0 <= j < i + 1 && names[j] !in names[j + 1..i + 1]
          ensures currentPos[names[j]] == msg.feedbackPositions[j]
        {
          if j < i {
            assert names[i] == names[j + 1..i + 1][i - j - 1];
            assert names[j + 1..i] <= names[j + 1..i + 1];
          }
        }
        i := i + 1;
      }
      assert names[..i] == names;
    }

    /** `_on_joint_state_change`: store the reported positions. The
        report must cover as many joints as the table (the assert) and
        only known joints (else KeyError), so it sets every joint's
        position and leaves every command alone. */
    method OnJointStateChange(currentPos: map<string, real>)
      requires Valid()
      requires |currentPos| == |jointPos|
      requires currentPos.Keys <= jointPos.Keys
      modifies this`jointPos
      ensures Valid()
      ensures jointPos.Keys == old(jointPos).Keys
      ensures forall n :: n in jointPos ==> n in currentPos && jointPos[n].position == Some(currentPos[n])
      ensures forall n :: n in jointPos ==> jointPos[n].command == old(jointPos)[n].command
    {
      SameSizeSubsetKeys(currentPos.Keys, jointPos.Keys);
      var pending := currentPos.Keys;
      while pending != {}
        invariant pending <= currentPos.Keys
        invariant jointPos.Keys == old(jointPos).Keys
        invariant forall n :: n in jointPos ==> jointPos[n].command == old(jointPos)[n].command
        invariant forall n :: n in currentPos && n !in pending ==> jointPos[n].position == Some(currentPos[n])
        decreases pending
      {
        var n :| n in pending;
        jointPos := jointPos[n := jointPos[n].(position := Some(currentPos[n]))];
        pending := pending - {n};
      }
    }

    /** `_update_single_cmd_cb`: the editor of joint `name` set its command. */
    method UpdateSingleCmd(val: real, name: string)
      requires Valid() && name in jointPos
      modifies this`jointPos
      ensures Valid()
      ensures jointPos == old(jointPos)[name := old(jointPos)[name].(command := Some(val))]
    {
      jointPos := jointPos[name := jointPos[name].(command := Some(val))];
    }

    /** `_update_cmd_cb`: the trajectory published on each command-timer
        tick. One point: each joint's command (or its position when no
        command is set), reached after the slowest joint's duration over
        the speed scale. It reads every joint's position and velocity
        limit, and `max` of an empty list raises, hence the requirements. */
    method UpdateCmd() returns (traj: JointTrajectory)
      requires Valid() && cmdPub.Some?
      requires |jointNames| > 0 && CanSynthesize(jointNames, jointPos, robotJointLimits)
      ensures traj.jointNames == jointNames && |traj.points| == 1
      ensures |traj.points[0].positions| == |jointNames|
      ensures forall k :: 0 <= k < |jointNames| ==>
        traj.points[0].positions[k] == Target(jointPos[jointNames[k]])
      ensures traj.points[0].timeFromStart == TrajectoryDuration(jointNames, jointPos, robotJointLimits, speedScale)
      ensures traj.points[0].timeFromStart >= MinTrajDur / speedScale
      ensures (forall n :: n in jointNames ==> jointPos[n].command.None?) ==>
        traj.points[0].timeFromStart == MinTrajDur / speedScale
    {
      var dur: seq<real> := [];
      var positions: seq<real> := [];
      for i := 0 to |jointNames|
        invariant |dur| == i && |positions| == i
        invariant forall k :: 0 <= k < i ==>
          dur[k] == JointDuration(jointPos[jointNames[k]], robotJointLimits[jointNames[k]])
        invariant forall k :: 0 <= k < i ==> positions[k] == Target(jointPos[jointNames[k]])
      {
        var name := jointNames[i];
        assert name in jointNames;
        var pos := jointPos[name].position.value;
        var cmd := pos;
        if jointPos[name].command.Some? {
          cmd := jointPos[name].command.value;
        }
        var maxVel := robotJointLimits[name].maxVelocity;
        dur := dur + [Max(Abs(cmd - pos) / maxVel, MinTrajDur)];
        positions := positions + [cmd];
      }
      assert dur == Durations(jointNames, jointPos, robotJointLimits);
      var duration := MaxOf(dur) / speedScale;
      traj := JointTrajectory(jointNames, [TrajectoryPoint(positions, duration)]);
      TrajectoryDurationIsSlowestJoint(jointNames, jointPos, robotJointLimits, speedScale);
      if forall n :: n in jointNames ==> jointPos[n].command.None? {
        HoldingDuration(jointNames, jointPos, robotJointLimits, speedScale);
      }
    }
  }

  /** A subset of a finite set with as many elements is the whole set. */
  lemma SameSizeSubsetKeys(a: set<string>, b: set<string>)
    requires a <= b && |a| == |b|
    ensures a == b
  {
    if a != b {
      assert !(forall x :: x in b ==> x in a);
      var x :| x in b && x !in a;
      SubsetCard(a, b - {x});
    }
  }

  lemma SubsetCard(a: set<string>, b: set<string>)
    requires a <= b
    ensures |a| <= |b|
    decreases a
  {
    if a != {} {
      var y :| y in a;
      SubsetCard(a - {y}, b - {y});
    }
  }
}
