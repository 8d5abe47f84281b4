# rqt joint trajectory controller: session core in Dafny

The rqt joint trajectory controller plugin is a Qt panel for ROS 2.
The user picks a controller manager and one of its running joint
trajectory controllers. The panel then either **monitors** the
controller or **controls** it:

- In monitor mode, the controller's state feedback refreshes the joint
  widgets.
- In control mode, the panel publishes a one-point joint trajectory on
  every command-timer tick, built from the joint editors.

This project models the session core under the widgets and the
middleware. It is split into five modules:

- `Naming` (`naming.dfy`):
  - resolving a controller's namespace from its controller manager's
    namespace (`_resolve_controller_ns`), with Python's
    `rsplit("/", 1)` written out;
  - deriving a controller's joint names from its state-interface names
    (`_jtc_joint_names`), with `split`/`join` on `/` and first-seen
    de-duplication.
- `Discovery` (`discovery.dfy`):
  - the running-controller filter (`_running_jtc_info`): type contains
    `JointTrajectoryController`, state `active`;
  - the lazily filled joint-limits table;
  - the sorted list of controllers offered in the combo box.
- `Synthesis` (`synthesis.dfy`): the per-joint `{position, command}`
  record and the command arithmetic. The duration is
  `max over joints of max(|cmd − pos| / max_vel, 0.5)`, divided by the
  speed scale, computed over exact reals.
- `JointTrajectoryPlugin` (`plugin.dfy`): the plugin object as a class
  whose fields the slots update in place:
  - the selected names;
  - the joint table;
  - the limits cache;
  - the two timers as flags;
  - the enable button;
  - the publisher, subscription and executor handles as optional values.

  Its methods are the slots and callbacks. Each slot keeps the object
  invariant `Valid()`; the three `_unregister_*` helpers each release
  one handle and are called only together, so on their own they neither
  need nor restore it:
  - the command timer runs only while the button is checked;
  - the button is checked only while a controller is selected;
  - the two timers never run together;
  - the joint table has exactly one entry per joint;
  - the ROS handles exist together, and only for a selected controller.
- `Wrappers` (`wrappers.dfy`): the `Option` type.

Python's error exits are modelled in two ways:

- The `assert`s, the `KeyError`/`IndexError` sites, and the
  `ValueError` (`max` of an empty list) and `ZeroDivisionError` (a zero
  velocity limit) of the command callback are preconditions.
- `_load_jtc` raises in two ways before it changes anything: calling a
  missing lister, and `next` finding no controller. Both are outcomes of
  `LoadJtc` (`LoadOutcome`).

Inputs that come from collaborators outside this file are parameters:

- the lister's controller report;
- the robot description's limits, as a table from joint name to limits;
- the state message.

Two details of the code decide the model:

- The initial `_jtc_name` and `_cm_ns` are empty lists. Like `""`, they
  are falsy, so they are modelled as `""`.
- On deselecting a controller (`_on_jtc_change("")`), the code unloads
  and does not stop the widget-refresh timer, so the refresh timer may
  run with no controller selected. `UnloadJtc` starts the refresh timer
  whenever the button was checked, and otherwise leaves both timers as
  they were.

## Model

| member | source | states |
|---|---|---|
| Naming.LastSlash | rqt_joint_trajectory_controller/rqt_joint_trajectory_controller/joint_trajectory_controller.py:500 | None exactly when the string has no '/'; otherwise the index of a '/' with no '/' after it |
| Naming.RSplitOnce | rqt_joint_trajectory_controller/rqt_joint_trajectory_controller/joint_trajectory_controller.py:500 | `rsplit("/", 1)`: one part, equal to the input, iff there is no '/'; otherwise two parts that rejoin with '/' to the input, the second free of '/' |
| Naming.Split | rqt_joint_trajectory_controller/rqt_joint_trajectory_controller/joint_trajectory_controller.py:467 | `split("/")`: at least one part, and no part contains '/' |
| Naming.JoinSplit | rqt_joint_trajectory_controller/rqt_joint_trajectory_controller/joint_trajectory_controller.py:467 | round trip: joining the parts of `split("/")` with '/' gives back the string |
| Naming.Join | rqt_joint_trajectory_controller/rqt_joint_trajectory_controller/joint_trajectory_controller.py:467 | `"/".join`: parts separated by '/' (no contract of its own; see JoinSplit and JointNameOf) |
| Naming.JointNameOf | rqt_joint_trajectory_controller/rqt_joint_trajectory_controller/joint_trajectory_controller.py:467 | `"/".join(interface.split("/")[:-1])`: an interface's joint is the interface up to its last '/'; an interface without '/' gives the empty name |
| Naming.ResolveControllerNs | rqt_joint_trajectory_controller/rqt_joint_trajectory_controller/joint_trajectory_controller.py:474-504 | needs a non-empty controller name. The result ends with '/' and the name. Without '/' in the manager namespace, it is that namespace, '/' and the name. Otherwise the prefix up to the last '/' comes first, followed by '/' unless that prefix is exactly "/" |
| Naming.ResolveControllerNsSibling | rqt_joint_trajectory_controller/rqt_joint_trajectory_controller/joint_trajectory_controller.py:478-482 | a controller lives beside its manager: `parent/manager` and `foo` give `parent/foo` for any parent other than "/" |
| Naming.ResolveControllerNsRoot | rqt_joint_trajectory_controller/rqt_joint_trajectory_controller/joint_trajectory_controller.py:484-490 | the documented examples: `("/", "foo")` and `("", "foo")` both give `"/foo"` |
| Naming.DedupNoDup | rqt_joint_trajectory_controller/rqt_joint_trajectory_controller/joint_trajectory_controller.py:465-471 | the de-duplicated list has no repeated element |
| Naming.DedupMembers | rqt_joint_trajectory_controller/rqt_joint_trajectory_controller/joint_trajectory_controller.py:465-471 | de-duplication keeps exactly the elements of the input |
| Naming.Dedup | rqt_joint_trajectory_controller/rqt_joint_trajectory_controller/joint_trajectory_controller.py:468-469 | the `if name not in joint_names` append, as a function: the de-duplicated list is no longer than the input |
| Naming.DedupFirstSeenOrder | rqt_joint_trajectory_controller/rqt_joint_trajectory_controller/joint_trajectory_controller.py:465-471 | elements keep the order of their first occurrence in the input |
| Naming.InterfaceJoints | rqt_joint_trajectory_controller/rqt_joint_trajectory_controller/joint_trajectory_controller.py:466-467 | one joint name per interface |
| Naming.JointNames | rqt_joint_trajectory_controller/rqt_joint_trajectory_controller/joint_trajectory_controller.py:463-471 | the function form of `_jtc_joint_names`: the de-duplicated joints of the interfaces (no contract of its own; JtcJointNames is proved equal to it and carries its properties) |
| Naming.JtcJointNames | rqt_joint_trajectory_controller/rqt_joint_trajectory_controller/joint_trajectory_controller.py:463-471 | `_jtc_joint_names` as its append loop. The result has no duplicates and is no longer than the interface list. It holds exactly the interfaces' joints, in first-seen order |
| Discovery.Contains | rqt_joint_trajectory_controller/rqt_joint_trajectory_controller/joint_trajectory_controller.py:391-393 | the substring match of the type filter: true iff the marker occurs at some position of the type |
| Discovery.IsRunningJtc | rqt_joint_trajectory_controller/rqt_joint_trajectory_controller/joint_trajectory_controller.py:391-394 | the two filters on one controller: the type contains `JointTrajectoryController` and the state is `active` (no contract of its own; see RunningJtcInfoMembers) |
| Discovery.RunningJtcInfo | rqt_joint_trajectory_controller/rqt_joint_trajectory_controller/joint_trajectory_controller.py:387-395 | the filtered report is no longer than the report (its order is stated in FirstNamedInReport) |
| Discovery.FirstNamedInReport | rqt_joint_trajectory_controller/rqt_joint_trajectory_controller/joint_trajectory_controller.py:310-312 | the filter keeps report order: the controller `next(...)` picks among the running ones is the first reported controller that runs under that name, and `next` fails iff no reported controller runs under it |
| Discovery.RunningJtcInfoMembers | rqt_joint_trajectory_controller/rqt_joint_trajectory_controller/joint_trajectory_controller.py:387-395 | a controller is running iff it is in the report, its type contains `JointTrajectoryController` and its state is `active` |
| Discovery.FirstNamed | rqt_joint_trajectory_controller/rqt_joint_trajectory_controller/joint_trajectory_controller.py:310-312 | `next(...)`: the index of the first running controller with the name; None (StopIteration) iff no running controller has it |
| Discovery.GetJointLimits | rqt_joint_trajectory_controller/rqt_joint_trajectory_controller/joint_trajectory_controller.py:244 | stand-in for `get_joint_limits`: the description's limits of those requested joints it specifies, and nothing else (no contract of its own; an assumption, see Left out) |
| Discovery.CachedLimits | rqt_joint_trajectory_controller/rqt_joint_trajectory_controller/joint_trajectory_controller.py:241-245 | the table after one `update` per running controller, in controller order (no contract of its own; see CachedLimitsContent and CollectJointLimits) |
| Discovery.CachedLimitsContent | rqt_joint_trajectory_controller/rqt_joint_trajectory_controller/joint_trajectory_controller.py:240-245 | the filled limits table holds exactly the joints of running controllers that the robot description knows, each with the description's limits |
| Discovery.HasAllLimits | rqt_joint_trajectory_controller/rqt_joint_trajectory_controller/joint_trajectory_controller.py:249-251 | `all(name in limits for name in joints)` for one controller (no contract of its own; see NamesWithLimits and PublishedJtcNames) |
| Discovery.NamesWithLimits | rqt_joint_trajectory_controller/rqt_joint_trajectory_controller/joint_trajectory_controller.py:247-254 | a name is listed iff some running controller of that name has limits for all its joints |
| Discovery.ValidJtcNames | rqt_joint_trajectory_controller/rqt_joint_trajectory_controller/joint_trajectory_controller.py:246-254 | empty while the limits table is empty; otherwise a name is listed iff some running controller of that name has limits for all its joints |
| Discovery.Insert | rqt_joint_trajectory_controller/rqt_joint_trajectory_controller/joint_trajectory_controller.py:257 | insertion adds exactly one occurrence of the element and keeps a sorted list sorted |
| Discovery.LexLe | rqt_joint_trajectory_controller/rqt_joint_trajectory_controller/joint_trajectory_controller.py:257 | Python's `str` ordering used by `sorted`: character by character by code point, a prefix first (no contract of its own; see LexLeTotal and SortStrings) |
| Discovery.LexLeTotal | rqt_joint_trajectory_controller/rqt_joint_trajectory_controller/joint_trajectory_controller.py:257 | any two strings are comparable, so `sorted` has an order to follow |
| Discovery.SortStrings | rqt_joint_trajectory_controller/rqt_joint_trajectory_controller/joint_trajectory_controller.py:257 | `sorted`: the result is in Python string order and is a permutation of the input |
| Discovery.PublishedJtcNames | rqt_joint_trajectory_controller/rqt_joint_trajectory_controller/joint_trajectory_controller.py:237-257 | the offered list is sorted and empty while the limits table is empty. Otherwise it names exactly the reported controllers that are active, have the marker in their type and have limits for all their joints |
| Discovery.PublishedJtcNamesMembers | rqt_joint_trajectory_controller/rqt_joint_trajectory_controller/joint_trajectory_controller.py:237-257 | the membership half of the offered list, proved from the filter, the limit check and the sort |
| Synthesis.MaxOf | rqt_joint_trajectory_controller/rqt_joint_trajectory_controller/joint_trajectory_controller.py:439 | `max` of a non-empty list bounds every element and is one of them |
| Synthesis.Target | rqt_joint_trajectory_controller/rqt_joint_trajectory_controller/joint_trajectory_controller.py:430-435 | the commanded position of a joint: its command if one is set, else its current position (no contract of its own; see UpdateCmd) |
| Synthesis.JointDuration | rqt_joint_trajectory_controller/rqt_joint_trajectory_controller/joint_trajectory_controller.py:437 | `max(abs(cmd - pos) / max_vel, _min_traj_dur)`, with `_min_traj_dur` the constant 5 / 10 Hz of line 96: a joint's time is at least that minimum, and exactly that when no command is set |
| Synthesis.Durations | rqt_joint_trajectory_controller/rqt_joint_trajectory_controller/joint_trajectory_controller.py:429-436 | one duration per joint |
| Synthesis.TrajectoryDuration | rqt_joint_trajectory_controller/rqt_joint_trajectory_controller/joint_trajectory_controller.py:439 | `max(dur) / speed_scale` (no contract of its own; see TrajectoryDurationIsSlowestJoint and HoldingDuration) |
| Synthesis.TrajectoryDurationIsSlowestJoint | rqt_joint_trajectory_controller/rqt_joint_trajectory_controller/joint_trajectory_controller.py:436-439 | the unscaled duration is the slowest joint's: no joint needs longer and some joint needs exactly that. The scaled duration is at least the minimum duration over the speed scale |
| Synthesis.HoldingDuration | rqt_joint_trajectory_controller/rqt_joint_trajectory_controller/joint_trajectory_controller.py:429-439 | with no command set, the duration is exactly the minimum duration over the speed scale |
| JointTrajectoryPlugin.JointTrajectoryController.constructor | rqt_joint_trajectory_controller/rqt_joint_trajectory_controller/joint_trajectory_controller.py:119-185 | the initial plugin is valid and unloaded: nothing selected, no lister, empty combo and limits, both timers off, the given speed scale |
| JointTrajectoryPlugin.JointTrajectoryController.UpdateJtcList | rqt_joint_trajectory_controller/rqt_joint_trajectory_controller/joint_trajectory_controller.py:231-257 | without a lister the combo is cleared; otherwise it shows the offered list for the current limits. The limits table is filled from the robot description only on a tick where it is empty and a controller runs, and is otherwise untouched |
| JointTrajectoryPlugin.JointTrajectoryController.CollectJointLimits | rqt_joint_trajectory_controller/rqt_joint_trajectory_controller/joint_trajectory_controller.py:241-245 | the `update` loop builds the limits table of the running controllers (see CachedLimitsContent) |
| JointTrajectoryPlugin.JointTrajectoryController.OnCmChange | rqt_joint_trajectory_controller/rqt_joint_trajectory_controller/joint_trajectory_controller.py:267-277 | records the namespace. A lister exists iff the namespace is non-empty; then the combo is re-polled, otherwise the combo is unchanged. The limits table is filled from the robot description only when the namespace is non-empty, the table is empty and a controller runs; otherwise it is unchanged |
| JointTrajectoryPlugin.JointTrajectoryController.OnSpeedScalingChange | rqt_joint_trajectory_controller/rqt_joint_trajectory_controller/joint_trajectory_controller.py:259-260 | the speed scale is the editor value over the slider maximum, and the invariant holds |
| JointTrajectoryPlugin.JointTrajectoryController.OnJtcEnabled | rqt_joint_trajectory_controller/rqt_joint_trajectory_controller/joint_trajectory_controller.py:285-305 | with nothing selected, the button ends unchecked and the timers are untouched. Otherwise the command timer runs iff `val`, the refresh timer runs iff not `val`, and speed scaling is enabled iff `val` |
| JointTrajectoryPlugin.JointTrajectoryController.SetEnableButton | rqt_joint_trajectory_controller/rqt_joint_trajectory_controller/joint_trajectory_controller.py:288 | `setChecked` reaches `_on_jtc_enabled` only on a change of state; the resulting timers and button for each case |
| JointTrajectoryPlugin.JointTrajectoryController.UnregisterCmdPub | rqt_joint_trajectory_controller/rqt_joint_trajectory_controller/joint_trajectory_controller.py:397-400 | afterwards there is no publisher, whether or not there was one (idempotent) |
| JointTrajectoryPlugin.JointTrajectoryController.UnregisterStateSub | rqt_joint_trajectory_controller/rqt_joint_trajectory_controller/joint_trajectory_controller.py:402-405 | afterwards there is no subscription (idempotent) |
| JointTrajectoryPlugin.JointTrajectoryController.UnregisterExecutor | rqt_joint_trajectory_controller/rqt_joint_trajectory_controller/joint_trajectory_controller.py:407-411 | afterwards no executor runs (idempotent) |
| JointTrajectoryPlugin.JointTrajectoryController.UnloadJtc | rqt_joint_trajectory_controller/rqt_joint_trajectory_controller/joint_trajectory_controller.py:356-385 | afterwards there are no handles, no joints, an empty table, the button unchecked and the command timer off. The refresh timer starts if the button was checked; selection, limits and combo are outside the frame |
| JointTrajectoryPlugin.JointTrajectoryController.LoadJtc | rqt_joint_trajectory_controller/rqt_joint_trajectory_controller/joint_trajectory_controller.py:307-354 | fails without a lister or without a running controller of the selected name, and then leaves the plugin unloaded. Otherwise it takes that controller's joints and reaches the loaded state `Bound` |
| JointTrajectoryPlugin.JointTrajectoryController.BindJtc | rqt_joint_trajectory_controller/rqt_joint_trajectory_controller/joint_trajectory_controller.py:313-354 | from the unloaded state, `Bound(names)` holds afterwards: the joints are stored, each has an empty entry, and the plugin is in monitor mode with the button unchecked. Both topics are in the resolved namespace, the feedback signal is connected and the executor runs |
| JointTrajectoryPlugin.JointTrajectoryController.ConnectInterfaces | rqt_joint_trajectory_controller/rqt_joint_trajectory_controller/joint_trajectory_controller.py:340-354 | subscription on `ns/controller_state`, publisher on `ns/joint_trajectory`, signal connected and executor running, and the invariant holds |
| JointTrajectoryPlugin.JointTrajectoryController.EmptyJointTable | rqt_joint_trajectory_controller/rqt_joint_trajectory_controller/joint_trajectory_controller.py:313-314 | the table has exactly the joints as keys, each with an empty entry |
| JointTrajectoryPlugin.JointTrajectoryController.OnJtcChange | rqt_joint_trajectory_controller/rqt_joint_trajectory_controller/joint_trajectory_controller.py:279-283 | always unloads, then records the name. It loads iff the name is non-empty and ends loaded iff the lister exists and that controller runs; otherwise the plugin ends unloaded, the refresh timer runs if it ran or the button was checked, and speed scaling stays enabled only if it was and the button was unchecked. Limits and combo are unchanged |
| JointTrajectoryPlugin.JointTrajectoryController.StateCallback | rqt_joint_trajectory_controller/rqt_joint_trajectory_controller/joint_trajectory_controller.py:413-419 | needs at least as many positions as names. The map's keys are exactly the message's names, and each name maps to the position at its last occurrence |
| JointTrajectoryPlugin.JointTrajectoryController.OnJointStateChange | rqt_joint_trajectory_controller/rqt_joint_trajectory_controller/joint_trajectory_controller.py:262-265 | needs as many reported joints as table entries, all known. Afterwards every joint's position is the reported one, while every command and the key set are unchanged |
| JointTrajectoryPlugin.JointTrajectoryController.UpdateSingleCmd | rqt_joint_trajectory_controller/rqt_joint_trajectory_controller/joint_trajectory_controller.py:421-422 | only the named joint's command changes |
| JointTrajectoryPlugin.JointTrajectoryController.UpdateCmd | rqt_joint_trajectory_controller/rqt_joint_trajectory_controller/joint_trajectory_controller.py:424-443 | needs a publisher, at least one joint, and for every joint a reported position and a non-zero velocity limit (the ValueError, KeyError and ZeroDivisionError exits; see Left out). Then: one point over the selected joints. Each position is the joint's command if set, else its position. The time is the slowest joint's duration over the speed scale, at least the minimum over the speed scale, and exactly that when no command is set |
| JointTrajectoryPlugin.SameSizeSubsetKeys | rqt_joint_trajectory_controller/rqt_joint_trajectory_controller/joint_trajectory_controller.py:263-265 | a reported key set that is a subset of the table's keys with the same size is the whole key set, so every joint gets a position |

## Left out

- Qt widgets: the joint editors, the layout teardown, `_joint_widgets`
  and `_update_joint_widgets`. They only display values, and they are
  rebuilt from a layout.
- Qt signal delivery and timer scheduling. Timers are flags.
  `jointStateChanged` is not delivered: `StateCallback` returns the map
  and `OnJointStateChange` takes one. Combo-box signals are not
  modelled, such as `clear()` emitting `_on_jtc_change("")`.
- The rclpy node, publisher, subscription, executor and thread. Handles
  are optional topic names and a flag, and nothing is sent.
- `ControllerLister`, `ControllerManagerLister`, `update_combo`,
  `filter_by_type`, `filter_by_state` and `get_joint_limits` are not
  part of this model. The lister's report and the robot description's
  limits table are parameters, and the combo is assigned the list.
- GetJointLimits: `get_joint_limits` is assumed to return, for the
  requested joints, exactly the robot description's entries for those
  of them it specifies, and no other joint. `filter_by_type` is assumed
  to match the type as a substring, and `filter_by_state` the state
  exactly. CachedLimitsContent, PublishedJtcNames and
  RunningJtcInfoMembers hold under these assumptions.
- `_update_cm_list`, `save_settings`, `restore_settings` and
  `shutdown_plugin`: settings persistence and teardown, not session
  logic.
- The exception swallowed in the widget loop of `_load_jtc`. It can only
  skip widgets.
- IEEE floating point and the `Duration` message conversion. The
  arithmetic is over exact reals.
- OnSpeedScalingChange: the slider maximum is a parameter, because the
  editor is not modelled.
- LoadJtc: the source does the whole of `_load_jtc` in one function. The
  model splits it into the lookup (`LoadJtc`) and the steps after it
  (`BindJtc`, `ConnectInterfaces`).
- EmptyJointTable: the joint-table loop of `_load_jtc` is a separate
  method of the model.
- CollectJointLimits: the `update` loop of `_update_jtc_list` is a
  separate method of the model.
- OnJtcEnabled: Qt emits `toggled` before the slot runs, so the method
  requires the button to show `val` already. `_load_jtc` calls it
  directly with `False` right after an unload, which already satisfies
  that.
- UpdateCmd: its preconditions stand for error exits of
  `_update_cmd_cb`. The callback needs a publisher, at least one joint
  (else `max(dur)` raises `ValueError`), and for every joint a reported
  position and a limits entry (else `KeyError`). Every velocity limit
  must be non-zero (else `ZeroDivisionError`). Both the no-joint case
  and the zero limit are reachable: a failed load leaves a controller
  name with no joints, and checking the button then starts the command
  timer; a robot description may give a joint velocity 0. In those
  cases the source raises on every command tick and publishes nothing;
  the model does not describe those ticks.
- OnCmChange and UpdateJtcList do not restate the invariant. Their
  frames touch none of the fields `Valid()` reads.
