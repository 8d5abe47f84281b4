/** Discovery of the controllers the plugin can drive: the filter on the
    controller manager's report, the joint-limits table read from the
    robot description, and the list of controller names offered to the
    user. */
module Discovery {

  import opened Wrappers
  import opened Naming

  /** One entry of a controller manager's controller list. */
  datatype ControllerInfo = ControllerInfo(
    name: string,
    controllerType: string,
    state: string,
    requiredStateInterfaces: seq<string>)

  /** Position and velocity limits of one joint, from the robot description. */
  datatype JointLimits = JointLimits(minPosition: real, maxPosition: real, maxVelocity: real)

  /** The type substring that marks a joint trajectory controller. */
  const JtcTypeMarker: string := "JointTrajectoryController"

  /** The lifecycle state of a running controller. */
  const ActiveState: string := "active"

  /** `sub` occurs in `s` starting at position `i`. */
  predicate OccursAt(s: string, sub: string, i: int)
  {
    0 <= i <= |s| - |sub| && s[i..i + |sub|] == sub
  }

  /** Python's `sub in s` on strings: `sub` occurs somewhere in `s`. */
  function Contains(s: string, sub: string): (b: bool)
    ensures b <==> exists i :: OccursAt(s, sub, i)
  {
    if sub <= s then
      assert OccursAt(s, sub, 0);
      true
    else if |s| == 0 then false
    else
      OccursInTail(s, sub);
      Contains(s[1..], sub)
  }

  /** When `s` does not start with `sub`, `sub` occurs in `s` iff it
      occurs in `s` without its first character. */
  lemma OccursInTail(s: string, sub: string)
    requires |s| > 0 && !(sub <= s)
    ensures (exists i :: OccursAt(s, sub, i)) <==> (exists i :: OccursAt(s[1..], sub, i))
  {
    if i :| OccursAt(s, sub, i) {
      assert i != 0;
      assert s[1..][i - 1..i - 1 + |sub|] == s[i..i + |sub|];
      assert OccursAt(s[1..], sub, i - 1);
    }
    if i :| OccursAt(s[1..], sub, i) {
      assert s[1..][i..i + |sub|] == s[i + 1..i + 1 + |sub|];
      assert OccursAt(s, sub, i + 1);
    }
  }

  /** The filter of `_running_jtc_info`: the type contains the marker
      and the state is exactly "active". */
  predicate IsRunningJtc(c: ControllerInfo)
  {
    Contains(c.controllerType, JtcTypeMarker) && c.state == ActiveState
  }

  /** `_running_jtc_info` on one report of the controller lister:
      the running joint trajectory controllers, in report order. */
  function RunningJtcInfo(controllers: seq<ControllerInfo>): (running: seq<ControllerInfo>)
    ensures |running| <= |controllers|
  {
    if |controllers| == 0 then []
    else
      var rest := RunningJtcInfo(controllers[1..]);
      if IsRunningJtc(controllers[0]) then [controllers[0]] + rest else rest
  }

  /** The running controllers are exactly the reported controllers that
      pass the filter. */
  lemma {:induction false} RunningJtcInfoMembers(controllers: seq<ControllerInfo>)
    ensures forall c :: c in RunningJtcInfo(controllers) <==> c in controllers && IsRunningJtc(c)
  {
    if |controllers| > 0 {
      RunningJtcInfoMembers(controllers[1..]);
      assert forall c :: c in controllers <==> c == controllers[0] || c in controllers[1..];
    }
  }

  /** The filter keeps the report's order: the first running controller
      named `name` is the first controller of the report that runs and
      has that name, and there is none exactly when no reported
      controller runs under that name. */
  lemma {:induction false} FirstNamedInReport(controllers: seq<ControllerInfo>, name: string)
    ensures FirstNamed(RunningJtcInfo(controllers), name).Some? ==>
      exists j :: 0 <= j < |controllers| && IsRunningJtc(controllers[j]) && controllers[j].name == name
        && RunningJtcInfo(controllers)[FirstNamed(RunningJtcInfo(controllers), name).value] == controllers[j]
        && forall i :: 0 <= i < j ==> !(IsRunningJtc(controllers[i]) && controllers[i].name == name)
    ensures FirstNamed(RunningJtcInfo(controllers), name).None? ==>
      forall i :: 0 <= i < |controllers| ==> !(IsRunningJtc(controllers[i]) && controllers[i].name == name)
  {
    if |controllers| > 0 {
      var c := controllers[0];
      var tail := controllers[1..];
      var rest := RunningJtcInfo(tail);
      var running := RunningJtcInfo(controllers);
      FirstNamedInReport(tail, name);
      if IsRunningJtc(c) && c.name == name {
        assert running[0] == c;
        assert FirstNamed(running, name) == Some(0);
      } else {
        if IsRunningJtc(c) {
          assert running == [c] + rest && running[1..] == rest;
          assert FirstNamed(running, name) == match FirstNamed(rest, name)
            case None => None
            case Some(k) => Some(k + 1);
        } else {
          assert running == rest;
        }
        match FirstNamed(rest, name)
        case None =>
          forall i | 0 <= i < |controllers|
            ensures !(IsRunningJtc(controllers[i]) && controllers[i].name == name)
          {
            if i > 0 {
              assert controllers[i] == tail[i - 1];
            }
          }
        case Some(k) =>
          var j :| 0 <= j < |tail| && IsRunningJtc(tail[j]) && tail[j].name == name
            && rest[k] == tail[j]
            && forall i :: 0 <= i < j ==> !(IsRunningJtc(tail[i]) && tail[i].name == name);
          assert controllers[j + 1] == tail[j];
          forall i | 0 <= i < j + 1
            ensures !(IsRunningJtc(controllers[i]) && controllers[i].name == name)
          {
            if i > 0 {
              assert controllers[i] == tail[i - 1];
            }
          }
      }
    }
  }

  /** `next(... for x in running if x.name == name)`: the position of the
      first controller with that name, or None (Python's StopIteration). */
  function FirstNamed(running: seq<ControllerInfo>, name: string): (r: Option<nat>)
    ensures r.Some? ==> r.value < |running| && running[r.value].name == name &&
                        forall j :: 0 <= j < r.value ==> running[j].name != name
    ensures r.None? ==> forall j :: 0 <= j < |running| ==> running[j].name != name
  {
    if |running| == 0 then None
    else if running[0].name == name then Some(0)
    else
      match FirstNamed(running[1..], name)
      case None => None
      case Some(k) => Some(k + 1)
  }

  /** The robot description's answer for a set of joints: the limits of
      those of them it specifies. */
  function GetJointLimits(urdf: map<string, JointLimits>, names: seq<string>): map<string, JointLimits>
  {
    map n | n in names && n in urdf :: urdf[n]
  }

  /** The limits table built from the running controllers: one
      `update` with each controller's joints, in order. */
  function CachedLimits(urdf: map<string, JointLimits>, running: seq<ControllerInfo>): map<string, JointLimits>
  {
    if |running| == 0 then map[]
    else
      CachedLimits(urdf, running[..|running| - 1])
        + GetJointLimits(urdf, JointNames(running[|running| - 1].requiredStateInterfaces))
  }

  /** `n` is a joint of some controller of `cs`. */
  predicate JointOfSome(cs: seq<ControllerInfo>, n: string)
  {
    exists k :: 0 <= k < |cs| && n in JointNames(cs[k].requiredStateInterfaces)
  }

  /** The cached table holds exactly the joints of the running
      controllers that the robot description knows, with its limits. */
  lemma {:induction false} CachedLimitsContent(urdf: map<string, JointLimits>, running: seq<ControllerInfo>, n: string)
    ensures n in CachedLimits(urdf, running) <==> n in urdf && JointOfSome(running, n)
    ensures n in CachedLimits(urdf, running) ==> CachedLimits(urdf, running)[n] == urdf[n]
  {
    CachedLimitsFromUrdf(urdf, running, n);
    if |running| > 0 {
      var init := running[..|running| - 1];
      CachedLimitsContent(urdf, init, n);
      JointOfSomeSnoc(running, n);
    }
  }

  /** Every cached entry is the robot description's entry. */
  lemma {:induction false} CachedLimitsFromUrdf(urdf: map<string, JointLimits>, running: seq<ControllerInfo>, n: string)
    ensures n in CachedLimits(urdf, running) ==> n in urdf && CachedLimits(urdf, running)[n] == urdf[n]
  {
    if |running| > 0 {
      CachedLimitsFromUrdf(urdf, running[..|running| - 1], n);
    }
  }

  /** A joint of some controller of `running` is a joint of some
      controller before the last one, or of the last one. */
  lemma JointOfSomeSnoc(running: seq<ControllerInfo>, n: string)
    requires |running| > 0
    ensures JointOfSome(running, n) <==>
      JointOfSome(running[..|running| - 1], n) || n in JointNames(running[|running| - 1].requiredStateInterfaces)
  {
    var init := running[..|running| - 1];
    if k :| 0 <= k < |running| && n in JointNames(running[k].requiredStateInterfaces) {
      if k < |init| {
        assert init[k] == running[k];
      }
    }
    if k :| 0 <= k < |init| && n in JointNames(init[k].requiredStateInterfaces) {
      assert running[k] == init[k];
    }
  }

  /** Every joint of controller `c` has limits in `limits`. */
  predicate HasAllLimits(c: ControllerInfo, limits: map<string, JointLimits>)
  {
    forall n :: n in JointNames(c.requiredStateInterfaces) ==> n in limits
  }

  /** Some controller of `cs` is named `x` and has limits for all its joints. */
  predicate SomeWithLimits(cs: seq<ControllerInfo>, x: string, limits: map<string, JointLimits>)
  {
    exists c :: c in cs && c.name == x && HasAllLimits(c, limits)
  }

  /** The names of the running controllers with limits for all their
      joints, in report order. */
  function NamesWithLimits(running: seq<ControllerInfo>, limits: map<string, JointLimits>): (names: seq<string>)
    ensures forall x :: x in names <==> SomeWithLimits(running, x, limits)
  {
    if |running| == 0 then []
    else
      var rest := NamesWithLimits(running[1..], limits);
      assert forall c :: c in running <==> c == running[0] || c in running[1..];
      if HasAllLimits(running[0], limits) then [running[0].name] + rest else rest
  }

  /** The `valid_jtc` names of `_update_jtc_list`: nothing until the
      limits table is filled, then the controllers whose joints all have
      limits. */
  function ValidJtcNames(running: seq<ControllerInfo>, limits: map<string, JointLimits>): (names: seq<string>)
    ensures |limits| == 0 ==> names == []
    ensures forall x :: x in names <==> |limits| > 0 && SomeWithLimits(running, x, limits)
  {
    if |limits| == 0 then [] else NamesWithLimits(running, limits)
  }

  /** Python's ordering of strings: by code point, a prefix first. */
  predicate LexLe(a: string, b: string)
  {
    |a| == 0 || (|b| > 0 && (a[0] < b[0] || (a[0] == b[0] && LexLe(a[1..], b[1..]))))
  }

  lemma {:induction false} LexLeTotal(a: string, b: string)
    ensures LexLe(a, b) || LexLe(b, a)
  {
    if |a| > 0 && |b| > 0 && a[0] == b[0] {
      LexLeTotal(a[1..], b[1..]);
    }
  }

  predicate Sorted(s: seq<string>)
  {
    forall i :: 0 <= i < |s| - 1 ==> LexLe(s[i], s[i + 1])
  }

  /** Insert `x` into sorted `s` before the first element it does not exceed. */
  function Insert(x: string, s: seq<string>): (r: seq<string>)
    ensures multiset(r) == multiset(s) + multiset{x}
    ensures |r| > 0 && (r[0] == x || (|s| > 0 && r[0] == s[0]))
    ensures Sorted(s) ==> Sorted(r)
  {
    if |s| == 0 then [x]
    else if LexLe(x, s[0]) then [x] + s
    else
      LexLeTotal(x, s[0]);
      var rest := Insert(x, s[1..]);
      assert s == [s[0]] + s[1..];
      [s[0]] + rest
  }

  /** Python's `sorted` on a list of strings. */
  function SortStrings(s: seq<string>): (r: seq<string>)
    ensures Sorted(r)
    ensures multiset(r) == multiset(s)
  {
    if |s| == 0 then []
    else
      assert s == [s[0]] + s[1..];
      Insert(s[0], SortStrings(s[1..]))
  }

  /** `x` names a running joint trajectory controller of the report
      that has limits for all its joints. */
  predicate Offerable(controllers: seq<ControllerInfo>, x: string, limits: map<string, JointLimits>)
  {
    exists c :: c in controllers && IsRunningJtc(c) && c.name == x && HasAllLimits(c, limits)
  }

  /** The list `_update_jtc_list` puts in the controller combo box when a
      controller lister exists: sorted, and holding exactly the offerable
      controllers, and nothing at all while the limits table is empty. */
  function PublishedJtcNames(controllers: seq<ControllerInfo>, limits: map<string, JointLimits>): (names: seq<string>)
    ensures Sorted(names)
    ensures |limits| == 0 ==> names == []
    ensures forall x :: x in names <==> |limits| > 0 && Offerable(controllers, x, limits)
  {
    PublishedJtcNamesMembers(controllers, limits);
    SortStrings(ValidJtcNames(RunningJtcInfo(controllers), limits))
  }

  lemma PublishedJtcNamesMembers(controllers: seq<ControllerInfo>, limits: map<string, JointLimits>)
    ensures forall x :: x in SortStrings(ValidJtcNames(RunningJtcInfo(controllers), limits)) <==>
      |limits| > 0 && Offerable(controllers, x, limits)
  {
    var running := RunningJtcInfo(controllers);
    RunningJtcInfoMembers(controllers);
    var valid := ValidJtcNames(running, limits);
    var r := SortStrings(valid);
    forall x ensures x in r <==> x in valid {
      assert x in r <==> x in multiset(r);
      assert x in valid <==> x in multiset(valid);
    }
    forall x ensures SomeWithLimits(running, x, limits) <==> Offerable(controllers, x, limits) {
      if Offerable(controllers, x, limits) {
        var c :| c in controllers && IsRunningJtc(c) && c.name == x && HasAllLimits(c, limits);
        assert c in running;
      }
    }
  }
}
