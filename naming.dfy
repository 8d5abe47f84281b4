/** The two module-level string helpers of the plugin: resolving a
    controller's namespace from its controller manager's namespace, and
    turning a controller's state-interface names into its joint names. */
module Naming {

  import opened Wrappers

  /** Index of the last '/' of `s`, if any. */
  function LastSlash(s: string): (r: Option<nat>)
    ensures r.None? ==> '/' !in s
    ensures r.Some? ==> r.value < |s| && s[r.value] == '/' && '/' !in s[r.value + 1..]
  {
    if |s| == 0 then None
    else if s[|s| - 1] == '/' then Some(|s| - 1)
    else
      var r := LastSlash(s[..|s| - 1]);
      assert s == s[..|s| - 1] + [s[|s| - 1]];
      r
  }

  /** A '/' at `i` with none after it is the last one. */
  lemma LastSlashAt(s: string, i: nat)
    requires i < |s| && s[i] == '/' && '/' !in s[i + 1..]
    ensures LastSlash(s) == Some(i)
  {
  }

  /** Python's `s.rsplit("/", 1)`: the whole string when it has no '/',
      otherwise the parts before and after its last '/'. */
  function RSplitOnce(s: string): (parts: seq<string>)
    ensures |parts| == 1 <==> '/' !in s
    ensures |parts| == 1 ==> parts[0] == s
    ensures |parts| == 2 ==> parts[0] + "/" + parts[1] == s && '/' !in parts[1]
    ensures 1 <= |parts| <= 2
  {
    match LastSlash(s)
    case None => [s]
    case Some(i) =>
      assert s == s[..i] + "/" + s[i + 1..];
      [s[..i], s[i + 1..]]
  }

  /** Python's `s.split("/")`, built from the last separator backwards:
      the parts contain no '/', and joining them with '/' gives back `s`
      (lemma JoinSplit), which determines the split uniquely. */
  function Split(s: string): (parts: seq<string>)
    ensures |parts| >= 1
    ensures forall k :: 0 <= k < |parts| ==> '/' !in parts[k]
    decreases |s|
  {
    match LastSlash(s)
    case None => [s]
    case Some(i) => Split(s[..i]) + [s[i + 1..]]
  }

  /** Python's `"/".join(parts)`. */
  function Join(parts: seq<string>): string
  {
    if |parts| == 0 then ""
    else if |parts| == 1 then parts[0]
    else Join(parts[..|parts| - 1]) + "/" + parts[|parts| - 1]
  }

  lemma {:induction false} JoinSplit(s: string)
    ensures Join(Split(s)) == s
    decreases |s|
  {
    match LastSlash(s)
    case None =>
    case Some(i) =>
      var head := Split(s[..i]);
      JoinSplit(s[..i]);
      var parts := head + [s[i + 1..]];
      assert parts[..|parts| - 1] == head;
      assert s == s[..i] + "/" + s[i + 1..];
  }

  /** The joint an interface name belongs to:
      `"/".join(interface.split("/")[:-1])`. It is the interface with its
      last '/'-segment (and that '/') removed; without any '/', it is
      empty. */
  function JointNameOf(iface: string): (name: string)
    ensures '/' !in iface ==> name == ""
    ensures forall i :: 0 <= i < |iface| && iface[i] == '/' && '/' !in iface[i + 1..] ==>
      name == iface[..i]
  {
    var parts := Split(iface);
    JoinInitSplit(iface);
    Join(parts[..|parts| - 1])
  }

  /** Joining all but the last '/'-part of a string gives the string up
      to its last '/'. */
  lemma JoinInitSplit(iface: string)
    ensures '/' !in iface ==> Join(Split(iface)[..|Split(iface)| - 1]) == ""
    ensures forall i :: 0 <= i < |iface| && iface[i] == '/' && '/' !in iface[i + 1..] ==>
      Join(Split(iface)[..|Split(iface)| - 1]) == iface[..i]
  {
    match LastSlash(iface)
    case None =>
    case Some(i) =>
      var parts := Split(iface);
      assert parts[..|parts| - 1] == Split(iface[..i]);
      JoinSplit(iface[..i]);
      forall j | 0 <= j < |iface| && iface[j] == '/' && '/' !in iface[j + 1..]
        ensures j == i
      {
        LastSlashAt(iface, j);
      }
  }

  /** The namespace of controller `controllerName` when its controller
      manager lives in `cmNs`: controllers live one level above the
      manager, and a manager without a parent namespace puts them in the
      root namespace. */
  function ResolveControllerNs(cmNs: string, controllerName: string): (ns: string)
    requires controllerName != ""
    ensures |ns| > |controllerName| && ns[|ns| - |controllerName|..] == controllerName
    ensures ns[|ns| - |controllerName| - 1] == '/'
    ensures '/' !in cmNs ==> ns == cmNs + "/" + controllerName
    ensures LastSlash(cmNs).Some? ==>
      var i := LastSlash(cmNs).value;
      ns == (if cmNs[..i] == "/" then "/" else cmNs[..i] + "/") + controllerName
  {
    var parent := RSplitOnce(cmNs)[0];
    var prefix := if parent != "/" then parent + "/" else parent;
    prefix + controllerName
  }

  /** A controller lives beside its manager: for a manager at
      `parent/managerName`, the controller is `parent/controllerName`
      (`/path/to/controller_manager` and `foo` give `/path/to/foo`). */
  lemma ResolveControllerNsSibling(parent: string, managerName: string, controllerName: string)
    requires controllerName != "" && '/' !in managerName && parent != "/"
    ensures ResolveControllerNs(parent + "/" + managerName, controllerName) == parent + "/" + controllerName
  {
    var cm := parent + "/" + managerName;
    assert cm[|parent|] == '/' && cm[|parent| + 1..] == managerName && cm[..|parent|] == parent;
    LastSlashAt(cm, |parent|);
  }

  /** A manager in the root namespace (`/`) or with an empty namespace
      puts its controllers in the root namespace. */
  lemma ResolveControllerNsRoot()
    ensures ResolveControllerNs("/", "foo") == "/foo"
    ensures ResolveControllerNs("", "foo") == "/foo"
  {
    LastSlashAt("/", 0);
  }

  /** No element occurs twice. */
  predicate NoDup(s: seq<string>)
  {
    forall i, j :: 0 <= i < j < |s| ==> s[i] != s[j]
  }

  /** The elements of `xs`, each kept at its first occurrence. */
  function Dedup(xs: seq<string>): (r: seq<string>)
    ensures |r| <= |xs|
  {
    if |xs| == 0 then []
    else
      var seen := Dedup(xs[..|xs| - 1]);
      if xs[|xs| - 1] in seen then seen else seen + [xs[|xs| - 1]]
  }

  lemma {:induction false} DedupNoDup(xs: seq<string>)
    ensures NoDup(Dedup(xs))
  {
    if |xs| > 0 {
      DedupNoDup(xs[..|xs| - 1]);
    }
  }

  lemma {:induction false} DedupMembers(xs: seq<string>)
    ensures forall x :: x in Dedup(xs) <==> x in xs
  {
    if |xs| > 0 {
      var init := xs[..|xs| - 1];
      DedupMembers(init);
      assert xs == init + [xs[|xs| - 1]];
    }
  }

  /** Some occurrence of `a` in `xs` precedes every occurrence of `b`. */
  predicate SeenBefore(xs: seq<string>, a: string, b: string)
  {
    exists i :: 0 <= i < |xs| && xs[i] == a && b !in xs[..i + 1]
  }

  /** Order of first occurrence: an element that comes earlier in the
      output was seen earlier in the input. */
  lemma {:induction false} DedupFirstSeenOrder(xs: seq<string>)
    ensures forall p, q :: 0 <= p < q < |Dedup(xs)| ==> SeenBefore(xs, Dedup(xs)[p], Dedup(xs)[q])
  {
    if |xs| > 0 {
      var init := xs[..|xs| - 1];
      var seen := Dedup(init);
      var d := Dedup(xs);
      DedupFirstSeenOrder(init);
      DedupMembers(init);
      forall p, q | 0 <= p < q < |d|
        ensures SeenBefore(xs, d[p], d[q])
      {
        assert d[p] == seen[p];
        var i;
        if q < |seen| {
          assert d[q] == seen[q];
          assert SeenBefore(init, seen[p], seen[q]);
          i :| 0 <= i < |init| && init[i] == seen[p] && seen[q] !in init[..i + 1];
        } else {
          assert seen[p] in seen;
          i :| 0 <= i < |init| && init[i] == seen[p];
        }
        assert xs[..i + 1] == init[..i + 1];
        assert xs[i] == d[p];
      }
    }
  }

  /** The joint of each interface, in interface order. */
  function InterfaceJoints(ifaces: seq<string>): (js: seq<string>)
    ensures |js| == |ifaces|
  {
    seq(|ifaces|, k requires 0 <= k < |ifaces| => JointNameOf(ifaces[k]))
  }

  /** The joint names of a controller with these required state interfaces. */
  function JointNames(ifaces: seq<string>): seq<string>
  {
    Dedup(InterfaceJoints(ifaces))
  }

  /** `_jtc_joint_names`: one pass over the interfaces, appending each
      interface's joint unless it was already appended. */
  method JtcJointNames(ifaces: seq<string>) returns (names: seq<string>)
    ensures names == JointNames(ifaces)
    ensures NoDup(names)
    ensures |names| <= |ifaces|
    ensures forall x :: x in names <==> x in InterfaceJoints(ifaces)
    ensures forall p, q :: 0 <= p < q < |names| ==> SeenBefore(InterfaceJoints(ifaces), names[p], names[q])
  {
    names := [];
    var i := 0;
    while i < |ifaces|
      invariant 0 <= i <= |ifaces|
      invariant names == Dedup(InterfaceJoints(ifaces[..i]))
    {
      var name := JointNameOf(ifaces[i]);
      assert InterfaceJoints(ifaces[..i + 1])[..i] == InterfaceJoints(ifaces[..i]);
      if name !in names {
        names := names + [name];
      }
      i := i + 1;
    }
    assert ifaces[..i] == ifaces;
    var js := InterfaceJoints(ifaces);
    DedupNoDup(js);
    DedupMembers(js);
    DedupFirstSeenOrder(js);
  }
}
