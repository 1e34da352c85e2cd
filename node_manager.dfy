/** The node lifecycle rules of the node manager: the host-name policy for
    imported nodes, the lock and minimum-count checks made before a delete,
    the status update with its change bitfield, grouping of nodes by
    hardware profile, the delete itself (with the clean-up of tags left
    without any owner) and the default relations loaded with a node. */
module NodeManager {
  import opened Wrappers
  import Strings
  import NodesDb

  const StateAllocated := "Allocated"
  const StateProvisioned := "Provisioned"
  const StateDeleted := "Deleted"

  datatype Error =
    | ConfigurationError(msg: string)
    | OperationFailed(msg: string)
    | NodeNotFound(msg: string)
    | AdapterFailed(msg: string)
    | IndexError
    | AttributeError
    | MultipleResultsFound

  datatype LockState = Unlocked | SoftLocked | HardLocked

  /** A software profile as the delete check sees it; `nodeCount` is the
      number of nodes the profile holds, `minNodes` 0 means no minimum. */
  datatype SoftwareProfile = SoftwareProfile(
    name: string, profileType: string, lockedState: LockState, minNodes: nat, nodeCount: nat)

  datatype HardwareProfile = HardwareProfile(name: string, location: string, resourceAdapter: Option<string>)

  datatype Nic = Nic(mac: string, ip: string, boot: bool)

  datatype Node = Node(
    name: string, state: string, bootFrom: int, hw: HardwareProfile,
    sw: Option<SoftwareProfile>, nics: seq<Nic>, tags: seq<nat>, lastUpdate: string)

  /** A tag row: the nodes and profiles it is attached to. */
  datatype Tag = Tag(name: string, value: string, nodes: set<string>,
                     softwareProfiles: set<string>, hardwareProfiles: set<string>)

  /** A `NodeStateChanged` event: the node snapshot and the state before. */
  datatype Event = Event(node: Node, previousState: string)

  // ---------------------------------------------------------------------
  // Host-name policy
  // ---------------------------------------------------------------------


  /** An explicit host name is allowed exactly when the hardware profile's
      name format is the wildcard `*`, and required in that case. */
  function ValidateHostName(hostname: Option<string>, nameFormat: string): (r: Outcome<Error>)
    ensures r.Pass? <==> (Truthy(hostname) <==> nameFormat == "*")
    ensures r.Fail? ==> r.error.ConfigurationError?
  {
    var wildcard := nameFormat == "*";
    if Truthy(hostname) && !wildcard then
      Fail(ConfigurationError("Hardware profile does not allow setting host names of imported nodes"))
    else if !Truthy(hostname) && wildcard then
      Fail(ConfigurationError("Hardware profile requires host names to be set"))
    else Pass
  }

  // ---------------------------------------------------------------------
  // Delete validation
  // ---------------------------------------------------------------------

  /** The distinct elements of `s` in order of first appearance: the key
      order of a dict filled while walking `s`. */
  function FirstAppearance<T(==)>(s: seq<T>): seq<T>
    decreases |s|
  {
    if s == [] then []
    else
      var f := FirstAppearance(s[..|s| - 1]);
      if s[|s| - 1] in f then f else f + [s[|s| - 1]]
  }

  /** The first-appearance order lists each element of `s` once. */
  lemma {:induction false} FirstAppearanceMembers<T>(s: seq<T>)
    ensures forall x :: x in FirstAppearance(s) <==> x in s
    ensures Distinct(FirstAppearance(s))
    decreases |s|
  {
    if s != [] {
      var s' := s[..|s| - 1];
      assert s == s' + [s[|s| - 1]];
      FirstAppearanceMembers(s');
    }
  }

  /** How many of the nodes belong to profile `p`. */
  function Count<T(==)>(s: seq<T>, p: T): nat
  {
    multiset(s)[p]
  }

  function HardLockedMessage(name: string): string
  {
    "Nodes cannot be deleted from hard locked software profile [" + name + "]"
  }

  function MinNodesMessage(sp: SoftwareProfile, deleted: nat): string
  {
    "Software profile [" + sp.name + "] requires minimum of " + Strings.NatToString(sp.minNodes) +
    " nodes; denied request to delete " + Strings.NatToString(deleted) + " node(s)"
  }

  function SoftLockedMessage(name: string): string
  {
    "Nodes cannot be deleted from soft locked software profile [" + name + "]"
  }

  /** The objection, if any, to deleting `deleted` nodes of profile `sp`;
      a hard-locked profile gets the message as the code writes it. */
  function Violation(sp: SoftwareProfile, deleted: nat, force: bool): (r: Option<string>)
    ensures sp.lockedState == HardLocked ==> r == Some(HardLockedMessageAsWritten(sp.name))
    ensures sp.lockedState == SoftLocked && !force ==> r.Some?
    ensures sp.lockedState == Unlocked ==>
      (r.Some? <==> sp.minNodes > 0 && sp.nodeCount - deleted < sp.minNodes)
    ensures force && sp.lockedState == SoftLocked ==> r.None?
  {
    if sp.lockedState == HardLocked then Some(HardLockedMessageAsWritten(sp.name))
    else if sp.minNodes > 0 && sp.nodeCount - deleted < sp.minNodes then
      if force && sp.lockedState == SoftLocked then None else Some(MinNodesMessage(sp, deleted))
    else if sp.lockedState == SoftLocked && !force then Some(SoftLockedMessage(sp.name))
    else None
  }

  /** The error message contributed by one key of the profile distribution;
      nodes without a software profile contribute none. */
  function ErrorFor(k: Option<SoftwareProfile>, profiles: seq<Option<SoftwareProfile>>, force: bool): seq<string>
  {
    match k
    case None => []
    case Some(sp) =>
      match Violation(sp, Count(profiles, k), force)
      case None => []
      case Some(m) => [m]
  }

  /** The errors collected while walking `keys`. */
  function ErrorsOf(keys: seq<Option<SoftwareProfile>>, profiles: seq<Option<SoftwareProfile>>, force: bool): seq<string>
    decreases |keys|
  {
    if keys == [] then []
    else ErrorsOf(keys[..|keys| - 1], profiles, force) + ErrorFor(keys[|keys| - 1], profiles, force)
  }

  /** The outcome of the delete validation for nodes whose software
      profiles are `profiles` (one entry per node). */
  function DeleteCheck(profiles: seq<Option<SoftwareProfile>>, force: bool): Outcome<Error>
  {
    var errors := ErrorsOf(FirstAppearance(profiles), profiles, force);
    if errors == [] then Pass else Fail(OperationFailed(Strings.Join(errors, "\n")))
  }

  /** The first loop of the delete validation: the software profiles of
      the nodes in order of first appearance, with the number of nodes of
      each. */
  method CountByProfile<T(==,!new)>(profiles: seq<T>)
    returns (keys: seq<T>, counts: map<T, nat>)
    ensures keys == FirstAppearance(profiles)
    ensures forall p :: p in counts <==> p in keys
    ensures forall p :: p in counts ==> counts[p] == Count(profiles, p)
  {
    keys := [];
    counts := map[];
    var i := 0;
    while i < |profiles|
      invariant 0 <= i <= |profiles|
      invariant CountsOf(profiles[..i], keys, counts)
    {
      var p := profiles[i];
      assert profiles[..i + 1] == profiles[..i] + [p];
      CountsStep(profiles[..i], p, keys, counts);
      if p !in counts {
        keys := keys + [p];
        counts := counts[p := 1];
      } else {
        counts := counts[p := counts[p] + 1];
      }
      i := i + 1;
    }
    assert profiles[..i] == profiles;
  }

  /** `keys` and `counts` are the profile distribution of `seen`. */
  ghost predicate CountsOf<T(!new)>(seen: seq<T>, keys: seq<T>, counts: map<T, nat>)
  {
    keys == FirstAppearance(seen) &&
    (forall p :: p in counts <==> p in keys) &&
    (forall p :: Count(seen, p) == if p in counts then counts[p] else 0)
  }

  lemma CountsStep<T(!new)>(seen: seq<T>, p: T, keys: seq<T>, counts: map<T, nat>)
    requires CountsOf(seen, keys, counts)
    ensures p !in counts ==> CountsOf(seen + [p], keys + [p], counts[p := 1])
    ensures p in counts ==> CountsOf(seen + [p], keys, counts[p := counts[p] + 1])
  {
    FirstAppearanceSnoc(seen, p);
    CountSnoc(seen, p);
  }

  /** The second loop of the delete validation: one message for each
      profile among `keys` that objects, in key order. */
  method CollectErrors(keys: seq<Option<SoftwareProfile>>, counts: map<Option<SoftwareProfile>, nat>,
                       ghost profiles: seq<Option<SoftwareProfile>>, force: bool)
    returns (errors: seq<string>)
    requires forall k :: k in keys ==> k in counts && counts[k] == Count(profiles, k)
    ensures errors == ErrorsOf(keys, profiles, force)
  {
    errors := [];
    var j := 0;
    while j < |keys|
      invariant 0 <= j <= |keys|
      invariant errors == ErrorsOf(keys[..j], profiles, force)
    {
      var k := keys[j];
      ErrorsOfPrefix(keys, j, profiles, force);
      if k.Some? {
        var v := Violation(k.value, counts[k], force);
        if v.Some? {
          errors := errors + [v.value];
        }
      }
      j := j + 1;
    }
    assert keys[..j] == keys;
  }

  /** The delete validation: count the nodes per software profile, then
      collect one message per profile that objects, and fail with all of
      them joined by newlines. */
  method ValidateDeleteNodesRequest(profiles: seq<Option<SoftwareProfile>>, force: bool)
    returns (r: Outcome<Error>)
    ensures r == DeleteCheck(profiles, force)
  {
    var keys, counts := CountByProfile(profiles);
    var errors := CollectErrors(keys, counts, profiles, force);
    if errors != [] {
      r := Fail(OperationFailed(Strings.Join(errors, "\n")));
    } else {
      r := Pass;
    }
  }

  lemma FirstAppearanceSnoc<T>(s: seq<T>, p: T)
    ensures FirstAppearance(s + [p]) == if p in FirstAppearance(s) then FirstAppearance(s) else FirstAppearance(s) + [p]
  {
    assert (s + [p])[..|s|] == s;
  }

  lemma CountSnoc<T>(s: seq<T>, p: T)
    ensures forall q :: q in s + [p] <==> q in s || q == p
    ensures forall q :: Count(s + [p], q) == Count(s, q) + if q == p then 1 else 0
  {
    assert multiset(s + [p]) == multiset(s) + multiset{p};
  }

  lemma ErrorsOfSnoc(keys: seq<Option<SoftwareProfile>>, k: Option<SoftwareProfile>, profiles: seq<Option<SoftwareProfile>>, force: bool)
    ensures ErrorsOf(keys + [k], profiles, force) == ErrorsOf(keys, profiles, force) + ErrorFor(k, profiles, force)
  {
    assert (keys + [k])[..|keys|] == keys;
  }

  lemma ErrorsOfPrefix(keys: seq<Option<SoftwareProfile>>, j: nat, profiles: seq<Option<SoftwareProfile>>, force: bool)
    requires j < |keys|
    ensures ErrorsOf(keys[..j + 1], profiles, force) == ErrorsOf(keys[..j], profiles, force) + ErrorFor(keys[j], profiles, force)
  {
    assert keys[..j + 1] == keys[..j] + [keys[j]];
    ErrorsOfSnoc(keys[..j], keys[j], profiles, force);
  }

  lemma {:induction false} ErrorsOfEmpty(keys: seq<Option<SoftwareProfile>>, profiles: seq<Option<SoftwareProfile>>, force: bool)
    ensures ErrorsOf(keys, profiles, force) == [] <==> forall k :: k in keys ==> ErrorFor(k, profiles, force) == []
    decreases |keys|
  {
    if keys != [] {
      var init := keys[..|keys| - 1];
      ErrorsOfEmpty(init, profiles, force);
      assert keys == init + [keys[|keys| - 1]];
    }
  }

  /** The validation passes exactly when no software profile among the
      nodes objects to losing its nodes. */
  lemma DeleteCheckPassIff(profiles: seq<Option<SoftwareProfile>>, force: bool)
    ensures DeleteCheck(profiles, force).Pass? <==>
      forall k :: k in profiles && k.Some? ==> Violation(k.value, Count(profiles, k), force).None?
  {
    var keys := FirstAppearance(profiles);
    ErrorsOfEmpty(keys, profiles, force);
    FirstAppearanceMembers(profiles);
    forall k | k in keys
      ensures ErrorFor(k, profiles, force) == [] <==> (k.Some? ==> Violation(k.value, Count(profiles, k), force).None?)
    {
      ErrorForEmpty(k, profiles, force);
    }
  }

  lemma ErrorForEmpty(k: Option<SoftwareProfile>, profiles: seq<Option<SoftwareProfile>>, force: bool)
    ensures ErrorFor(k, profiles, force) == [] <==> (k.Some? ==> Violation(k.value, Count(profiles, k), force).None?)
  {
  }

  /** A hard locked profile among the nodes makes the delete fail, with or
      without `force`. */
  lemma HardLockedAlwaysFails(profiles: seq<Option<SoftwareProfile>>, sp: SoftwareProfile, force: bool)
    requires Some(sp) in profiles && sp.lockedState == HardLocked
    ensures DeleteCheck(profiles, force).Fail?
    ensures DeleteCheck(profiles, force).error.OperationFailed?
  {
    DeleteCheckPassIff(profiles, force);
  }

  /** Dropping below the minimum node count fails unless `force` is set and
      the profile is soft locked. */
  lemma BelowMinimumFails(profiles: seq<Option<SoftwareProfile>>, sp: SoftwareProfile, force: bool)
    requires Some(sp) in profiles
    requires sp.minNodes > 0 && sp.nodeCount - Count(profiles, Some(sp)) < sp.minNodes
    requires !(force && sp.lockedState == SoftLocked)
    ensures DeleteCheck(profiles, force).Fail?
  {
    DeleteCheckPassIff(profiles, force);
  }

  /** A soft locked profile without `force` fails. */
  lemma SoftLockedWithoutForceFails(profiles: seq<Option<SoftwareProfile>>, sp: SoftwareProfile)
    requires Some(sp) in profiles && sp.lockedState == SoftLocked
    ensures DeleteCheck(profiles, false).Fail?
  {
    DeleteCheckPassIff(profiles, false);
  }

  /** Nodes that belong to no software profile never block a delete. */
  lemma IdleNodesPass(profiles: seq<Option<SoftwareProfile>>, force: bool)
    requires forall k :: k in profiles ==> k.None?
    ensures DeleteCheck(profiles, force) == Pass
  {
    DeleteCheckPassIff(profiles, force);
  }

  predicate NoNewline(s: string)
  {
    '\n' !in s
  }

  lemma DigitsNoNewline(n: nat)
    ensures NoNewline(Strings.NatToString(n))
  {
    var s := Strings.NatToString(n);
    forall i | 0 <= i < |s| ensures s[i] != '\n' {
      assert Strings.IsDigit(s[i]);
    }
  }

  lemma HardLockedNoNewline(name: string)
    requires NoNewline(name)
    ensures NoNewline(HardLockedMessage(name))
  {
    assert NoNewline("Nodes cannot be deleted ");
    assert NoNewline("from hard locked software");
    assert NoNewline(" profile [");
  }

  lemma HardLockedAsWrittenNoNewline(name: string)
    ensures NoNewline(HardLockedMessageAsWritten(name))
  {
    var placeholder := "{software_profile.name}";
    assert NoNewline(placeholder);
    HardLockedNoNewline(placeholder);
    assert HardLockedMessageAsWritten(name) == HardLockedMessage(placeholder);
  }

  lemma SoftLockedNoNewline(name: string)
    requires NoNewline(name)
    ensures NoNewline(SoftLockedMessage(name))
  {
    assert NoNewline("Nodes cannot be deleted ");
    assert NoNewline("from soft locked software");
    assert NoNewline(" profile [");
  }

  lemma MinNodesNoNewline(sp: SoftwareProfile, deleted: nat)
    requires NoNewline(sp.name)
    ensures NoNewline(MinNodesMessage(sp, deleted))
  {
    DigitsNoNewline(sp.minNodes);
    DigitsNoNewline(deleted);
    assert NoNewline("Software profile [");
    assert NoNewline("] requires minimum of ");
    assert NoNewline(" nodes; denied request");
    assert NoNewline(" to delete ");
    assert NoNewline(" node(s)");
  }

  lemma ViolationNoNewline(sp: SoftwareProfile, deleted: nat, force: bool)
    requires NoNewline(sp.name)
    ensures Violation(sp, deleted, force).Some? ==> NoNewline(Violation(sp, deleted, force).value)
  {
    HardLockedAsWrittenNoNewline(sp.name);
    SoftLockedNoNewline(sp.name);
    MinNodesNoNewline(sp, deleted);
  }

  lemma {:induction false} ErrorsNoNewline(keys: seq<Option<SoftwareProfile>>, profiles: seq<Option<SoftwareProfile>>, force: bool)
    requires forall k :: k in keys && k.Some? ==> NoNewline(k.value.name)
    ensures forall e :: e in ErrorsOf(keys, profiles, force) ==> NoNewline(e)
    decreases |keys|
  {
    if keys != [] {
      var init := keys[..|keys| - 1];
      var k := keys[|keys| - 1];
      assert forall x :: x in init ==> x in keys;
      ErrorsNoNewline(init, profiles, force);
      if k.Some? {
        ViolationNoNewline(k.value, Count(profiles, k), force);
      }
    }
  }

  /** The single OperationFailed message splits back, line by line, into one
      message per objecting profile, in the order the profiles were met
      (profile names are single-line). */
  lemma FailureMessageLines(profiles: seq<Option<SoftwareProfile>>, force: bool)
    requires forall k :: k in profiles && k.Some? ==> NoNewline(k.value.name)
    requires DeleteCheck(profiles, force).Fail?
    ensures DeleteCheck(profiles, force).error.OperationFailed?
    ensures Strings.Split(DeleteCheck(profiles, force).error.msg, "\n")
         == ErrorsOf(FirstAppearance(profiles), profiles, force)
  {
    var errors := ErrorsOf(FirstAppearance(profiles), profiles, force);
    FirstAppearanceMembers(profiles);
    ErrorsNoNewline(FirstAppearance(profiles), profiles, force);
    assert forall k :: 0 <= k < |errors| ==> '\n' !in errors[k] by {
      forall k | 0 <= k < |errors| ensures '\n' !in errors[k] {
        assert errors[k] in errors;
      }
    }
    Strings.SplitJoin(errors, '\n');
  }

  /** As written, the distribution loop reads `lockedState` on the profile
      of every node; a node with no software profile raises AttributeError
      before any message is reported. */
  function DeleteCheckAsWritten(profiles: seq<Option<SoftwareProfile>>, force: bool): (r: Outcome<Error>)
    ensures None in profiles ==> r == Fail(AttributeError)
    ensures None !in profiles ==> r == DeleteCheck(profiles, force)
  {
    if None in profiles then Fail(AttributeError) else DeleteCheck(profiles, force)
  }

  /** Deleting a single idle node: the code as written fails, the intended
      behaviour passes. */
  lemma IdleNodeDeleteDiffers()
    ensures DeleteCheckAsWritten([None], false) == Fail(AttributeError)
    ensures DeleteCheck([None], false) == Pass
  {
    IdleNodesPass([None], false);
  }

  /** As written, the hard-lock message is an f-string joined to a plain
      string literal, so the profile name placeholder is never filled in. */
  function HardLockedMessageAsWritten(name: string): (r: string)
    ensures |r| == |HardLockedMessage("{software_profile.name}")|
  {
    "Nodes cannot be deleted from hard locked software profile [{software_profile.name}]"
  }

  /** The as-written message differs from the intended one for every
      profile name other than the placeholder text itself. */
  lemma HardLockedMessageLosesName(name: string)
    requires name != "{software_profile.name}"
    ensures HardLockedMessageAsWritten(name) != HardLockedMessage(name)
  {
    var prefix := "Nodes cannot be deleted from hard locked software profile [";
    var a := HardLockedMessageAsWritten(name);
    var b := HardLockedMessage(name);
    assert a == prefix + "{software_profile.name}]";
    assert b == prefix + name + "]";
    assert a[|prefix|..|a| - 1] == "{software_profile.name}";
    assert b[|prefix|..|b| - 1] == name;
  }

  /** The intended message names the profile. */
  lemma HardLockedMessageNamesProfile(name: string)
    ensures Strings.OccursAt(HardLockedMessage(name), "[" + name + "]", |HardLockedMessage(name)| - |name| - 2)
  {
    var m := HardLockedMessage(name);
    assert m[|m| - |name| - 2..] == "[" + name + "]";
  }

  // ---------------------------------------------------------------------
  // Grouping by hardware profile
  // ---------------------------------------------------------------------

  function HwProfiles(s: seq<Node>): (r: seq<HardwareProfile>)
    ensures |r| == |s|
    ensures forall i :: 0 <= i < |s| ==> r[i] == s[i].hw
  {
    seq(|s|, i requires 0 <= i < |s| => s[i].hw)
  }

  /** The hardware profiles of `s` in order of first appearance. */
  function HwOrder(s: seq<Node>): seq<HardwareProfile>
  {
    FirstAppearance(HwProfiles(s))
  }

  /** The nodes of `s` in hardware profile `h`, in input order. */
  function InGroup(s: seq<Node>, h: HardwareProfile): seq<Node>
    decreases |s|
  {
    if s == [] then []
    else InGroup(s[..|s| - 1], h) + (if s[|s| - 1].hw == h then [s[|s| - 1]] else [])
  }

  /** The groups of `order`, one after the other. */
  function Flatten(order: seq<HardwareProfile>, s: seq<Node>): seq<Node>
    decreases |order|
  {
    if order == [] then [] else InGroup(s, order[0]) + Flatten(order[1..], s)
  }

  /** Appending a node extends its own group only. */
  lemma InGroupSnoc(s: seq<Node>, x: Node, h: HardwareProfile)
    ensures InGroup(s + [x], h) == InGroup(s, h) + (if x.hw == h then [x] else [])
  {
    assert (s + [x])[..|s|] == s;
  }

  /** Appending a node adds its profile to the order when it is new. */
  lemma HwOrderSnoc(s: seq<Node>, x: Node)
    ensures HwOrder(s + [x]) == if x.hw in HwOrder(s) then HwOrder(s) else HwOrder(s) + [x.hw]
  {
    var p := HwProfiles(s + [x]);
    assert p[..|s|] == HwProfiles(s);
    assert p[|s|] == x.hw;
  }

  /** A profile that no node has has an empty group. */
  lemma {:induction false} InGroupEmpty(s: seq<Node>, h: HardwareProfile)
    requires h !in HwOrder(s)
    ensures InGroup(s, h) == []
    decreases |s|
  {
    if s != [] {
      var s' := s[..|s| - 1];
      assert s == s' + [s[|s| - 1]];
      HwOrderSnoc(s', s[|s| - 1]);
      InGroupEmpty(s', h);
    }
  }

  /** Building the grouping dict of `__processNodeList`. */
  method ProcessNodeList(s: seq<Node>) returns (order: seq<HardwareProfile>, groups: map<HardwareProfile, seq<Node>>)
    ensures order == HwOrder(s)
    ensures forall h :: h in groups <==> h in order
    ensures forall h :: h in groups ==> groups[h] == InGroup(s, h)
  {
    order := [];
    groups := map[];
    var i := 0;
    while i < |s|
      invariant 0 <= i <= |s|
      invariant GroupsOf(s[..i], order, groups)
    {
      var x := s[i];
      assert s[..i + 1] == s[..i] + [x];
      GroupsStep(s[..i], x, order, groups);
      if x.hw !in groups {
        order := order + [x.hw];
        groups := groups[x.hw := [x]];
      } else {
        groups := groups[x.hw := groups[x.hw] + [x]];
      }
      i := i + 1;
    }
    assert s[..i] == s;
  }

  /** `order` and `groups` are the grouping of `seen`. */
  ghost predicate GroupsOf(seen: seq<Node>, order: seq<HardwareProfile>, groups: map<HardwareProfile, seq<Node>>)
  {
    order == HwOrder(seen) &&
    (forall h :: h in groups <==> h in order) &&
    (forall h :: h in groups ==> groups[h] == InGroup(seen, h))
  }

  lemma GroupsStep(seen: seq<Node>, x: Node, order: seq<HardwareProfile>, groups: map<HardwareProfile, seq<Node>>)
    requires GroupsOf(seen, order, groups)
    ensures x.hw !in groups ==> GroupsOf(seen + [x], order + [x.hw], groups[x.hw := [x]])
    ensures x.hw in groups ==> GroupsOf(seen + [x], order, groups[x.hw := groups[x.hw] + [x]])
  {
    HwOrderSnoc(seen, x);
    var groups' := if x.hw in groups then groups[x.hw := groups[x.hw] + [x]] else groups[x.hw := [x]];
    forall h | h in groups' ensures groups'[h] == InGroup(seen + [x], h) {
      InGroupSnoc(seen, x, h);
      if h == x.hw && x.hw !in groups {
        InGroupEmpty(seen, x.hw);
      }
    }
  }

  lemma {:induction false} FlattenAppendKey(order: seq<HardwareProfile>, h: HardwareProfile, s: seq<Node>)
    ensures Flatten(order + [h], s) == Flatten(order, s) + InGroup(s, h)
    decreases |order|
  {
    if order == [] {
      assert Flatten([h], s) == InGroup(s, h) + Flatten([], s);
    } else {
      assert (order + [h])[1..] == order[1..] + [h];
      FlattenAppendKey(order[1..], h, s);
    }
  }

  /** A group holds each node of its hardware profile as often as the
      input does, and no other node. */
  lemma {:induction false} GroupCount(s: seq<Node>, h: HardwareProfile, y: Node)
    ensures Count(InGroup(s, h), y) == if y.hw == h then Count(s, y) else 0
    decreases |s|
  {
    if s != [] {
      var s' := s[..|s| - 1];
      var x := s[|s| - 1];
      assert s == s' + [x];
      GroupCount(s', h, y);
      assert multiset(s) == multiset(s') + multiset{x};
      assert InGroup(s, h) == InGroup(s', h) + (if x.hw == h then [x] else []);
    }
  }

  /** The concatenated groups of distinct profiles hold each node of those
      profiles as often as the input does. */
  lemma {:induction false} FlattenCount(order: seq<HardwareProfile>, s: seq<Node>, y: Node)
    requires Distinct(order)
    ensures Count(Flatten(order, s), y) == if y.hw in order then Count(s, y) else 0
    decreases |order|
  {
    if order != [] {
      var tail := order[1..];
      DistinctTail(order, y.hw);
      FlattenCount(tail, s, y);
      GroupCount(s, order[0], y);
      var f := Flatten(order, s);
      assert f == InGroup(s, order[0]) + Flatten(tail, s);
      assert Count(f, y) == Count(InGroup(s, order[0]), y) + Count(Flatten(tail, s), y);
    }
  }

  /** The rest of a list of distinct items is distinct and lacks its head. */
  lemma DistinctTail<T>(order: seq<T>, h: T)
    requires Distinct(order) && order != []
    ensures Distinct(order[1..])
    ensures h in order <==> h == order[0] || h in order[1..]
    ensures h == order[0] ==> h !in order[1..]
  {
    var tail := order[1..];
    forall i, j | 0 <= i < j < |tail| ensures tail[i] != tail[j] {
      assert tail[i] == order[i + 1] && tail[j] == order[j + 1];
    }
    assert order == [order[0]] + tail;
    forall k | 0 <= k < |tail| ensures tail[k] != order[0] {
      assert tail[k] == order[k + 1];
    }
  }

  /** The groups together hold every node of the input exactly as often
      as the input does: grouping loses and duplicates nothing. */
  lemma GroupsPartition(s: seq<Node>, y: Node)
    ensures Count(Flatten(HwOrder(s), s), y) == Count(s, y)
  {
    FirstAppearanceMembers(HwProfiles(s));
    FlattenCount(HwOrder(s), s, y);
    if y in s {
      var i :| 0 <= i < |s| && s[i] == y;
      assert HwProfiles(s)[i] == y.hw;
    }
  }

  /** A node is in a group exactly when it is in the input with that
      group's hardware profile. */
  lemma GroupMembers(s: seq<Node>, h: HardwareProfile, x: Node)
    ensures x in InGroup(s, h) <==> x in s && x.hw == h
  {
    GroupCount(s, h, x);
  }

  // ---------------------------------------------------------------------
  // Resource adapter lookup and default relations
  // ---------------------------------------------------------------------

  /** The adapter name of a hardware profile, or OperationFailed when the
      profile has none. */
  function GetResourceAdapter(hw: HardwareProfile): (r: Result<string, Error>)
    ensures r.Ok? <==> hw.resourceAdapter.Some?
    ensures r.Ok? ==> r.value == hw.resourceAdapter.value
    ensures r.Err? ==> r.error.OperationFailed?
  {
    match hw.resourceAdapter
    case None => Err(OperationFailed("Hardware profile [" + hw.name + "] does not have an associated resource adapter"))
    case Some(a) => Ok(a)
  }

  const DefaultRelationKeys: seq<string> := ["hardwareprofile", "softwareprofile", "tags", "instance"]

  /** The requested relations with the profile, tag and instance relations
      switched on. */
  function GetDefaultRelations(relations: Option<map<string, bool>>): (r: map<string, bool>)
    ensures forall k :: k in DefaultRelationKeys ==> k in r && r[k]
    ensures forall k :: k !in DefaultRelationKeys ==>
      (k in r <==> relations.Some? && k in relations.value) &&
      (k in r ==> r[k] == relations.value[k])
  {
    var base := if relations.Some? then relations.value else map[];
    base["hardwareprofile" := true]["softwareprofile" := true]["tags" := true]["instance" := true]
  }

  // ---------------------------------------------------------------------
  // The node store: status updates, updates and deletes
  // ---------------------------------------------------------------------

  /** The result of a status update: whether anything changed, the event
      fired and whether the local boot configuration is rewritten. */
  datatype StatusUpdate = StatusUpdate(changed: bool, event: Option<Event>, writesPxe: bool)

  /** The result of an update: whether post-install runs, and the event. */
  datatype NodeUpdate = NodeUpdate(postInstall: bool, event: Option<Event>)

  datatype NicRequest = NicRequest(ip: Option<string>)
  datatype UpdateRequest = UpdateRequest(nics: Option<seq<NicRequest>>, state: Option<string>)

  /** One call of an adapter's `deleteNode` with a batch of node names. */
  datatype AdapterCall = AdapterCall(adapter: string, nodes: seq<string>)

  datatype DeleteResult = DeleteResult(nodesDeleted: seq<Node>)

  /** Whether a node update changes the state the caller sees; the
      condition under which the event is meant to fire. */
  function StatusChanged(previous: string, nodeState: Option<string>): bool
  {
    nodeState.Some? && nodeState.value != previous
  }

  /** The objects the as-written event guard compares: the guard reads the
      imported `state` module, which is truthy and never equal to a string. */
  datatype GuardValue = Text(s: string) | ModuleObject

  function EventFiresAsWritten(previous: string, nodeState: Option<string>): (r: bool)
    ensures r
  {
    var guardSubject := ModuleObject;
    guardSubject.ModuleObject? && Text(previous) != guardSubject
  }

  /** As written, a status update that leaves the state alone still fires
      the state-changed event; the intended rule does not. */
  lemma StatusEventAsWrittenDiffers(previous: string)
    ensures EventFiresAsWritten(previous, None)
    ensures !StatusChanged(previous, None)
  {
  }

  function NamesOf(s: seq<Node>): (r: seq<string>)
    ensures |r| == |s|
    ensures forall i :: 0 <= i < |s| ==> r[i] == s[i].name
  {
    seq(|s|, i requires 0 <= i < |s| => s[i].name)
  }

  /** A tag is deleted with a node when the node is its only node and no
      profile refers to it. */
  predicate Sole(t: Tag)
  {
    |t.nodes| == 1 && t.softwareProfiles == {} && t.hardwareProfiles == {}
  }

  /** The tags of node `n` that are deleted with it. */
  function TagOrphans(n: Node, tags: map<nat, Tag>): set<nat>
  {
    set t | t in n.tags && t in tags && Sole(tags[t])
  }

  /** The tags deleted with the nodes of `s`. */
  function OrphansOf(s: seq<Node>, tags: map<nat, Tag>): set<nat>
    decreases |s|
  {
    if s == [] then {} else OrphansOf(s[..|s| - 1], tags) + TagOrphans(s[|s| - 1], tags)
  }

  lemma {:induction false} OrphansOfMembers(s: seq<Node>, tags: map<nat, Tag>, t: nat)
    ensures t in OrphansOf(s, tags) <==> exists x :: x in s && t in TagOrphans(x, tags)
    decreases |s|
  {
    if s != [] {
      var s' := s[..|s| - 1];
      OrphansOfMembers(s', tags, t);
      assert s == s' + [s[|s| - 1]];
      assert forall x :: x in s <==> x in s' || x == s[|s| - 1];
    }
  }

  predicate Distinct<T(==)>(s: seq<T>)
  {
    forall i, j :: 0 <= i < j < |s| ==> s[i] != s[j]
  }

  /** The marked copies of the nodes to delete, in the given order. */
  function MarkDeleted(nodes: map<string, Node>, names: seq<string>): (r: seq<Node>)
    requires forall n :: n in names ==> n in nodes
    ensures |r| == |names|
    ensures forall i :: 0 <= i < |names| ==> r[i] == nodes[names[i]].(state := StateDeleted)
  {
    seq(|names|, i requires 0 <= i < |names| => nodes[names[i]].(state := StateDeleted))
  }

  /** The adapter calls for the groups in `order`, or the error of the
      first hardware profile without an adapter. */
  function AdapterCallsFor(order: seq<HardwareProfile>, s: seq<Node>): (r: Result<seq<AdapterCall>, Error>)
    ensures r.Err? <==> exists h :: h in order && h.resourceAdapter.None?
    ensures r.Ok? ==> |r.value| == |order|
    ensures r.Ok? ==> forall i :: 0 <= i < |order| ==>
      r.value[i] == AdapterCall(order[i].resourceAdapter.value, NamesOf(InGroup(s, order[i])))
    decreases |order|
  {
    if order == [] then Ok([])
    else
      match GetResourceAdapter(order[0])
      case Err(e) => Err(e)
      case Ok(a) =>
        match AdapterCallsFor(order[1..], s)
        case Err(e) =>
          assert forall h :: h in order[1..] ==> h in order;
          Err(e)
        case Ok(rest) =>
          assert forall h :: h in order ==> h == order[0] || h in order[1..];
          Ok([AdapterCall(a, NamesOf(InGroup(s, order[0])))] + rest)
  }

  /** The adapter calls made before the first hardware profile without an
      adapter stops the walk over the groups in `order`: all of them when
      every profile has one. */
  function CallsMade(order: seq<HardwareProfile>, s: seq<Node>): (r: seq<AdapterCall>)
    ensures |r| <= |order|
    ensures forall k :: 0 <= k < |r| ==>
      order[k].resourceAdapter.Some? && r[k] == AdapterCall(order[k].resourceAdapter.value, NamesOf(InGroup(s, order[k])))
    ensures |r| < |order| ==> order[|r|].resourceAdapter.None?
    decreases |order|
  {
    if order == [] || order[0].resourceAdapter.None? then []
    else [AdapterCall(order[0].resourceAdapter.value, NamesOf(InGroup(s, order[0])))] + CallsMade(order[1..], s)
  }

  /** The calls made stop exactly at the first profile without an adapter. */
  lemma {:induction false} CallsMadeLength(order: seq<HardwareProfile>, s: seq<Node>, j: nat)
    requires j <= |order|
    requires forall k :: 0 <= k < j ==> order[k].resourceAdapter.Some?
    requires j < |order| ==> order[j].resourceAdapter.None?
    ensures |CallsMade(order, s)| == j
    decreases j
  {
    if j > 0 {
      CallsMadeLength(order[1..], s, j - 1);
    }
  }

  /** When every profile has an adapter, the calls made are all the calls. */
  lemma CallsMadeComplete(order: seq<HardwareProfile>, s: seq<Node>)
    requires AdapterCallsFor(order, s).Ok?
    ensures CallsMade(order, s) == AdapterCallsFor(order, s).value
  {
  }

  /** Node `n` lists tag `t` exactly when tag `t` lists node `n`. */
  ghost predicate Linked(nodes: map<string, Node>, tags: map<nat, Tag>)
  {
    (forall n, t :: n in nodes && t in nodes[n].tags ==> t in tags && n in tags[t].nodes) &&
    (forall t, n :: t in tags && n in tags[t].nodes ==> n in nodes && t in nodes[n].tags)
  }

  /** Rewriting a node without touching its tags keeps the relation linked. */
  lemma ReplaceKeepsLinked(nodes: map<string, Node>, tags: map<nat, Tag>, name: string, n: Node)
    requires Linked(nodes, tags) && name in nodes && n.tags == nodes[name].tags
    ensures Linked(nodes[name := n], tags)
  {
  }

  /** The store with the named nodes marked Deleted. */
  function MarkedStore(nodes: map<string, Node>, names: seq<string>): map<string, Node>
  {
    map n | n in nodes :: if n in names then nodes[n].(state := StateDeleted) else nodes[n]
  }

  /** The store without the named nodes. */
  function Remaining(nodes: map<string, Node>, names: seq<string>): map<string, Node>
  {
    map n | n in nodes && n !in names :: nodes[n]
  }

  /** The tags without those in `gone`, none of them listing a named node. */
  function TagsAfter(tags: map<nat, Tag>, gone: set<nat>, names: seq<string>): map<nat, Tag>
  {
    map t | t in tags && t !in gone :: tags[t].(nodes := tags[t].nodes - set n | n in names)
  }

  /** Marking nodes Deleted leaves their tags alone. */
  lemma MarkKeepsLinked(nodes0: map<string, Node>, tags0: map<nat, Tag>, names: seq<string>)
    requires Linked(nodes0, tags0)
    ensures Linked(MarkedStore(nodes0, names), tags0)
  {
  }

  // ---------------------------------------------------------------------
  // Node look-up
  // ---------------------------------------------------------------------

  /** A look-up answer with the database's errors raised as this module's. */
  function FromDb(g: Result<string, NodesDb.Error>): Result<string, Error>
  {
    match g
    case Ok(x) => Ok(x)
    case Err(NodeNotFound(m)) => Err(NodeNotFound(m))
    case Err(MultipleResultsFound) => Err(MultipleResultsFound)
  }

  /** Two different stored names match the query. */
  ghost predicate Ambiguous(names: set<string>, query: string)
  {
    exists x, y :: x in names && y in names && x != y &&
      NodesDb.NameMatches(x, query) && NodesDb.NameMatches(y, query)
  }

  /** `getNode` over the stored names, which the database keeps unique: the
      one name that matches, `NodeNotFound` when none does, and the
      `MultipleResultsFound` of `.one()` when several do. */
  ghost function Resolved(names: set<string>, query: string): (r: Result<string, Error>)
    ensures r.Ok? ==>
      r.value in names && NodesDb.NameMatches(r.value, query) &&
      forall x :: x in names && NodesDb.NameMatches(x, query) ==> x == r.value
  {
    if forall x :: x in names ==> !NodesDb.NameMatches(x, query) then Err(NodeNotFound("Node [" + query + "] not found"))
    else if Ambiguous(names, query) then Err(MultipleResultsFound)
    else var x :| x in names && NodesDb.NameMatches(x, query); Ok(x)
  }

  /** The names `Matching` keeps from a list without repeats have no repeats. */
  lemma {:induction false} MatchingDistinct(ns: seq<string>, query: string)
    requires Distinct(ns)
    ensures Distinct(NodesDb.Matching(ns, query))
    decreases |ns|
  {
    if |ns| > 0 {
      var tail := ns[1..];
      assert Distinct(tail) by {
        forall i, j | 0 <= i < j < |tail| ensures tail[i] != tail[j] {
          assert tail[i] == ns[i + 1] && tail[j] == ns[j + 1];
        }
      }
      MatchingDistinct(tail, query);
      assert ns[0] !in tail by {
        forall i | 0 <= i < |tail| ensures tail[i] != ns[0] {
          assert tail[i] == ns[i + 1];
        }
      }
      var m := NodesDb.Matching(tail, query);
      assert ns[0] !in m;
      var head: seq<string> := if NodesDb.NameMatches(ns[0], query) then [ns[0]] else [];
      assert NodesDb.Matching(ns, query) == head + m;
      forall i, j | 0 <= i < j < |head + m| ensures (head + m)[i] != (head + m)[j] {
        if i < |head| {
          assert (head + m)[j] == m[j - |head|];
        } else {
          assert (head + m)[i] == m[i - |head|] && (head + m)[j] == m[j - |head|];
        }
      }
    }
  }

  /** Two matches in a listing without repeats are two different matching names. */
  lemma MatchesAtMostOne(ns: seq<string>, names: set<string>, query: string)
    requires Distinct(ns)
    requires forall x :: x in ns <==> x in names
    ensures |NodesDb.Matching(ns, query)| > 1 ==> Ambiguous(names, query)
  {
    var m := NodesDb.Matching(ns, query);
    MatchingDistinct(ns, query);
    if |m| > 1 {
      var a, b := m[0], m[1];
      assert a in m && b in m;
      assert a in names && b in names && a != b && NodesDb.NameMatches(a, query) && NodesDb.NameMatches(b, query);
    }
  }

  /** `getNode` run over any listing of the stored names without repeats
      answers as `Resolved` does. */
  lemma GetNodeResolves(ns: seq<string>, names: set<string>, query: string)
    requires Distinct(ns)
    requires forall x :: x in ns <==> x in names
    ensures FromDb(NodesDb.GetNode(ns, query)) == Resolved(names, query)
  {
    var m := NodesDb.Matching(ns, query);
    MatchingDistinct(ns, query);
    if Ambiguous(names, query) {
      var x, y :| x in names && y in names && x != y &&
        NodesDb.NameMatches(x, query) && NodesDb.NameMatches(y, query);
      assert x in m && y in m;
      assert NodesDb.GetNode(ns, query) == Err(NodesDb.MultipleResultsFound);
    } else if exists x :: x in names && NodesDb.NameMatches(x, query) {
      var x :| x in names && NodesDb.NameMatches(x, query);
      assert x in m;
      MatchesAtMostOne(ns, names, query);
      assert m[0] == x;
    }
  }

  class NodeStore {
    /** The nodes by name. */
    var nodes: map<string, Node>
    /** The tag rows by id. */
    var tags: map<nat, Tag>

    /** The node-tag relation is kept from both sides. */
    ghost predicate Valid()
      reads this
    {
      Linked(nodes, tags)
    }

    constructor ()
      ensures nodes == map[] && tags == map[]
      ensures Valid()
    {
      nodes := map[];
      tags := map[];
    }

    /** `getNode`: the stored names are listed, without repeats, and the
        one matching `name` is picked. */
    method ResolveNode(name: string) returns (r: Result<string, Error>)
      ensures r == Resolved(nodes.Keys, name)
    {
      var ns: seq<string> := [];
      var rest := nodes.Keys;
      while rest != {}
        invariant Distinct(ns)
        invariant forall x :: x in ns <==> x in nodes && x !in rest
        invariant rest <= nodes.Keys
        decreases |rest|
      {
        var k :| k in rest;
        ns := ns + [k];
        rest := rest - {k};
      }
      GetNodeResolves(ns, nodes.Keys, name);
      r := FromDb(NodesDb.GetNode(ns, name));
    }

    /** Record a status report: state and boot device change only when they
        differ from the stored values, the timestamp always. */
    method UpdateNodeStatus(name: string, nodeState: Option<string>, bootFrom: Option<int>, now: string)
      returns (r: Result<StatusUpdate, Error>)
      requires Valid()
      modifies this
      ensures Valid()
      ensures tags == old(tags)
      ensures Resolved(old(nodes).Keys, name).Err? ==>
        r == Err(Resolved(old(nodes).Keys, name).error) && nodes == old(nodes)
      ensures Resolved(old(nodes).Keys, name).Ok? ==> (r.Ok? &&
        var key := Resolved(old(nodes).Keys, name).value;
        var n := old(nodes)[key];
        var stateChanged := StatusChanged(n.state, nodeState);
        var bootChanged := bootFrom.Some? && bootFrom.value != n.bootFrom;
        var n' := n.(state := if stateChanged then nodeState.value else n.state,
                     bootFrom := if bootChanged then bootFrom.value else n.bootFrom,
                     lastUpdate := now);
        nodes == old(nodes)[key := n'] &&
        r.value.changed == (stateChanged || bootChanged) &&
        (r.value.event.Some? <==> stateChanged) &&
        (stateChanged ==> r.value.event.value == Event(n.(state := nodeState.value), n.state)) &&
        r.value.writesPxe == (n.sw.Some? && n.sw.value.profileType != "installer" && n.hw.location != "remote"))
    {
      var found := ResolveNode(name);
      if found.Err? {
        return Err(found.error);
      }
      var key := found.value;
      var n := nodes[key];
      var previous := n.state;
      var snapshot := n;
      var changed: bv2 := 0;
      if nodeState.Some? && nodeState.value != n.state {
        changed := changed | 1;
      }
      if bootFrom.Some? && bootFrom.value != n.bootFrom {
        changed := changed | 2;
      }
      if changed & 1 != 0 {
        n := n.(state := nodeState.value);
        snapshot := snapshot.(state := nodeState.value);
      }
      if changed & 2 != 0 {
        n := n.(bootFrom := bootFrom.value);
      }
      n := n.(lastUpdate := now);
      var writesPxe := n.sw.Some? && n.sw.value.profileType != "installer" && n.hw.location != "remote";
      ReplaceKeepsLinked(nodes, tags, key, n);
      nodes := nodes[key := n];
      var event := if StatusChanged(previous, nodeState) then Some(Event(snapshot, previous)) else None;
      r := Ok(StatusUpdate(changed != 0, event, writesPxe));
    }

    /** Apply an update request: the first NIC's address, then the state.
        Post-install runs exactly when an Allocated node becomes
        Provisioned; any failure leaves the store as it was. */
    method UpdateNode(name: string, req: UpdateRequest, adapterOutcome: Outcome<string>)
      returns (r: Result<NodeUpdate, Error>)
      requires Valid()
      modifies this
      ensures Valid()
      ensures tags == old(tags)
      ensures r.Err? ==> nodes == old(nodes)
      ensures Resolved(old(nodes).Keys, name).Err? ==> r == Err(Resolved(old(nodes).Keys, name).error)
      ensures Resolved(old(nodes).Keys, name).Ok? ==>
        var key := Resolved(old(nodes).Keys, name).value;
        var n := old(nodes)[key];
        var nicFails := req.nics.Some? && (|req.nics.value| == 0 || (req.nics.value[0].ip.Some? && |n.nics| == 0));
        var withIp := if req.nics.Some? && !nicFails && req.nics.value[0].ip.Some?
                      then n.(nics := n.nics[0 := n.nics[0].(ip := req.nics.value[0].ip.value, boot := true)])
                      else n;
        var n' := if req.state.Some? then withIp.(state := req.state.value) else withIp;
        (nicFails ==> r == Err(IndexError)) &&
        (!nicFails && n.hw.resourceAdapter.None? ==> r.Err? && r.error.OperationFailed?) &&
        (!nicFails && n.hw.resourceAdapter.Some? && adapterOutcome.Fail? ==> r == Err(AdapterFailed(adapterOutcome.error))) &&
        (!nicFails && n.hw.resourceAdapter.Some? && adapterOutcome.Pass? ==>
          r.Ok? && nodes == old(nodes)[key := n'] &&
          r.value.postInstall == (n.state == StateAllocated && req.state == Some(StateProvisioned)) &&
          (r.value.event.Some? <==> n'.state != n.state) &&
          (r.value.event.Some? ==> r.value.event.value == Event(n', n.state)))
    {
      var found := ResolveNode(name);
      if found.Err? {
        return Err(found.error);
      }
      var key := found.value;
      var n := nodes[key];
      if req.nics.Some? {
        if |req.nics.value| == 0 {
          return Err(IndexError);
        }
        var nic := req.nics.value[0];
        if nic.ip.Some? {
          if |n.nics| == 0 {
            return Err(IndexError);
          }
          n := n.(nics := n.nics[0 := n.nics[0].(ip := nic.ip.value, boot := true)]);
        }
      }
      var adapter := GetResourceAdapter(n.hw);
      if adapter.Err? {
        return Err(adapter.error);
      }
      if adapterOutcome.Fail? {
        return Err(AdapterFailed(adapterOutcome.error));
      }
      var postInstall := false;
      var previous := n.state;
      if req.state.Some? {
        postInstall := n.state == StateAllocated && req.state.value == StateProvisioned;
        n := n.(state := req.state.value);
      }
      ReplaceKeepsLinked(nodes, tags, key, n);
      nodes := nodes[key := n];
      var event := if n.state != previous then Some(Event(n, previous)) else None;
      r := Ok(NodeUpdate(postInstall, event));
    }

    /** Delete the named nodes: mark them Deleted (committed at once), call
        each hardware profile's adapter with its batch, delete the tags left
        without an owner and then the nodes. `sent` is every adapter call
        made. When a hardware profile has no adapter, the batches before it
        have already been sent; the marks stay and the deletes are rolled
        back. */
    method DeleteNodes(names: seq<string>) returns (r: Result<DeleteResult, Error>, sent: seq<AdapterCall>)
      requires Valid()
      requires Distinct(names)
      requires forall n :: n in names ==> n in nodes
      modifies this
      ensures Valid()
      ensures var marked := MarkDeleted(old(nodes), names);
        var calls := AdapterCallsFor(HwOrder(marked), marked);
        sent == CallsMade(HwOrder(marked), marked) &&
        (calls.Err? ==>
           (r.Err? && r.error == calls.error && tags == old(tags) &&
            nodes == MarkedStore(old(nodes), names))) &&
        (calls.Ok? ==>
           (r.Ok? &&
            r.value.nodesDeleted == Flatten(HwOrder(marked), marked) &&
            sent == calls.value &&
            nodes == Remaining(old(nodes), names) &&
            tags == TagsAfter(old(tags), OrphansOf(marked, old(tags)), names)))
    {
      var nodes0 := nodes;
      var tags0 := tags;
      var marked: seq<Node> := [];
      var i := 0;
      while i < |names|
        invariant 0 <= i <= |names|
        invariant marked == MarkDeleted(nodes0, names[..i])
      {
        marked := marked + [nodes0[names[i]].(state := StateDeleted)];
        i := i + 1;
      }
      assert names[..i] == names;
      nodes := MarkedStore(nodes0, names);
      MarkKeepsLinked(nodes0, tags0, names);
      var order, groups := ProcessNodeList(marked);
      var calls;
      calls, sent := CheckAdapters(order, groups, marked);
      if calls.Err? {
        return Err(calls.error), sent;
      }
      CallsMadeComplete(order, marked);
      var result, gone := CollectDeleted(order, groups, marked, tags0);
      OrphansSameMembers(marked, result, tags0);
      nodes := Remaining(nodes0, names);
      tags := TagsAfter(tags0, gone, names);
      r := Ok(DeleteResult(result));
      DeletePreservesValid(nodes0, tags0, names, marked, gone);
    }
  }

  /** One adapter call per batch, in batch order; the first hardware
      profile without an adapter stops the delete, and `made` holds the
      calls issued before it. */
  method CheckAdapters(order: seq<HardwareProfile>, groups: map<HardwareProfile, seq<Node>>, ghost s: seq<Node>)
    returns (r: Result<seq<AdapterCall>, Error>, made: seq<AdapterCall>)
    requires forall h :: h in order ==> h in groups && groups[h] == InGroup(s, h)
    ensures r == AdapterCallsFor(order, s)
    ensures made == CallsMade(order, s)
  {
    var calls: seq<AdapterCall> := [];
    var j := 0;
    while j < |order|
      invariant 0 <= j <= |order|
      invariant |calls| == j
      invariant forall k :: 0 <= k < j ==> order[k].resourceAdapter.Some?
      invariant forall k :: 0 <= k < j ==>
        calls[k] == AdapterCall(order[k].resourceAdapter.value, NamesOf(InGroup(s, order[k])))
    {
      var adapter := GetResourceAdapter(order[j]);
      if adapter.Err? {
        FirstMissingAdapter(order, s, j);
        CallsMadeLength(order, s, j);
        return Err(adapter.error), calls;
      }
      assert order[j] in order;
      calls := calls + [AdapterCall(adapter.value, NamesOf(groups[order[j]]))];
      j := j + 1;
    }
    ghost var expected := AdapterCallsFor(order, s);
    assert expected.Ok? by {
      forall h | h in order ensures h.resourceAdapter.Some? {
        var k :| 0 <= k < |order| && order[k] == h;
      }
    }
    assert calls == expected.value;
    CallsMadeComplete(order, s);
    r, made := Ok(calls), calls;
  }

  /** Walk the batches, collecting the deleted nodes in batch order and the
      tags they leave without an owner. */
  method CollectDeleted(order: seq<HardwareProfile>, groups: map<HardwareProfile, seq<Node>>,
                        ghost s: seq<Node>, tags0: map<nat, Tag>)
    returns (result: seq<Node>, gone: set<nat>)
    requires forall h :: h in order ==> h in groups && groups[h] == InGroup(s, h)
    ensures result == Flatten(order, s)
    ensures gone == OrphansOf(result, tags0)
  {
    result := [];
    gone := {};
    var j := 0;
    while j < |order|
      invariant 0 <= j <= |order|
      invariant result == Flatten(order[..j], s)
      invariant gone == OrphansOf(result, tags0)
    {
      assert order[j] in order;
      var batch := groups[order[j]];
      var k := 0;
      while k < |batch|
        invariant 0 <= k <= |batch|
        invariant result == Flatten(order[..j], s) + batch[..k]
        invariant gone == OrphansOf(result, tags0)
      {
        var x := batch[k];
        gone := gone + set t | t in x.tags && t in tags0 && Sole(tags0[t]);
        assert (result + [x])[..|result + [x]| - 1] == result;
        result := result + [x];
        assert batch[..k + 1] == batch[..k] + [x];
        k := k + 1;
      }
      assert batch[..k] == batch;
      assert order[..j + 1] == order[..j] + [order[j]];
      FlattenAppendKey(order[..j], order[j], s);
      j := j + 1;
    }
    assert order[..j] == order;
  }

  lemma OrphansSameMembers(a: seq<Node>, b: seq<Node>, tags: map<nat, Tag>)
    requires b == Flatten(HwOrder(a), a)
    ensures OrphansOf(a, tags) == OrphansOf(b, tags)
  {
    assert forall x :: x in a <==> x in b by {
      forall x ensures x in a <==> x in b {
        GroupsPartition(a, x);
      }
    }
    forall t ensures t in OrphansOf(a, tags) <==> t in OrphansOf(b, tags) {
      OrphansOfMembers(a, tags, t);
      OrphansOfMembers(b, tags, t);
    }
  }

  lemma SingletonSet<T>(s: set<T>, a: T, b: T)
    requires |s| == 1 && a in s && b in s
    ensures a == b
  {
    var rest := s - {a};
    assert |rest| == 0;
  }

  /** Deleting the nodes and their orphaned tags keeps the relation
      linked from both sides. */
  lemma DeletePreservesValid(nodes0: map<string, Node>, tags0: map<nat, Tag>, names: seq<string>,
                             marked: seq<Node>, gone: set<nat>)
    requires Linked(nodes0, tags0)
    requires forall n :: n in names ==> n in nodes0
    requires marked == MarkDeleted(nodes0, names)
    requires gone == OrphansOf(marked, tags0)
    ensures Linked(Remaining(nodes0, names), TagsAfter(tags0, gone, names))
  {
    forall n, t | n in nodes0 && n !in names && t in nodes0[n].tags
      ensures t !in gone
    {
      if t in gone {
        OrphansOfMembers(marked, tags0, t);
        var x :| x in marked && t in TagOrphans(x, tags0);
        var i :| 0 <= i < |marked| && marked[i] == x;
        var m := names[i];
        assert t in nodes0[m].tags;
        SingletonSet(tags0[t].nodes, n, m);
        assert false;
      }
    }
  }

  /** The first hardware profile without an adapter decides the error. */
  lemma {:induction false} FirstMissingAdapter(order: seq<HardwareProfile>, s: seq<Node>, j: nat)
    requires j < |order| && order[j].resourceAdapter.None?
    requires forall k :: 0 <= k < j ==> order[k].resourceAdapter.Some?
    ensures AdapterCallsFor(order, s) == Err(GetResourceAdapter(order[j]).error)
    decreases j
  {
    if j > 0 {
      FirstMissingAdapter(order[1..], s, j - 1);
    }
  }
}
