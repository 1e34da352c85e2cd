/** Kit action dispatch: the registered kits put in order with the base kit
    first or last, their component installers flattened and filtered down to
    the enabled ones, and one `run_action` call per component. A call into
    a component is recorded in a returned trace instead of being made. */
module KitActions {
  import opened Wrappers
  import opened KitRegistry

  /** The `base_kit_order` argument of `_load_kits`. */
  datatype BaseKitOrder = First | Last | AnyOrder

  /** The node argument passed to `run_action`: a list of node names (the set
      built from the names given and those found in the database), or the
      nodes themselves, each known here by its name. */
  datatype NodeArg = NameSet(names: set<string>) | NodeList(nodes: seq<string>)

  /** One `component_installer.run_action(action, hardware, software, nodes)`. */
  datatype Call = Call(component: Component, action: string, hardwareProfile: Option<string>,
                       softwareProfile: Option<string>, nodes: NodeArg)

  /** A node row as the delete hook reads it. */
  datatype NodeRecord = NodeRecord(name: string, state: string, softwareProfile: Option<string>)

  datatype Error = TypeError(msg: string)

  const BaseKitName := "base"

  // ---------------------------------------------------------------------
  // _load_kits

  /** The index of the first element equal to `x`. */
  function FirstIndex<T(==)>(s: seq<T>, x: T): (r: nat)
    requires x in s
    ensures r < |s| && s[r] == x && forall k :: 0 <= k < r ==> s[k] != x
  {
    if s[0] == x then 0 else 1 + FirstIndex(s[1..], x)
  }

  /** `list.remove(x)`: the list without its first element equal to `x`. */
  function RemoveFirst<T(==)>(s: seq<T>, x: T): (r: seq<T>)
    requires x in s
    ensures r == s[..FirstIndex(s, x)] + s[FirstIndex(s, x) + 1..]
  {
    if s[0] == x then s[1..]
    else
      assert s[1..][..FirstIndex(s[1..], x)] == s[1..FirstIndex(s, x)];
      [s[0]] + RemoveFirst(s[1..], x)
  }

  /** Removing one element takes exactly one copy of it out. */
  lemma RemoveFirstMultiset<T>(s: seq<T>, x: T)
    requires x in s
    ensures multiset(RemoveFirst(s, x)) == multiset(s) - multiset{x}
  {
    var i := FirstIndex(s, x);
    assert s == s[..i] + [x] + s[i + 1..];
  }

  /** The index of the last kit named "base", which the loop of `_load_kits`
      ends up holding, or `None`. */
  function LastBaseIndex(kits: seq<KitInstaller>): (r: Option<nat>)
    ensures r.Some? ==> (r.value < |kits| && kits[r.value].Name() == BaseKitName &&
                         forall k :: r.value < k < |kits| ==> kits[k].Name() != BaseKitName)
    ensures r.None? <==> forall k :: 0 <= k < |kits| ==> kits[k].Name() != BaseKitName
  {
    if |kits| == 0 then None
    else if kits[|kits| - 1].Name() == BaseKitName then Some(|kits| - 1)
    else
      var r := LastBaseIndex(kits[..|kits| - 1]);
      assert forall k :: 0 <= k < |kits| - 1 ==> kits[..|kits| - 1][k] == kits[k];
      r
  }

  /** The kits in the order `_load_kits` returns them, when a base kit is
      moved only if there is one. */
  function Reordered(kits: seq<KitInstaller>, order: BaseKitOrder): seq<KitInstaller>
  {
    var base := LastBaseIndex(kits);
    if order == AnyOrder || base.None? then kits
    else
      var rest := RemoveFirst(kits, kits[base.value]);
      if order == First then [kits[base.value]] + rest else rest + [kits[base.value]]
  }

  /** Reordering loses and adds no kit. */
  lemma ReorderedPermutation(kits: seq<KitInstaller>, order: BaseKitOrder)
    ensures multiset(Reordered(kits, order)) == multiset(kits)
  {
    var base := LastBaseIndex(kits);
    if order != AnyOrder && base.Some? {
      RemoveFirstMultiset(kits, kits[base.value]);
    }
  }

  /** With distinct specs and a base kit at `j`, 'first' puts it at index 0 and
      'last' at the end, and every other kit keeps its registration order. */
  lemma ReorderedMovesBase(kits: seq<KitInstaller>, j: nat)
    requires DistinctSpecs(kits)
    requires LastBaseIndex(kits) == Some(j)
    ensures Reordered(kits, First) == [kits[j]] + (kits[..j] + kits[j + 1..])
    ensures Reordered(kits, Last) == (kits[..j] + kits[j + 1..]) + [kits[j]]
    ensures kits[j].Name() == BaseKitName
  {
    SameKitSameIndex(kits, FirstIndex(kits, kits[j]), j);
    assert RemoveFirst(kits, kits[j]) == kits[..j] + kits[j + 1..];
    ReorderedAt(kits, j);
  }

  /** With the base kit at `j`, it is taken out and put first or last. */
  lemma ReorderedAt(kits: seq<KitInstaller>, j: nat)
    requires LastBaseIndex(kits) == Some(j)
    ensures Reordered(kits, First) == [kits[j]] + RemoveFirst(kits, kits[j])
    ensures Reordered(kits, Last) == RemoveFirst(kits, kits[j]) + [kits[j]]
  {
  }

  /** Among kits with distinct specs, equal kits sit at one index. */
  lemma SameKitSameIndex(kits: seq<KitInstaller>, i: nat, j: nat)
    requires DistinctSpecs(kits)
    requires i < |kits| && j < |kits| && kits[i] == kits[j]
    ensures i == j
  {
  }

  /** Without a kit named "base", every order returns the kits unchanged. */
  lemma ReorderedWithoutBase(kits: seq<KitInstaller>, order: BaseKitOrder)
    requires forall k :: 0 <= k < |kits| ==> kits[k].Name() != BaseKitName
    ensures Reordered(kits, order) == kits
  {
  }

  /** `_load_kits` as written: the base kit is inserted even when none was
      found, so the list then holds `None`. */
  function LoadKitsAsWritten(kits: seq<KitInstaller>, order: BaseKitOrder): (r: seq<Option<KitInstaller>>)
    ensures order == AnyOrder ==> |r| == |kits|
    ensures order != AnyOrder ==> |r| == |kits| + (if LastBaseIndex(kits).None? then 1 else 0)
  {
    var base := LastBaseIndex(kits);
    if order == AnyOrder then Somes(kits)
    else
      var rest := if base.Some? then RemoveFirst(kits, kits[base.value]) else kits;
      var inserted := if base.Some? then Some(kits[base.value]) else None;
      if order == First then [inserted] + Somes(rest) else Somes(rest) + [inserted]
  }

  function Somes<T>(s: seq<T>): (r: seq<Option<T>>)
    ensures |r| == |s| && forall k :: 0 <= k < |s| ==> r[k] == Some(s[k])
  {
    seq(|s|, k requires 0 <= k < |s| => Some(s[k]))
  }

  /** When a base kit exists, `_load_kits` as written agrees with `Reordered`. */
  lemma LoadKitsAsWrittenWithBase(kits: seq<KitInstaller>, order: BaseKitOrder)
    requires LastBaseIndex(kits).Some? || order == AnyOrder
    ensures LoadKitsAsWritten(kits, order) == Somes(Reordered(kits, order))
  {
    var base := LastBaseIndex(kits);
    if order != AnyOrder {
      var b := kits[base.value];
      var rest := RemoveFirst(kits, b);
      assert Somes([b]) == [Some(b)];
      if order == First {
        assert Reordered(kits, order) == [b] + rest;
        assert LoadKitsAsWritten(kits, order) == [Some(b)] + Somes(rest);
        SomesConcat([b], rest);
      } else {
        assert Reordered(kits, order) == rest + [b];
        assert LoadKitsAsWritten(kits, order) == Somes(rest) + [Some(b)];
        SomesConcat(rest, [b]);
      }
    }
  }

  lemma SomesConcat<T>(a: seq<T>, b: seq<T>)
    ensures Somes(a + b) == Somes(a) + Somes(b)
  {
    assert forall k :: 0 <= k < |a + b| ==> Somes(a + b)[k] == (Somes(a) + Somes(b))[k];
  }

  /** `_load_kits`: the loop keeps the last kit named 'base'; for 'first'
      or 'last' it is removed and put back at that end, and when there is
      none `None` is put there instead. */
  method LoadKits(registry: Registry, order: BaseKitOrder) returns (r: seq<Option<KitInstaller>>)
    ensures r == LoadKitsAsWritten(registry.installers, order)
    ensures LastBaseIndex(registry.installers).Some? || order == AnyOrder ==>
      r == Somes(Reordered(registry.installers, order))
  {
    var all := registry.GetAll();
    if LastBaseIndex(all).Some? || order == AnyOrder {
      LoadKitsAsWrittenWithBase(all, order);
    }
    if order == AnyOrder {
      return Somes(all);
    }
    var base := FindBase(all);
    var rest := all;
    if base.Some? {
      rest := RemoveFirst(all, base.value);
    }
    if order == First {
      r := [base] + Somes(rest);
    } else {
      r := Somes(rest) + [base];
    }
  }

  /** The scan of `_load_kits`: the last kit named 'base', if any. */
  method FindBase(kits: seq<KitInstaller>) returns (base: Option<KitInstaller>)
    ensures base.None? <==> LastBaseIndex(kits).None?
    ensures base.Some? ==> base.value == kits[LastBaseIndex(kits).value]
  {
    base := None;
    var i := 0;
    while i < |kits|
      invariant 0 <= i <= |kits|
      invariant base.None? <==> LastBaseIndex(kits[..i]).None?
      invariant base.Some? ==> base.value == kits[LastBaseIndex(kits[..i]).value]
    {
      assert kits[..i + 1][..i] == kits[..i];
      if kits[i].Name() == BaseKitName {
        base := Some(kits[i]);
      }
      i := i + 1;
    }
    assert kits[..i] == kits;
  }

  const NotCallable := "'NoneType' object is not callable"

  /** `_get_all_component_installers` over the list as written: calling the
      `None` entry (`kit_installer_class()`) raises `TypeError`. */
  function AllComponentsAsWritten(loaded: seq<Option<KitInstaller>>): (r: Result<seq<Component>, Error>)
    ensures r.Err? <==> None in loaded
    ensures r.Err? ==> r == Err(TypeError(NotCallable))
  {
    if |loaded| == 0 then Ok([])
    else if loaded[0].None? then Err(TypeError(NotCallable))
    else
      var rest := AllComponentsAsWritten(loaded[1..]);
      assert None in loaded <==> None in loaded[1..] by {
        assert loaded == [loaded[0]] + loaded[1..];
      }
      if rest.Err? then rest else Ok(loaded[0].value.components + rest.value)
  }

  /** Without a base kit, every hook that asks for 'first' or 'last' fails. */
  lemma LoadKitsWithoutBaseFails(kits: seq<KitInstaller>, order: BaseKitOrder)
    requires forall k :: 0 <= k < |kits| ==> kits[k].Name() != BaseKitName
    requires order != AnyOrder
    ensures AllComponentsAsWritten(LoadKitsAsWritten(kits, order)).Err?
  {
    var r := LoadKitsAsWritten(kits, order);
    if order == First {
      assert r[0] == None;
    } else {
      assert r[|r| - 1] == None;
    }
  }

  // ---------------------------------------------------------------------
  // _get_all_component_installers

  /** The component installers of the kits, kit by kit. */
  function Flatten(kits: seq<KitInstaller>): seq<Component>
  {
    if |kits| == 0 then [] else kits[0].components + Flatten(kits[1..])
  }

  lemma {:induction false} FlattenConcat(a: seq<KitInstaller>, b: seq<KitInstaller>)
    ensures Flatten(a + b) == Flatten(a) + Flatten(b)
    decreases |a|
  {
    if |a| > 0 {
      assert (a + b)[1..] == a[1..] + b;
      FlattenConcat(a[1..], b);
    } else {
      assert a + b == b;
    }
  }

  /** A component is collected exactly when some kit provides it. */
  lemma {:induction false} FlattenMembership(kits: seq<KitInstaller>, c: Component)
    ensures c in Flatten(kits) <==> exists i :: 0 <= i < |kits| && c in kits[i].components
    decreases |kits|
  {
    if |kits| > 0 {
      FlattenMembership(kits[1..], c);
      if c in Flatten(kits[1..]) {
        var i :| 0 <= i < |kits[1..]| && c in kits[1..][i].components;
        assert c in kits[i + 1].components;
      }
      if exists i :: 0 <= i < |kits| && c in kits[i].components {
        var i :| 0 <= i < |kits| && c in kits[i].components;
        if i > 0 {
          assert c in kits[1..][i - 1].components;
        }
      }
    }
  }

  /** The component lists of the kits, kit by kit, as `Flatten` collects them. */
  lemma {:induction false} AllComponentsOfSomes(kits: seq<KitInstaller>)
    ensures AllComponentsAsWritten(Somes(kits)) == Ok(Flatten(kits))
    decreases |kits|
  {
    if |kits| > 0 {
      assert Somes(kits)[1..] == Somes(kits[1..]);
      AllComponentsOfSomes(kits[1..]);
    }
  }

  /** `acc` put in front of the components still to be collected. */
  function Prepend(acc: seq<Component>, rest: Result<seq<Component>, Error>): Result<seq<Component>, Error>
  {
    if rest.Err? then rest else Ok(acc + rest.value)
  }

  /** One step of the collecting loop. */
  lemma AllComponentsStep(loaded: seq<Option<KitInstaller>>, i: nat, acc: seq<Component>)
    requires i < |loaded|
    ensures loaded[i].None? ==> Prepend(acc, AllComponentsAsWritten(loaded[i..])) == Err(TypeError(NotCallable))
    ensures loaded[i].Some? ==>
      Prepend(acc, AllComponentsAsWritten(loaded[i..])) ==
      Prepend(acc + loaded[i].value.components, AllComponentsAsWritten(loaded[i + 1..]))
  {
    assert loaded[i..][0] == loaded[i] && loaded[i..][1..] == loaded[i + 1..];
    if loaded[i].Some? {
      var rest := AllComponentsAsWritten(loaded[i + 1..]);
      if rest.Ok? {
        assert acc + (loaded[i].value.components + rest.value) == (acc + loaded[i].value.components) + rest.value;
      }
    }
  }

  /** `_get_all_component_installers`: every loaded kit's component
      installers, in kit order. With no base kit, 'first' and 'last' put
      `None` among the kits and calling it raises `TypeError`. */
  method AllComponentInstallers(registry: Registry, order: BaseKitOrder) returns (r: Result<seq<Component>, Error>)
    ensures r == AllComponentsAsWritten(LoadKitsAsWritten(registry.installers, order))
    ensures r.Ok? <==> LastBaseIndex(registry.installers).Some? || order == AnyOrder
    ensures r.Ok? ==> r.value == Flatten(Reordered(registry.installers, order))
    ensures r.Err? ==> r == Err(TypeError(NotCallable))
  {
    var kits := LoadKits(registry, order);
    if LastBaseIndex(registry.installers).Some? || order == AnyOrder {
      AllComponentsOfSomes(Reordered(registry.installers, order));
    } else {
      LoadKitsWithoutBaseFails(registry.installers, order);
    }
    r := CollectComponents(kits);
  }

  /** The loop of `_get_all_component_installers` over the loaded list. */
  method CollectComponents(kits: seq<Option<KitInstaller>>) returns (r: Result<seq<Component>, Error>)
    ensures r == AllComponentsAsWritten(kits)
  {
    var acc := [];
    var i := 0;
    assert kits[0..] == kits;
    var all := AllComponentsAsWritten(kits);
    assert all.Ok? ==> [] + all.value == all.value;
    while i < |kits|
      invariant 0 <= i <= |kits|
      invariant AllComponentsAsWritten(kits) == Prepend(acc, AllComponentsAsWritten(kits[i..]))
    {
      AllComponentsStep(kits, i, acc);
      if kits[i].None? {
        return Err(TypeError(NotCallable));
      }
      acc := acc + kits[i].value.components;
      i := i + 1;
    }
    assert kits[i..] == [];
    assert acc + [] == acc;
    r := Ok(acc);
  }

  // ---------------------------------------------------------------------
  // _get_enabled_component_installers

  /** The components whose name is among the enabled ones, in their order. */
  function Enabled(components: seq<Component>, enabled: seq<string>): seq<Component>
  {
    if |components| == 0 then []
    else
      var last := components[|components| - 1];
      Enabled(components[..|components| - 1], enabled) + (if last.name in enabled then [last] else [])
  }

  lemma {:induction false} EnabledConcat(a: seq<Component>, b: seq<Component>, enabled: seq<string>)
    ensures Enabled(a + b, enabled) == Enabled(a, enabled) + Enabled(b, enabled)
    decreases |b|
  {
    if |b| > 0 {
      assert (a + b)[..|a + b| - 1] == a + b[..|b| - 1];
      EnabledConcat(a, b[..|b| - 1], enabled);
    } else {
      assert a + b == a;
    }
  }

  /** The filter keeps each copy of an enabled component and drops every other. */
  lemma {:induction false} EnabledCount(components: seq<Component>, enabled: seq<string>, c: Component)
    ensures multiset(Enabled(components, enabled))[c] ==
      if c.name in enabled then multiset(components)[c] else 0
    decreases |components|
  {
    if |components| > 0 {
      var init := components[..|components| - 1];
      EnabledCount(init, enabled, c);
      assert components == init + [components[|components| - 1]];
    }
  }

  /** A component is kept exactly when it is listed and its name is enabled. */
  lemma EnabledMembership(components: seq<Component>, enabled: seq<string>, c: Component)
    ensures c in Enabled(components, enabled) <==> c in components && c.name in enabled
  {
    EnabledCount(components, enabled, c);
  }

  /** `_get_enabled_component_installers`: for each component, a scan of the
      enabled database components that stops at the first match. */
  method EnabledComponents(components: seq<Component>, enabled: seq<string>) returns (r: seq<Component>)
    ensures r == Enabled(components, enabled)
  {
    r := [];
    var i := 0;
    while i < |components|
      invariant 0 <= i <= |components|
      invariant r == Enabled(components[..i], enabled)
    {
      assert components[..i + 1][..i] == components[..i];
      var j := 0;
      var found := false;
      while j < |enabled| && !found
        invariant 0 <= j <= |enabled|
        invariant found <==> components[i].name in enabled[..j]
      {
        assert enabled[..j + 1] == enabled[..j] + [enabled[j]];
        if components[i].name == enabled[j] {
          found := true;
        }
        j := j + 1;
      }
      assert found <==> components[i].name in enabled by {
        if !found {
          assert enabled[..j] == enabled;
        } else {
          assert enabled[..j] + enabled[j..] == enabled;
        }
      }
      if found {
        r := r + [components[i]];
      }
      i := i + 1;
    }
    assert components[..i] == components;
  }

  // ---------------------------------------------------------------------
  // _run_action_with_node_list, post_add_host, _delete_host_action

  /** The calls made for `components`: one each, in order, all alike but for the component. */
  function Calls(components: seq<Component>, action: string, hw: Option<string>, sw: Option<string>, nodes: NodeArg): (r: seq<Call>)
    ensures |r| == |components|
    ensures forall i :: 0 <= i < |r| ==> r[i] == Call(components[i], action, hw, sw, nodes)
  {
    seq(|components|, i requires 0 <= i < |components| => Call(components[i], action, hw, sw, nodes))
  }

  /** Dispatching to two lists of components is dispatching to each in turn. */
  lemma CallsConcat(a: seq<Component>, b: seq<Component>, action: string, hw: Option<string>, sw: Option<string>, nodes: NodeArg)
    ensures Calls(a + b, action, hw, sw, nodes) == Calls(a, action, hw, sw, nodes) + Calls(b, action, hw, sw, nodes)
  {
  }

  /** `_run_action_with_node_list`. */
  method RunActionWithNodeList(components: seq<Component>, hw: Option<string>, sw: Option<string>,
                               nodes: NodeArg, action: string) returns (calls: seq<Call>)
    ensures calls == Calls(components, action, hw, sw, nodes)
  {
    calls := [];
    var i := 0;
    while i < |components|
      invariant 0 <= i <= |components|
      invariant |calls| == i
      invariant forall k :: 0 <= k < i ==> calls[k] == Call(components[k], action, hw, sw, nodes)
    {
      calls := calls + [Call(components[i], action, hw, sw, nodes)];
      i := i + 1;
    }
  }

  /** The components a hook reaches: the enabled component installers of
      the kits in the given base-kit order. */
  function HookComponents(kits: seq<KitInstaller>, enabled: seq<string>, order: BaseKitOrder): seq<Component>
  {
    Enabled(Flatten(Reordered(kits, order)), enabled)
  }

  /** With a base kit, its enabled components are reached first under
      'first' and last under 'last'; the other kits' follow in registration order. */
  lemma HookBaseOrder(kits: seq<KitInstaller>, enabled: seq<string>, j: nat)
    requires DistinctSpecs(kits)
    requires LastBaseIndex(kits) == Some(j)
    ensures HookComponents(kits, enabled, First) ==
      Enabled(kits[j].components, enabled) + Enabled(Flatten(kits[..j] + kits[j + 1..]), enabled)
    ensures HookComponents(kits, enabled, Last) ==
      Enabled(Flatten(kits[..j] + kits[j + 1..]), enabled) + Enabled(kits[j].components, enabled)
  {
    ReorderedMovesBase(kits, j);
    var rest := kits[..j] + kits[j + 1..];
    FlattenConcat([kits[j]], rest);
    FlattenConcat(rest, [kits[j]]);
    assert Flatten([kits[j]]) == kits[j].components by {
      assert [kits[j]][1..] == [];
    }
    EnabledConcat(kits[j].components, Flatten(rest), enabled);
    EnabledConcat(Flatten(rest), kits[j].components, enabled);
  }

  /** `post_add_host`: 'add_host' runs on the enabled components, base kit
      first, each given the node list. */
  method PostAddHost(registry: Registry, enabled: seq<string>, hw: string, sw: string, nodes: seq<string>)
    returns (r: Result<seq<Call>, Error>)
    ensures LastBaseIndex(registry.installers).Some? ==>
      r == Ok(Calls(HookComponents(registry.installers, enabled, First), "add_host", Some(hw), Some(sw), NodeList(nodes)))
    ensures LastBaseIndex(registry.installers).None? ==> r == Err(TypeError(NotCallable))
  {
    var all := AllComponentInstallers(registry, First);
    if all.Err? {
      return Err(all.error);
    }
    var components := EnabledComponents(all.value, enabled);
    var calls := RunActionWithNodeList(components, Some(hw), Some(sw), NodeList(nodes), "add_host");
    return Ok(calls);
  }

  /** The names of the nodes in state "Deleted", restricted to the software
      profile when one is named. */
  function DeletedNames(records: seq<NodeRecord>, sw: Option<string>): seq<string>
  {
    if |records| == 0 then []
    else
      var n := records[0];
      var keep := n.state == "Deleted" && (Truthy(sw) ==> n.softwareProfile == sw);
      (if keep then [n.name] else []) + DeletedNames(records[1..], sw)
  }

  /** A name is listed exactly when some node of that name is deleted (and in the profile, if named). */
  lemma {:induction false} DeletedNamesMembership(records: seq<NodeRecord>, sw: Option<string>, x: string)
    ensures x in DeletedNames(records, sw) <==>
      exists i :: 0 <= i < |records| && records[i].name == x && records[i].state == "Deleted" &&
        (Truthy(sw) ==> records[i].softwareProfile == sw)
    decreases |records|
  {
    if |records| > 0 {
      DeletedNamesMembership(records[1..], sw, x);
      if x in DeletedNames(records[1..], sw) {
        var i :| 0 <= i < |records[1..]| && records[1..][i].name == x && records[1..][i].state == "Deleted" &&
          (Truthy(sw) ==> records[1..][i].softwareProfile == sw);
        assert records[i + 1] == records[1..][i];
      }
      if exists i :: 0 <= i < |records| && records[i].name == x && records[i].state == "Deleted" &&
          (Truthy(sw) ==> records[i].softwareProfile == sw) {
        var i :| 0 <= i < |records| && records[i].name == x && records[i].state == "Deleted" &&
          (Truthy(sw) ==> records[i].softwareProfile == sw);
        if i > 0 {
          assert records[1..][i - 1] == records[i];
        }
      }
    }
  }

  /** The node argument of a delete hook: the given names joined with the
      deleted nodes' names, or the deleted nodes alone when none are given. */
  function DeleteNodeArg(records: seq<NodeRecord>, sw: Option<string>, given: Option<seq<string>>): (r: NodeArg)
    ensures given.Some? ==> (r.NameSet? &&
                             forall x :: x in r.names <==> x in given.value || x in DeletedNames(records, sw))
    ensures given.None? ==> r == NodeList(DeletedNames(records, sw))
  {
    var deleted := DeletedNames(records, sw);
    if given.Some? then NameSet((set x | x in given.value) + (set x | x in deleted))
    else NodeList(deleted)
  }

  /** `_delete_host_action`: the hook runs base kit last, on the given nodes
      together with every node still marked Deleted. */
  method DeleteHostAction(registry: Registry, enabled: seq<string>, hw: Option<string>, sw: Option<string>,
                          action: string, records: seq<NodeRecord>, given: Option<seq<string>>)
    returns (r: Result<seq<Call>, Error>)
    ensures LastBaseIndex(registry.installers).Some? ==>
      r == Ok(Calls(HookComponents(registry.installers, enabled, Last), action, hw, sw,
                    DeleteNodeArg(records, sw, given)))
    ensures LastBaseIndex(registry.installers).None? ==> r == Err(TypeError(NotCallable))
  {
    var all := AllComponentInstallers(registry, Last);
    if all.Err? {
      return Err(all.error);
    }
    var components := EnabledComponents(all.value, enabled);
    var deleted := DeletedNames(records, sw);
    var nodes: NodeArg;
    if given.Some? {
      nodes := NameSet((set x | x in given.value) + (set x | x in deleted));
    } else {
      nodes := NodeList(deleted);
    }
    var calls := RunActionWithNodeList(components, hw, sw, nodes, action);
    return Ok(calls);
  }
}
