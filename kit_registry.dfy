/** The registry of kit installers: a dictionary from kit spec
    `(name, version, iteration)` to installer class, filled once per spec and
    read in registration order (dictionaries keep insertion order). */
module KitRegistry {
  import opened Wrappers
  import KitObject

  datatype KitSpec = KitSpec(name: string, version: string, iteration: string)

  /** A component installer, known by its name. */
  datatype Component = Component(name: string)

  /** An installer class: its spec and the component installers it provides. */
  datatype KitInstaller = KitInstaller(spec: KitSpec, components: seq<Component>)
  {
    /** `kit_class.name`, the first part of its spec. */
    function Name(): string
    {
      spec.name
    }
  }

  datatype Error = KitNotFound(msg: string)

  /** Some installer in `installers` is registered under `spec`. */
  predicate Registered(installers: seq<KitInstaller>, spec: KitSpec)
  {
    exists i :: 0 <= i < |installers| && installers[i].spec == spec
  }

  /** No spec is registered twice: the dictionary's keys are unique. */
  ghost predicate DistinctSpecs(installers: seq<KitInstaller>)
  {
    forall i, j :: 0 <= i < j < |installers| ==> installers[i].spec != installers[j].spec
  }

  /** The installer registered under `spec`, or `None`. */
  function Find(installers: seq<KitInstaller>, spec: KitSpec): (r: Option<KitInstaller>)
    ensures r.Some? <==> Registered(installers, spec)
    ensures r.Some? ==> r.value.spec == spec && r.value in installers
  {
    if |installers| == 0 then None
    else if installers[0].spec == spec then Some(installers[0])
    else
      var r := Find(installers[1..], spec);
      assert Registered(installers[1..], spec) ==> Registered(installers, spec) by {
        if Registered(installers[1..], spec) {
          var i :| 0 <= i < |installers[1..]| && installers[1..][i].spec == spec;
          assert installers[i + 1].spec == spec;
        }
      }
      r
  }

  /** The dictionary after `register_kit_installer`: a new spec is added at the
      end, an existing one is left as it is. */
  function Inserted(installers: seq<KitInstaller>, kit: KitInstaller): seq<KitInstaller>
  {
    if Registered(installers, kit.spec) then installers else installers + [kit]
  }

  /** Registering keeps the keys unique. */
  lemma InsertedDistinct(installers: seq<KitInstaller>, kit: KitInstaller)
    requires DistinctSpecs(installers)
    ensures DistinctSpecs(Inserted(installers, kit))
  {
  }

  /** A spec other than the one registered is looked up as before. */
  lemma {:induction false} FindAppendOther(installers: seq<KitInstaller>, kit: KitInstaller, spec: KitSpec)
    requires kit.spec != spec
    ensures Find(installers + [kit], spec) == Find(installers, spec)
    decreases |installers|
  {
    if |installers| > 0 {
      assert (installers + [kit])[1..] == installers[1..] + [kit];
      FindAppendOther(installers[1..], kit, spec);
    } else {
      assert [kit][1..] == [];
    }
  }

  /** The spec just appended is found as the kit appended. */
  lemma {:induction false} FindAppendNew(installers: seq<KitInstaller>, kit: KitInstaller)
    requires !Registered(installers, kit.spec)
    ensures Find(installers + [kit], kit.spec) == Some(kit)
    decreases |installers|
  {
    if |installers| > 0 {
      assert (installers + [kit])[1..] == installers[1..] + [kit];
      assert forall i :: 0 <= i < |installers[1..]| ==> installers[1..][i] == installers[i + 1];
      FindAppendNew(installers[1..], kit);
    }
  }

  /** After registration the spec is found; the class registered first stays,
      and every other spec is looked up as before. */
  lemma RegisterThenFind(installers: seq<KitInstaller>, kit: KitInstaller, spec: KitSpec)
    ensures Find(Inserted(installers, kit), kit.spec).Some?
    ensures Registered(installers, kit.spec) ==> Find(Inserted(installers, kit), kit.spec) == Find(installers, kit.spec)
    ensures !Registered(installers, kit.spec) ==> Find(Inserted(installers, kit), kit.spec) == Some(kit)
    ensures spec != kit.spec ==> Find(Inserted(installers, kit), spec) == Find(installers, spec)
  {
    if !Registered(installers, kit.spec) {
      FindAppendNew(installers, kit);
      if spec != kit.spec {
        FindAppendOther(installers, kit, spec);
      }
    }
  }

  /** Registering the same class again changes nothing. */
  lemma RegisterIdempotent(installers: seq<KitInstaller>, kit: KitInstaller)
    ensures Inserted(Inserted(installers, kit), kit) == Inserted(installers, kit)
  {
    assert Registered(installers + [kit], kit.spec) by {
      assert (installers + [kit])[|installers|] == kit;
    }
  }

  /** The message of the `KitNotFound` raised for `spec`: the spec shown as a kit. */
  function NotFoundMessage(spec: KitSpec): string
  {
    var shown := KitObject.Repr(KitObject.Kit(Some(spec.name), Some(spec.version), Some(spec.iteration)));
    "Kit [" + (if shown.Some? then shown.value else "None") + "] not found"
  }

  /** A spec with a version and an iteration is shown as
      `name-version-iteration` in the not-found message. */
  lemma NotFoundMessageShowsSpec(spec: KitSpec)
    requires spec.version != "" && spec.iteration != ""
    ensures NotFoundMessage(spec) == "Kit [" + spec.name + "-" + spec.version + "-" + spec.iteration + "] not found"
  {
    var k := KitObject.Kit(Some(spec.name), Some(spec.version), Some(spec.iteration));
    assert KitObject.DbVersion(k) == Some(spec.version + "-" + spec.iteration);
  }

  /** `KIT_INSTALLER_REGISTRY` with its operations. */
  class Registry {
    /** The dictionary's values in insertion order; each carries its key. */
    var installers: seq<KitInstaller>

    ghost predicate Valid()
      reads this
    {
      DistinctSpecs(installers)
    }

    constructor()
      ensures Valid() && installers == []
    {
      installers := [];
    }

    /** `register_kit_installer`: a spec already present is left alone. */
    method Register(kit: KitInstaller)
      requires Valid()
      modifies this
      ensures Valid()
      ensures installers == Inserted(old(installers), kit)
      ensures Find(installers, kit.spec).Some?
      ensures old(Registered(installers, kit.spec)) ==> installers == old(installers)
    {
      InsertedDistinct(installers, kit);
      RegisterThenFind(installers, kit, kit.spec);
      if Registered(installers, kit.spec) {
        return;
      }
      installers := installers + [kit];
    }

    /** `get_kit_installer`: the class registered under `spec`, or `KitNotFound`. */
    function Get(spec: KitSpec): (r: Result<KitInstaller, Error>)
      reads this
      ensures r.Ok? <==> Registered(installers, spec)
      ensures r.Ok? ==> r.value.spec == spec && r.value in installers
      ensures r.Err? ==> r.error == KitNotFound(NotFoundMessage(spec))
    {
      var kit := Find(installers, spec);
      if kit.None? then Err(KitNotFound(NotFoundMessage(spec))) else Ok(kit.value)
    }

    /** `get_all_kit_installers`: the installers in registration order, as a
        new list; a sequence is a value, so nothing a caller does to it
        reaches the registry. */
    method GetAll() returns (r: seq<KitInstaller>)
      ensures r == installers
      ensures forall spec :: Registered(r, spec) <==> Get(spec).Ok?
    {
      r := installers;
    }
  }
}
