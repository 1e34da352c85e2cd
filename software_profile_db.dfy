/** Software profiles in the database: `__populateSoftwareProfile` checks a
    profile object and copies it onto its database row, validating the
    partition scheme on the way; `deleteSoftwareProfile` refuses a profile
    that still has nodes, or an idle one still named by hardware profiles. */
module SoftwareProfileDb {
  import opened Wrappers
  import Strings

  /** A partition size as the profile object carries it: a number, or text
      that `int()` may or may not read. */
  datatype Scalar = Num(n: int) | Text(s: string)

  /** The partition fields the checks read; the other fields are copied
      onto the row unchanged. */
  datatype Partition = Partition(
    name: Option<string>, device: Option<string>, mountPoint: Option<string>, fsType: Option<string>,
    size: Option<Scalar>, diskSize: Option<Scalar>, grow: Option<bool>, maxSize: Option<int>)

  datatype OsInfo = OsInfo(name: Option<string>, version: Option<string>, arch: Option<string>)

  /** The software profile object handed in by the caller. */
  datatype SoftwareProfile = SoftwareProfile(
    name: Option<string>, description: Option<string>, kernel: Option<string>, kernelParams: Option<string>,
    initrd: Option<string>, os: Option<OsInfo>, profileType: Option<string>, minNodes: int, maxNodes: int,
    lockedState: string, isIdle: bool, dataRoot: Option<string>, dataRsync: Option<string>,
    partitions: seq<Partition>)

  /** The scalar columns of a software profile row. */
  datatype Attributes = Attributes(
    name: string, description: Option<string>, kernel: Option<string>, kernelParams: Option<string>,
    initrd: Option<string>, os: OsInfo, profileType: string, minNodes: int, maxNodes: int,
    lockedState: string, isIdle: bool, dataRoot: Option<string>, dataRsync: Option<string>)

  datatype Error =
    | UpdateSoftwareProfileFailed(msg: string)
    | InvalidPartitionScheme(msg: string)
    | SoftwareProfileNotFound(msg: string)
    | TortugaException(msg: string)

  // ---------------------------------------------------------------------
  // The profile object's own fields
  // ---------------------------------------------------------------------

  /** The first check on the profile's own fields that fails: a missing
      name, a missing type, or a missing operating system (or one without
      a name). */
  function ProfileFault(p: SoftwareProfile): (r: Option<Error>)
    ensures r.None? <==> p.name.Some? && p.profileType.Some? && p.os.Some? && p.os.value.name.Some?
    ensures p.name.None? ==> r == Some(UpdateSoftwareProfileFailed("Software profile name required"))
    ensures p.name.Some? && p.profileType.None? ==> r == Some(UpdateSoftwareProfileFailed("Software profile must have valid type"))
    ensures p.name.Some? && p.profileType.Some? && (p.os.None? || p.os.value.name.None?) ==>
      r == Some(UpdateSoftwareProfileFailed("Software profile must have valid operating system"))
  {
    if p.name.None? then Some(UpdateSoftwareProfileFailed("Software profile name required"))
    else if p.profileType.None? then Some(UpdateSoftwareProfileFailed("Software profile must have valid type"))
    else if p.os.None? || p.os.value.name.None? then Some(UpdateSoftwareProfileFailed("Software profile must have valid operating system"))
    else None
  }

  /** The columns a checked profile object gives its row. */
  function AttributesOf(p: SoftwareProfile): Attributes
    requires ProfileFault(p).None?
  {
    Attributes(p.name.value, p.description, p.kernel, p.kernelParams, p.initrd, p.os.value, p.profileType.value,
               p.minNodes, p.maxNodes, p.lockedState, p.isIdle, p.dataRoot, p.dataRsync)
  }

  // ---------------------------------------------------------------------
  // The partition scheme
  // ---------------------------------------------------------------------

  /** `int(x)` succeeds. */
  predicate IsInteger(x: Scalar)
  {
    x.Num? || Strings.DecimalText(x.s)
  }

  /** The key of the partitions dictionary. */
  function Pair(p: Partition): (Option<string>, Option<string>)
  {
    (p.name, p.device)
  }

  /** The keys of the partitions already accepted. */
  function PairsOf(ps: seq<Partition>): set<(Option<string>, Option<string>)>
  {
    set i | 0 <= i < |ps| :: Pair(ps[i])
  }

  /** `name/device` as the messages show them. */
  function Shown(p: Partition): string
  {
    (if p.name.Some? then p.name.value else "None") + "/" + (if p.device.Some? then p.device.value else "None")
  }

  /** The first check one partition fails, given the keys accepted before
      it, in the order the loop makes them. */
  function Fault(p: Partition, seen: set<(Option<string>, Option<string>)>): Option<Error>
  {
    if !Truthy(p.name) then Some(InvalidPartitionScheme("Invalid partition in software profile: missing or empty name"))
    else if !Truthy(p.device) then Some(InvalidPartitionScheme("Invalid partition in software profile: missing or empty device"))
    else if !Truthy(p.fsType) then
      Some(InvalidPartitionScheme("Invalid partition [" + Shown(p) + "] in software profile: missing or empty fsType"))
    else if p.size.None? then Some(InvalidPartitionScheme("Invalid partition [" + Shown(p) + "] in software profile: missing size"))
    else if Pair(p) in seen then Some(UpdateSoftwareProfileFailed("Duplicate partition [" + Shown(p) + "] found"))
    else if !IsInteger(p.size.value) then
      Some(InvalidPartitionScheme("Invalid partition [" + Shown(p) + "] in software profile: non-integer size"))
    else if p.diskSize.Some? && !IsInteger(p.diskSize.value) then
      Some(InvalidPartitionScheme("Invalid partition [" + Shown(p) + "] in software profile: non-integer disk size"))
    else None
  }

  /** The error of the first partition that fails its checks, if any. */
  function SchemeError(ps: seq<Partition>): Option<Error>
    decreases |ps|
  {
    if |ps| == 0 then None
    else
      var front := ps[..|ps| - 1];
      var e := SchemeError(front);
      if e.Some? then e else Fault(ps[|ps| - 1], PairsOf(front))
  }

  /** A partition that passes every check on its own. */
  predicate Sound(p: Partition)
  {
    Truthy(p.name) && Truthy(p.device) && Truthy(p.fsType) && p.size.Some? && IsInteger(p.size.value) &&
    (p.diskSize.Some? ==> IsInteger(p.diskSize.value))
  }

  /** No `(name, device)` key appears twice. */
  predicate DistinctPairs(ps: seq<Partition>)
  {
    forall i, j :: 0 <= i < j < |ps| ==> Pair(ps[i]) != Pair(ps[j])
  }

  /** A partition passes with the keys before it exactly when it is sound
      and its key is new. */
  lemma FaultNone(p: Partition, seen: set<(Option<string>, Option<string>)>)
    ensures Fault(p, seen).None? <==> Sound(p) && Pair(p) !in seen
  {
  }

  /** The key accepted last is among the keys of the longer prefix. */
  lemma PairsOfSnoc(ps: seq<Partition>, p: Partition)
    ensures PairsOf(ps + [p]) == PairsOf(ps) + {Pair(p)}
  {
    var qs := ps + [p];
    assert forall i :: 0 <= i < |ps| ==> qs[i] == ps[i];
    assert qs[|ps|] == p;
  }

  /** The scheme is accepted exactly when every partition is sound and no
      `(name, device)` key repeats. */
  lemma {:induction false} SchemeErrorNone(ps: seq<Partition>)
    ensures SchemeError(ps).None? <==> (forall i :: 0 <= i < |ps| ==> Sound(ps[i])) && DistinctPairs(ps)
    decreases |ps|
  {
    if |ps| > 0 {
      var n := |ps| - 1;
      var front := ps[..n];
      SchemeErrorNone(front);
      FaultNone(ps[n], PairsOf(front));
      assert ps == front + [ps[n]];
      assert forall i :: 0 <= i < n ==> front[i] == ps[i];
      if SchemeError(ps).None? {
        forall i, j | 0 <= i < j < |ps|
          ensures Pair(ps[i]) != Pair(ps[j])
        {
          if j == n {
            assert Pair(ps[i]) == Pair(front[i]) && Pair(front[i]) in PairsOf(front);
          }
        }
      }
      if (forall i :: 0 <= i < |ps| ==> Sound(ps[i])) && DistinctPairs(ps) {
        forall i | 0 <= i < n
          ensures Pair(front[i]) != Pair(ps[n])
        {
          assert front[i] == ps[i];
        }
      }
    }
  }

  /** The partition loop of `__populateSoftwareProfile`: every partition is
      checked in turn and entered into a dictionary keyed by
      `(name, device)`; the dictionary's values, in insertion order, are the
      row's new partitions. */
  method CheckPartitions(ps: seq<Partition>) returns (r: Result<seq<Partition>, Error>)
    ensures r.Err? <==> SchemeError(ps).Some?
    ensures r.Err? ==> r.error == SchemeError(ps).value
    ensures r.Ok? ==> r.value == ps && DistinctPairs(r.value) && forall i :: 0 <= i < |ps| ==> Sound(ps[i])
  {
    var seen: set<(Option<string>, Option<string>)> := {};
    var values: seq<Partition> := [];
    var i := 0;
    while i < |ps|
      invariant 0 <= i <= |ps|
      invariant SchemeError(ps[..i]).None?
      invariant seen == PairsOf(ps[..i]) && values == ps[..i]
    {
      var p := ps[i];
      assert ps[..i + 1][..i] == ps[..i] && ps[..i + 1] == ps[..i] + [p];
      PairsOfSnoc(ps[..i], p);
      var fault := Fault(p, seen);
      if fault.Some? {
        SchemeErrorFirst(ps, i);
        return Err(fault.value);
      }
      seen := seen + {Pair(p)};
      values := values + [p];
      i := i + 1;
    }
    assert ps[..i] == ps;
    SchemeErrorNone(ps);
    return Ok(values);
  }

  /** An error in partition `i`, after a clean prefix, is the scheme's error. */
  lemma {:induction false} SchemeErrorFirst(ps: seq<Partition>, i: nat)
    requires i < |ps| && SchemeError(ps[..i]).None? && Fault(ps[i], PairsOf(ps[..i])).Some?
    ensures SchemeError(ps) == Fault(ps[i], PairsOf(ps[..i]))
    decreases |ps| - i
  {
    if i + 1 < |ps| {
      assert ps[..i + 1][..i] == ps[..i];
      SchemeErrorSticks(ps, i + 1);
    } else {
      assert ps[..|ps| - 1] == ps[..i];
    }
  }

  /** Once a prefix has an error, every longer prefix has the same one. */
  lemma {:induction false} SchemeErrorSticks(ps: seq<Partition>, k: nat)
    requires k <= |ps| && SchemeError(ps[..k]).Some?
    ensures SchemeError(ps) == SchemeError(ps[..k])
    decreases |ps| - k
  {
    if k < |ps| {
      assert ps[..k + 1][..k] == ps[..k];
      SchemeErrorSticks(ps, k + 1);
    } else {
      assert ps[..k] == ps;
    }
  }

  /** Two partitions may share a name on different devices, but a
      `(name, device)` key may not appear twice, whatever the other fields. */
  lemma SameNameOtherDeviceAccepted()
    ensures var p := Partition(Some("root"), Some("1"), Some("/"), Some("ext4"), Some(Num(8)), None, None, None);
      var q := p.(device := Some("2"));
      SchemeError([p, q]).None? && SchemeError([p, p.(mountPoint := Some("/srv"))]).Some?
  {
    var p := Partition(Some("root"), Some("1"), Some("/"), Some("ext4"), Some(Num(8)), None, None, None);
    var q := p.(device := Some("2"));
    assert Sound(p) && Sound(q) && DistinctPairs([p, q]);
    SchemeErrorNone([p, q]);
    SchemeErrorNone([p, p.(mountPoint := Some("/srv"))]);
    assert Pair([p, p.(mountPoint := Some("/srv"))][0]) == Pair([p, p.(mountPoint := Some("/srv"))][1]);
  }

  // ---------------------------------------------------------------------
  // The rows
  // ---------------------------------------------------------------------

  /** A software profile row. */
  class SoftwareProfileModel {
    var attributes: Attributes
    var partitions: seq<Partition>
    /** The names of the nodes in the profile. */
    var nodes: seq<string>
    /** The names of the hardware profiles that name this one as their idle
        software profile. */
    var idleHardwareProfiles: seq<string>

    /** Why `deleteSoftwareProfile` refuses this row: it still has nodes,
        or it is idle and some hardware profile still names it. */
    function DeleteRefusal(): (r: Option<Error>)
      reads this
      ensures nodes != [] ==> r == Some(TortugaException(HasNodesMessage))
      ensures nodes == [] && InUse(attributes.isIdle, idleHardwareProfiles) ==>
        r == Some(TortugaException(InUseMessage(idleHardwareProfiles)))
      ensures r.None? <==> nodes == [] && !InUse(attributes.isIdle, idleHardwareProfiles)
    {
      if nodes != [] then Some(TortugaException(HasNodesMessage))
      else if InUse(attributes.isIdle, idleHardwareProfiles) then Some(TortugaException(InUseMessage(idleHardwareProfiles)))
      else None
    }

    constructor(attributes: Attributes)
      ensures this.attributes == attributes && partitions == [] && nodes == [] && idleHardwareProfiles == []
    {
      this.attributes := attributes;
      partitions := [];
      nodes := [];
      idleHardwareProfiles := [];
    }

    /** `__populateSoftwareProfile` on an existing row: the object's own
        fields are checked before anything is written; the columns are then
        copied, and the partition scheme is checked while being collected,
        so a bad scheme leaves the new columns written and the old
        partitions in place. */
    method Populate(p: SoftwareProfile) returns (r: Outcome<Error>)
      modifies this
      ensures ProfileFault(p).Some? ==> r == Fail(ProfileFault(p).value) && attributes == old(attributes)
      ensures ProfileFault(p).None? ==> attributes == AttributesOf(p)
      ensures ProfileFault(p).None? ==> (r.Pass? <==> SchemeError(p.partitions).None?)
      ensures r.Fail? ==> partitions == old(partitions)
      ensures ProfileFault(p).None? && r.Fail? ==> r.error == SchemeError(p.partitions).value
      ensures r.Pass? ==> partitions == p.partitions && DistinctPairs(partitions)
      ensures nodes == old(nodes) && idleHardwareProfiles == old(idleHardwareProfiles)
    {
      var fault := ProfileFault(p);
      if fault.Some? {
        return Fail(fault.value);
      }
      attributes := AttributesOf(p);
      var collected := CheckPartitions(p.partitions);
      if collected.Err? {
        return Fail(collected.error);
      }
      partitions := collected.value;
      return Pass;
    }

    /** `updateSoftwareProfile` on this row: a failed populate is rolled
        back, so the row keeps every column it had. */
    method Update(p: SoftwareProfile) returns (r: Outcome<Error>)
      modifies this
      ensures r.Fail? ==> attributes == old(attributes) && partitions == old(partitions)
      ensures r.Fail? <==> ProfileFault(p).Some? || SchemeError(p.partitions).Some?
      ensures r.Pass? ==> attributes == AttributesOf(p) && partitions == p.partitions
      ensures nodes == old(nodes) && idleHardwareProfiles == old(idleHardwareProfiles)
    {
      var saved := attributes;
      r := Populate(p);
      if r.Fail? {
        // session.rollback()
        attributes := saved;
      }
    }
  }

  const HasNodesMessage := "Unable to delete software profile with associated nodes"

  /** An idle profile that some hardware profile still names. */
  predicate InUse(isIdle: bool, idleHardwareProfiles: seq<string>)
  {
    isIdle && idleHardwareProfiles != []
  }

  /** The message of the delete refused for an idle profile still in use. */
  function InUseMessage(hardwareProfiles: seq<string>): string
  {
    "Unable to delete software profile.  This software profile is associated with one or more hardware profiles: ["
      + Strings.Join(hardwareProfiles, " ") + "]"
  }

  /** The software profile table, by name. */
  class SoftwareProfileTable {
    var rows: map<string, SoftwareProfileModel>

    constructor()
      ensures rows == map[]
    {
      rows := map[];
    }

    /** `deleteSoftwareProfile`: an unknown name is refused, and so is a
        row its guard refuses; otherwise the row is removed. */
    method Delete(name: string) returns (r: Outcome<Error>)
      modifies this
      ensures name !in old(rows) ==> r == Fail(SoftwareProfileNotFound("Software profile [" + name + "] not found"))
      ensures name in old(rows) ==> r == old(if rows[name].DeleteRefusal().Some? then Fail(rows[name].DeleteRefusal().value) else Pass)
      ensures r.Fail? ==> rows == old(rows)
      ensures r.Pass? ==> rows == old(rows) - {name}
    {
      if name !in rows {
        return Fail(SoftwareProfileNotFound("Software profile [" + name + "] not found"));
      }
      var refusal := rows[name].DeleteRefusal();
      if refusal.Some? {
        return Fail(refusal.value);
      }
      rows := rows - {name};
      return Pass;
    }
  }
}
