/** The SAN volume bookkeeping: the cache file `san-data.conf` (an INI file
    read and written whole by every operation) holds a `volumes` section
    with one entry per volume, one section per node mapping its drive
    numbers to volumes, and one section per volume mapping each target host
    it is attached to onto a device and the nodes using it there. */
module SanStorage {
  import opened Wrappers
  import opened Strings

  /** The options of one section, by name. */
  type Section = map<string, string>

  /** The cache file: its sections, by name. */
  type Cache = map<string, Section>

  const VolumeSection := "volumes"

  /** A volume as `__get_volume` reads it. */
  datatype Volume = Volume(id: string, size: int, storageAdapter: string, adapterVolume: string,
                           persistent: bool, shared: bool)

  datatype Error =
    | VolumeDoesNotExist(msg: string)
    | VolumeAlreadyMapped(msg: string)
    | VolumeNotMapped(msg: string)
    | VolumeStillAttached(msg: string)
    | DeletePersistentVolumeFailed(msg: string)
    | InvalidArgument(msg: string)
    | NoSectionError(section: string)
    | ValueError
    | IndexError

  const ForceRequiredMessage := "Error deleting volume: Force option is required to delete a persistent volume"
  const NeitherGivenMessage := "Either volume or driveNumber needs to be provided"

  /** The parser keeps option names lower-cased (its `optionxform`), so a
      cache file it has read or written has only lower-case option names. */
  predicate Canonical(cache: Cache)
  {
    forall s, o :: s in cache && o in cache[s] ==> Lower(o) == o
  }

  /** `config.options(section)` when the section exists, else nothing. */
  function Options(cache: Cache, section: string): (r: set<string>)
    ensures section in cache ==> r == cache[section].Keys
    ensures section !in cache ==> r == {}
  {
    if section in cache then cache[section].Keys else {}
  }

  /** `config.set(section, option, value)`, after adding the section when it
      is missing. */
  function SetOption(cache: Cache, section: string, option: string, value: string): (r: Cache)
    ensures section in r && Lower(option) in r[section] && r[section][Lower(option)] == value
    ensures forall s :: s != section ==> (s in r <==> s in cache) && (s in cache ==> r[s] == cache[s])
    ensures forall o :: o != Lower(option) ==> (o in r[section] <==> o in Options(cache, section))
    ensures forall o :: o != Lower(option) && o in Options(cache, section) ==> r[section][o] == cache[section][o]
    ensures Canonical(cache) ==> Canonical(r)
  {
    LowerTwice(option);
    var s := if section in cache then cache[section] else map[];
    cache[section := s[Lower(option) := value]]
  }

  // ---------------------------------------------------------------------
  // Entries as text
  // ---------------------------------------------------------------------

  /** The non-empty pieces, in order. */
  function Words(parts: seq<string>): (r: seq<string>)
    ensures forall k :: 0 <= k < |r| ==> r[k] != "" && r[k] in parts
  {
    if parts == [] then []
    else if parts[0] == "" then Words(parts[1..])
    else [parts[0]] + Words(parts[1..])
  }

  /** `s.split()` for text whose only whitespace is the space: the
      non-empty runs of other characters. */
  function Fields(s: string): (r: seq<string>)
    ensures forall k :: 0 <= k < |r| ==> r[k] != "" && ' ' !in r[k]
  {
    SplitPieces(s, ' ');
    Words(Split(s, " "))
  }

  lemma {:induction false} WordsKeeps(parts: seq<string>)
    requires forall k :: 0 <= k < |parts| ==> parts[k] != ""
    ensures Words(parts) == parts
  {
    if parts != [] {
      WordsKeeps(parts[1..]);
      assert parts == [parts[0]] + parts[1..];
    }
  }

  /** Splitting on whitespace reads back words joined by single spaces. */
  lemma FieldsOfJoin(parts: seq<string>)
    requires |parts| >= 1
    requires forall k :: 0 <= k < |parts| ==> parts[k] != "" && ' ' !in parts[k]
    ensures Fields(Join(parts, " ")) == parts
  {
    SplitJoin(parts, ' ');
    WordsKeeps(parts);
  }

  /** Python's `'%s' % b` for a boolean. */
  function BoolText(b: bool): string
  {
    if b then "True" else "False"
  }

  /** How `__get_volume` reads a flag: it is true when it says `true` in any case. */
  predicate Truth(s: string)
  {
    Lower(s) == "true"
  }

  lemma BoolTextRead(b: bool)
    ensures Truth(BoolText(b)) == b
    ensures BoolText(b) != "" && ' ' !in BoolText(b)
  {
    var t := Lower(BoolText(b));
    if b {
      assert t == "true" by {
        assert t[0] == 't' && t[1] == 'r' && t[2] == 'u' && t[3] == 'e';
      }
    } else {
      assert t[0] == 'f';
    }
  }

  // ---------------------------------------------------------------------
  // Volumes
  // ---------------------------------------------------------------------

  /** `__get_volume`: the entry of `volumeId` in the `volumes` section,
      which must be five fields with an integer size. */
  function VolumeEntry(cache: Cache, volumeId: string): (r: Result<Volume, Error>)
    ensures Lower(volumeId) !in Options(cache, VolumeSection) ==>
      r == Err(VolumeDoesNotExist("Volume [" + volumeId + "] does not exist"))
    ensures r.Err? ==> r.error.VolumeDoesNotExist?
    ensures r.Ok? ==> (r.value.id == Lower(volumeId) &&
      r.value.storageAdapter != "" && ' ' !in r.value.storageAdapter &&
      r.value.adapterVolume != "" && ' ' !in r.value.adapterVolume)
  {
    if Lower(volumeId) !in Options(cache, VolumeSection) then
      Err(VolumeDoesNotExist("Volume [" + volumeId + "] does not exist"))
    else
      var f := Fields(cache[VolumeSection][Lower(volumeId)]);
      if |f| != 5 || !DecimalText(f[0]) then Err(VolumeDoesNotExist("Volume [" + volumeId + "] entry malformed"))
      else Ok(Volume(Lower(volumeId), IntValue(f[0]), f[1], f[2], Truth(f[3]), Truth(f[4])))
  }

  /** The entry `__addStorageVolume` writes for a volume. */
  function VolumeText(v: Volume): string
  {
    Join([IntToString(v.size), v.storageAdapter, v.adapterVolume, BoolText(v.persistent), BoolText(v.shared)], " ")
  }

  /** An entry written for a volume reads back as that volume. */
  lemma VolumeTextRoundTrip(cache: Cache, volumeId: string, v: Volume)
    requires v.id == Lower(volumeId)
    requires v.storageAdapter != "" && ' ' !in v.storageAdapter
    requires v.adapterVolume != "" && ' ' !in v.adapterVolume
    requires VolumeSection in cache && Lower(volumeId) in cache[VolumeSection]
    requires cache[VolumeSection][Lower(volumeId)] == VolumeText(v)
    ensures VolumeEntry(cache, volumeId) == Ok(v)
  {
    var parts := [IntToString(v.size), v.storageAdapter, v.adapterVolume, BoolText(v.persistent), BoolText(v.shared)];
    IntTextRoundTrip(v.size);
    BoolTextRead(v.persistent);
    BoolTextRead(v.shared);
    FieldsOfJoin(parts);
  }

  /** `getVolume` as written: with no `volumes` section at all the lookup
      indexes an empty list (an `IndexError`); otherwise the queried entry
      decides. */
  function GetVolume(cache: Cache, volume: string): (r: Outcome<Error>)
    ensures VolumeSection !in cache ==> r == Fail(IndexError)
    ensures VolumeSection in cache ==> r == GetVolumeChecked(cache, volume)
  {
    if VolumeSection !in cache then Fail(IndexError) else GetVolumeChecked(cache, volume)
  }

  /** `getVolume` as its documentation promises: an unknown volume always
      raises `VolumeDoesNotExist`. */
  function GetVolumeChecked(cache: Cache, volume: string): (r: Outcome<Error>)
    ensures r.Fail? ==> r.error.VolumeDoesNotExist?
    ensures r.Pass? <==> VolumeEntry(cache, Lower(volume)).Ok?
    ensures Lower(volume) !in Options(cache, VolumeSection) ==>
      r == Fail(VolumeDoesNotExist("Volume [" + Lower(volume) + "] does not exist"))
  {
    LowerTwice(volume);
    if Lower(volume) !in Options(cache, VolumeSection) then
      Fail(VolumeDoesNotExist("Volume [" + Lower(volume) + "] does not exist"))
    else
      match VolumeEntry(cache, Lower(volume))
      case Err(e) => Fail(e)
      case Ok(_) => Pass
  }

  /** With no `volumes` section, `getVolume` raises `IndexError` where
      `VolumeDoesNotExist` is documented. */
  lemma GetVolumeWithoutVolumesSection()
    ensures GetVolume(map[], "v") == Fail(IndexError)
    ensures GetVolumeChecked(map[], "v").Fail? && GetVolumeChecked(map[], "v").error.VolumeDoesNotExist?
  {
  }

  // ---------------------------------------------------------------------
  // Target host mappings
  // ---------------------------------------------------------------------

  /** The option `__addTargetHostMapping` writes: the device, a space, and
      the node names separated by commas. */
  function Format(device: string, nodes: seq<string>): string
  {
    device + " " + Join(nodes, ",")
  }

  /** `__checkVolumeTargetHost`: the nodes using `volume` on `targetHost`
      and the device it is attached as there, or no nodes and no device
      when it is not attached there. */
  function TargetHost(cache: Cache, volume: string, targetHost: string): (r: (seq<string>, Option<string>))
    ensures r.1.None? <==> !(volume in cache && Lower(targetHost) in cache[volume])
    ensures r.1.None? ==> r.0 == []
    ensures r.1.Some? ==> ' ' !in r.1.value
    ensures forall k :: 0 <= k < |r.0| ==> ' ' !in r.0[k] && ',' !in r.0[k]
  {
    if volume in cache && Lower(targetHost) in cache[volume] then
      var parts := Split(cache[volume][Lower(targetHost)], " ");
      SplitPieces(cache[volume][Lower(targetHost)], ' ');
      if |parts| > 1 then
        SplitPieces(parts[1], ',');
        (Split(parts[1], ","), Some(parts[0]))
      else ([], Some(parts[0]))
    else ([], None)
  }

  /** An option written by `Format` reads back as the device and nodes it
      was written from, when the names hold no separator. */
  lemma ReadBack(cache: Cache, volume: string, targetHost: string, device: string, nodes: seq<string>)
    requires volume in cache && Lower(targetHost) in cache[volume]
    requires cache[volume][Lower(targetHost)] == Format(device, nodes)
    requires |nodes| >= 1 && ' ' !in device
    requires forall k :: 0 <= k < |nodes| ==> ' ' !in nodes[k] && ',' !in nodes[k]
    ensures TargetHost(cache, volume, targetHost) == (nodes, Some(device))
  {
    var joined := Join(nodes, ",");
    JoinAvoids(nodes, ",", ' ');
    assert Format(device, nodes) == Join([device, joined], " ");
    SplitJoin([device, joined], ' ');
    SplitJoin(nodes, ',');
  }

  /** `list.remove(n)` for a node that is listed: its first occurrence goes. */
  function RemoveFirst(nodes: seq<string>, n: string): (r: seq<string>)
    requires n in nodes
    ensures |r| == |nodes| - 1
    ensures multiset(r) + multiset{n} == multiset(nodes)
  {
    assert nodes == [nodes[0]] + nodes[1..];
    if nodes[0] == n then nodes[1..]
    else [nodes[0]] + RemoveFirst(nodes[1..], n)
  }

  /** The nodes left using a target host once `nodeName` stops using it. */
  function Remaining(nodes: seq<string>, nodeName: string): (r: seq<string>)
    ensures nodeName !in nodes ==> r == nodes
    ensures nodeName in nodes ==> |r| == |nodes| - 1 && multiset(r) + multiset{nodeName} == multiset(nodes)
  {
    if nodeName in nodes then RemoveFirst(nodes, nodeName) else nodes
  }

  /** The cache file after `__addTargetHostMapping`: an existing attachment
      keeps its device, and the node is added to its nodes unless listed. */
  function WithMapping(cache: Cache, volume: string, targetHost: string, device: string, nodeName: string): (r: Cache)
  {
    var (nodes, current) := TargetHost(cache, volume, targetHost);
    var dev := if current.Some? then current.value else device;
    SetOption(cache, volume, targetHost, Format(dev, if nodeName in nodes then nodes else nodes + [nodeName]))
  }

  /** The cache file after `__removeTargetHostMapping`: the node stops using
      the target host; when no node is left the option goes, and then the
      section if nothing else is left in it. */
  function WithoutMapping(cache: Cache, volume: string, targetHost: string, nodeName: string): (r: Cache)
  {
    var (nodes, device) := TargetHost(cache, volume, targetHost);
    var left := Remaining(nodes, nodeName);
    var section := if volume in cache then cache[volume] else map[];
    if left == [] then
      var rest := section - {Lower(targetHost)};
      if rest == map[] then cache - {volume} else cache[volume := rest]
    else SetOption(cache, volume, targetHost, Format(device.value, left))
  }

  /** After adding a mapping the node is listed exactly where it was, or
      once at the end if it was not, and the device already attached is
      kept. */
  lemma AddListsNodeOnce(cache: Cache, volume: string, targetHost: string, device: string, nodeName: string)
    requires ' ' !in device && ' ' !in nodeName && ',' !in nodeName
    ensures var (nodes, current) := TargetHost(cache, volume, targetHost);
      TargetHost(WithMapping(cache, volume, targetHost, device, nodeName), volume, targetHost) ==
        (if nodeName in nodes then nodes else nodes + [nodeName], if current.Some? then current else Some(device))
    ensures nodeName in TargetHost(WithMapping(cache, volume, targetHost, device, nodeName), volume, targetHost).0
  {
    var (nodes, current) := TargetHost(cache, volume, targetHost);
    var dev := if current.Some? then current.value else device;
    var listed := if nodeName in nodes then nodes else nodes + [nodeName];
    ReadBack(WithMapping(cache, volume, targetHost, device, nodeName), volume, targetHost, dev, listed);
  }

  /** Adding a mapping changes nothing in the file but the one option. */
  lemma AddKeepsRest(cache: Cache, volume: string, targetHost: string, device: string, nodeName: string)
    ensures var r := WithMapping(cache, volume, targetHost, device, nodeName);
      forall s :: s != volume ==> (s in r <==> s in cache) && (s in cache ==> r[s] == cache[s])
    ensures var r := WithMapping(cache, volume, targetHost, device, nodeName);
      forall o :: o != Lower(targetHost) ==> (o in r[volume] <==> o in Options(cache, volume))
    ensures var r := WithMapping(cache, volume, targetHost, device, nodeName);
      forall o :: o != Lower(targetHost) && o in Options(cache, volume) ==> r[volume][o] == cache[volume][o]
  {
  }

  /** Setting an option to the value it has changes nothing. */
  lemma SetOptionSame(cache: Cache, section: string, option: string, value: string)
    requires section in cache && Lower(option) in cache[section] && cache[section][Lower(option)] == value
    ensures SetOption(cache, section, option, value) == cache
  {
    assert cache[section][Lower(option) := value] == cache[section];
  }

  /** Adding the same mapping twice is adding it once. */
  lemma AddTwiceIsOnce(cache: Cache, volume: string, targetHost: string, device: string, nodeName: string)
    requires ' ' !in device && ' ' !in nodeName && ',' !in nodeName
    ensures var once := WithMapping(cache, volume, targetHost, device, nodeName);
      WithMapping(once, volume, targetHost, device, nodeName) == once
  {
    var once := WithMapping(cache, volume, targetHost, device, nodeName);
    AddListsNodeOnce(cache, volume, targetHost, device, nodeName);
    var (nodes, current) := TargetHost(once, volume, targetHost);
    assert once[volume][Lower(targetHost)] == Format(current.value, nodes);
    SetOptionSame(once, volume, targetHost, Format(current.value, nodes));
  }

  /** Removing the last node of a target host drops its option, then the
      volume's section when no other target host is left in it; the rest of
      the file does not change. */
  lemma RemoveLastNodeDropsOption(cache: Cache, volume: string, targetHost: string, nodeName: string)
    requires Remaining(TargetHost(cache, volume, targetHost).0, nodeName) == []
    ensures var r := WithoutMapping(cache, volume, targetHost, nodeName);
      volume in r <==> Options(cache, volume) - {Lower(targetHost)} != {}
    ensures var r := WithoutMapping(cache, volume, targetHost, nodeName);
      volume in r ==> r[volume] == cache[volume] - {Lower(targetHost)}
    ensures var r := WithoutMapping(cache, volume, targetHost, nodeName);
      forall s :: s != volume ==> (s in r <==> s in cache) && (s in cache ==> r[s] == cache[s])
  {
    var section := if volume in cache then cache[volume] else map[];
    var rest := section - {Lower(targetHost)};
    assert rest.Keys == Options(cache, volume) - {Lower(targetHost)};
    if rest == map[] {
      assert rest.Keys == {};
    } else {
      assert rest.Keys != {} by {
        var o :| o in rest;
      }
    }
  }

  /** Removing a node that is not the last leaves the others listed, with
      the device unchanged. */
  lemma RemoveKeepsOthers(cache: Cache, volume: string, targetHost: string, nodeName: string)
    requires Remaining(TargetHost(cache, volume, targetHost).0, nodeName) != []
    ensures var (nodes, device) := TargetHost(cache, volume, targetHost);
      TargetHost(WithoutMapping(cache, volume, targetHost, nodeName), volume, targetHost) ==
        (Remaining(nodes, nodeName), device)
  {
    var (nodes, device) := TargetHost(cache, volume, targetHost);
    var left := Remaining(nodes, nodeName);
    assert forall k :: 0 <= k < |left| ==> left[k] in multiset(nodes) by {
      forall k | 0 <= k < |left|
        ensures left[k] in multiset(nodes)
      {
        assert left[k] in multiset(left);
      }
    }
    ReadBack(WithoutMapping(cache, volume, targetHost, nodeName), volume, targetHost, device.value, left);
  }

  /** Removing a mapping that was just added to a target host the volume was
      not attached on gives back the file as it was, unless the volume's
      section was there and empty. */
  lemma RemoveUndoesAdd(cache: Cache, volume: string, targetHost: string, device: string, nodeName: string)
    requires ' ' !in device && ' ' !in nodeName && ',' !in nodeName
    requires TargetHost(cache, volume, targetHost).1.None?
    requires volume in cache ==> cache[volume] != map[]
    ensures WithoutMapping(WithMapping(cache, volume, targetHost, device, nodeName), volume, targetHost, nodeName) == cache
  {
    var added := WithMapping(cache, volume, targetHost, device, nodeName);
    assert added == cache[volume := (if volume in cache then cache[volume] else map[])[Lower(targetHost) := Format(device, [nodeName])]];
    ReadBack(added, volume, targetHost, device, [nodeName]);
    assert Remaining([nodeName], nodeName) == [];
    var rest := added[volume] - {Lower(targetHost)};
    assert WithoutMapping(added, volume, targetHost, nodeName) ==
      if rest == map[] then added - {volume} else added[volume := rest];
    if volume in cache {
      assert rest == cache[volume];
    } else {
      assert rest == map[];
    }
  }

  // ---------------------------------------------------------------------
  // Node drives
  // ---------------------------------------------------------------------

  /** The volume a node's drive is mapped to, as `__getDriveInfo` reads it:
      the entry must be three fields naming a volume that exists, and the
      id comes back lower-cased. */
  function DriveVolume(cache: Cache, node: string, drive: string): (r: Result<string, Error>)
    requires node in cache && drive in cache[node]
  {
    var f := Fields(cache[node][drive]);
    if |f| != 3 then Err(ValueError)
    else
      match VolumeEntry(cache, f[0])
      case Err(e) => Err(e)
      case Ok(v) => Ok(v.id)
  }

  /** `getNodeVolumeInfo(node, volume)` is not empty, as written: it
      compares the lower-cased id of each drive's volume with `volume` as
      given, skipping drives that cannot be read. */
  predicate MappedAsWritten(cache: Cache, node: string, volume: string)
  {
    node in cache && exists d :: d in cache[node] && DriveVolume(cache, node, d) == Ok(volume)
  }

  /** The same test with the volume lower-cased too, as every other lookup
      of a volume does. */
  predicate Mapped(cache: Cache, node: string, volume: string)
  {
    node in cache && exists d :: d in cache[node] && DriveVolume(cache, node, d) == Ok(Lower(volume))
  }

  /** The entry `mapDrive` writes for a node's new drive. */
  function DriveText(volume: string): string
  {
    Join([volume, "device_placeholder", "node_placeholder"], " ")
  }

  /** The cache file after `__updateNodeVolume` maps drive `number` of
      `node` to `volume`. */
  function WithDrive(cache: Cache, node: string, number: nat, volume: string): (r: Cache)
    ensures node in r && Lower(NatToString(number)) in r[node]
  {
    SetOption(cache, node, NatToString(number), DriveText(volume))
  }

  /** The drive just written reads back as mapped to the volume. */
  lemma DriveOfWrite(cache: Cache, node: string, number: nat, volume: string)
    requires VolumeEntry(cache, volume).Ok?
    requires volume != "" && ' ' !in volume && node != VolumeSection
    ensures var r := WithDrive(cache, node, number, volume);
      DriveVolume(r, node, Lower(NatToString(number))) == Ok(Lower(volume))
  {
    var r := WithDrive(cache, node, number, volume);
    var d := Lower(NatToString(number));
    FieldsOfJoin([volume, "device_placeholder", "node_placeholder"]);
    assert Fields(r[node][d]) == [volume, "device_placeholder", "node_placeholder"];
    assert r[VolumeSection] == cache[VolumeSection];
    assert VolumeEntry(r, volume) == VolumeEntry(cache, volume);
  }

  /** Once a drive is mapped to an existing volume, the volume counts as
      mapped to the node, so a second `mapDrive` of it is refused. */
  lemma MappedAfterWrite(cache: Cache, node: string, number: nat, volume: string)
    requires VolumeEntry(cache, volume).Ok?
    requires volume != "" && ' ' !in volume && node != VolumeSection
    ensures Mapped(WithDrive(cache, node, number, volume), node, volume)
  {
    DriveOfWrite(cache, node, number, volume);
  }

  /** A volume mapped to a new node under an id with an upper-case letter
      is not found again by the as-written test, so `mapDrive` as written
      maps it a second time. */
  lemma UpperCaseMappingMissed(cache: Cache, node: string, number: nat, volume: string)
    requires VolumeEntry(cache, volume).Ok?
    requires volume != "" && ' ' !in volume && node != VolumeSection && node !in cache
    requires Lower(volume) != volume
    ensures !MappedAsWritten(WithDrive(cache, node, number, volume), node, volume)
    ensures Mapped(WithDrive(cache, node, number, volume), node, volume)
  {
    DriveOfWrite(cache, node, number, volume);
    var r := WithDrive(cache, node, number, volume);
    assert r[node].Keys == {Lower(NatToString(number))};
  }

  /** The cache file with drives `drives` of `node` unmapped, and the
      node's section dropped once it is empty. */
  function WithoutDrives(cache: Cache, node: string, drives: set<string>): (r: Cache)
    requires node in cache
    ensures node in r <==> cache[node].Keys - drives != {}
    ensures node in r ==> r[node] == cache[node] - drives
  {
    var rest := cache[node] - drives;
    assert rest.Keys == cache[node].Keys - drives;
    if rest == map[] then cache - {node}
    else
      assert rest.Keys != {} by {
        var o :| o in rest;
      }
      cache[node := rest]
  }

  /** Unmapping drives of a node changes no other section. */
  lemma WithoutDrivesKeeps(cache: Cache, node: string, drives: set<string>)
    requires node in cache
    ensures var r := WithoutDrives(cache, node, drives);
      forall s :: s != node ==> (s in r <==> s in cache) && (s in cache ==> r[s] == cache[s])
  {
  }

  lemma CanonicalKey(cache: Cache, s: string, o: string)
    requires Canonical(cache) && s in cache && o in cache[s]
    ensures Lower(o) == o
  {
  }

  /** Moving one drive from the ones to do to the ones done. */
  lemma MoveOne(rest: set<string>, done: set<string>, drives: set<string>, d: string)
    requires rest + done == drives && rest !! done && d in rest
    ensures (rest - {d}) + (done + {d}) == drives && (rest - {d}) !! (done + {d})
    ensures |rest - {d}| < |rest|
  {
  }

  lemma WithoutDrivesStep(cache: Cache, node: string, done: set<string>, d: string)
    requires node in cache && d in cache[node] && d !in done
    ensures node in WithoutDrives(cache, node, done)
    ensures WithoutDrives(WithoutDrives(cache, node, done), node, {d}) == WithoutDrives(cache, node, done + {d})
  {
    var once := WithoutDrives(cache, node, done);
    assert d in cache[node].Keys - done;
    assert once == cache[node := cache[node] - done];
    assert once[node] - {d} == cache[node] - (done + {d});
  }

  /** The drives of `node` mapped to the volume with id `id`. */
  function MatchingDrives(cache: Cache, node: string, id: string): (r: set<string>)
    requires forall d :: d in Options(cache, node) ==> DriveVolume(cache, node, d).Ok?
    ensures r <= Options(cache, node)
    ensures forall d :: d in r <==> d in Options(cache, node) && DriveVolume(cache, node, d) == Ok(id)
  {
    set d | d in Options(cache, node) && DriveVolume(cache, node, d) == Ok(id)
  }

  /** `mapDrive`'s search for the next open drive number: one more than
      the largest drive number in use, and at least 1; a drive name that is
      not an integer raises `ValueError`. */
  method NextDriveNumber(drives: set<string>) returns (r: Result<nat, Error>)
    ensures r.Err? <==> exists d :: d in drives && !DecimalText(d)
    ensures r.Err? ==> r.error == ValueError
    ensures r.Ok? ==> r.value >= 1 && forall d :: d in drives ==> DecimalText(d) && IntValue(d) < r.value
    ensures r.Ok? ==> (r.value == 1 || exists d :: d in drives && DecimalText(d) && IntValue(d) == r.value - 1)
  {
    var open: int := 1;
    var rest := drives;
    while rest != {}
      invariant rest <= drives
      invariant open >= 1
      invariant forall d :: d in drives - rest ==> DecimalText(d) && IntValue(d) < open
      invariant open == 1 || exists d :: d in drives - rest && DecimalText(d) && IntValue(d) == open - 1
      decreases |rest|
    {
      var d :| d in rest;
      if !DecimalText(d) {
        return Err(ValueError);
      }
      if open <= IntValue(d) {
        open := IntValue(d) + 1;
      }
      rest := rest - {d};
    }
    return Ok(open);
  }

  /** The SAN bookkeeping over the cache file's current contents. */
  class San {
    var cache: Cache

    constructor(contents: Cache)
      ensures cache == contents
    {
      cache := contents;
    }

    /** `__addTargetHostMapping`. */
    method AddTargetHostMapping(volume: string, targetHost: string, device: string, nodeName: string)
      modifies this
      ensures cache == WithMapping(old(cache), volume, targetHost, device, nodeName)
    {
      var (currentNodes, curDevice) := TargetHost(cache, volume, targetHost);
      var dev := device;
      if curDevice.Some? {
        dev := curDevice.value;
      }
      if nodeName !in currentNodes {
        currentNodes := currentNodes + [nodeName];
      }
      cache := SetOption(cache, volume, targetHost, Format(dev, currentNodes));
    }

    /** `__removeTargetHostMapping`. */
    method RemoveTargetHostMapping(volume: string, targetHost: string, nodeName: string)
      modifies this
      ensures cache == WithoutMapping(old(cache), volume, targetHost, nodeName)
    {
      var (currentNodes, device) := TargetHost(cache, volume, targetHost);
      if nodeName in currentNodes {
        currentNodes := RemoveFirst(currentNodes, nodeName);
      }
      if volume !in cache {
        cache := cache[volume := map[]];
      }
      if currentNodes == [] {
        cache := cache[volume := cache[volume] - {Lower(targetHost)}];
        if cache[volume] == map[] {
          cache := cache - {volume};
        }
      } else {
        cache := SetOption(cache, volume, targetHost, Format(device.value, currentNodes));
      }
    }

    /** `mapDrive` as written: the volume must exist (`getVolume`, which
        fails without a `volumes` section) and must not be mapped to the
        node yet, by the test that compares the stored lower-case id with
        the volume as given; it is mapped to the node's next open drive
        number, which is returned. */
    method MapDrive(node: string, volume: string) returns (r: Result<nat, Error>)
      modifies this
      ensures GetVolume(old(cache), volume).Fail? ==> r == Err(GetVolume(old(cache), volume).error)
      ensures GetVolume(old(cache), volume).Pass? && MappedAsWritten(old(cache), node, volume) ==>
        r == Err(VolumeAlreadyMapped("Volume [" + volume + "] is already mapped to " + node))
      ensures (GetVolume(old(cache), volume).Pass? && !MappedAsWritten(old(cache), node, volume) &&
        exists d :: d in Options(old(cache), node) && !DecimalText(d)) ==> r == Err(ValueError)
      ensures r.Err? ==> cache == old(cache)
      ensures r.Ok? ==> GetVolume(old(cache), volume).Pass? && !MappedAsWritten(old(cache), node, volume)
      ensures r.Ok? ==> cache == WithDrive(old(cache), node, r.value, volume)
      ensures r.Ok? ==> r.value >= 1 && forall d :: d in Options(old(cache), node) ==> DecimalText(d) && IntValue(d) < r.value
      ensures r.Ok? ==> (r.value == 1 || exists d :: d in Options(old(cache), node) && DecimalText(d) && IntValue(d) == r.value - 1)
      ensures r.Ok? && volume != "" && ' ' !in volume && node != VolumeSection ==> Mapped(cache, node, volume)
      ensures r.Ok? && volume != "" && ' ' !in volume && node != VolumeSection && Lower(volume) == volume ==>
        MappedAsWritten(cache, node, volume)
    {
      var found := GetVolume(cache, volume);
      if found.Fail? {
        return Err(found.error);
      }
      if MappedAsWritten(cache, node, volume) {
        return Err(VolumeAlreadyMapped("Volume [" + volume + "] is already mapped to " + node));
      }
      var open := NextDriveNumber(Options(cache, node));
      if open.Err? {
        return Err(open.error);
      }
      LowerTwice(volume);
      if volume != "" && ' ' !in volume && node != VolumeSection {
        MappedAfterWrite(cache, node, open.value, volume);
      }
      cache := WithDrive(cache, node, open.value, volume);
      return Ok(open.value);
    }

    /** `__removeVolumeMapping`: the node's section must exist; the drive's
        option goes, then the section if it is left empty. */
    method RemoveVolumeMapping(node: string, drive: string) returns (r: Outcome<Error>)
      modifies this
      ensures node !in old(cache) ==> r == Fail(NoSectionError(node)) && cache == old(cache)
      ensures node in old(cache) ==> r == Pass && cache == WithoutDrives(old(cache), node, {Lower(drive)})
    {
      if node !in cache {
        return Fail(NoSectionError(node));
      }
      cache := WithoutDrives(cache, node, {Lower(drive)});
      return Pass;
    }

    /** `unmapDrive`: with a volume, every drive of the node mapped to it is
        unmapped, and a volume mapped to none is refused after `getVolume`
        as written has looked it up; with only a drive number, that drive
        is unmapped. */
    method UnmapDrive(node: string, volume: Option<string>, driveNumber: Option<string>) returns (r: Outcome<Error>)
      requires Canonical(cache)
      modifies this
      ensures volume.None? && driveNumber.None? ==> r == Fail(InvalidArgument(NeitherGivenMessage)) && cache == old(cache)
      ensures Truthy(volume) && (exists d :: d in Options(old(cache), node) && DriveVolume(old(cache), node, d).Err?) ==>
        (r.Fail? && cache == old(cache) &&
         exists d :: d in Options(old(cache), node) && DriveVolume(old(cache), node, d) == Err(r.error))
      ensures (Truthy(volume) && (forall d :: d in Options(old(cache), node) ==> DriveVolume(old(cache), node, d).Ok?) &&
        MatchingDrives(old(cache), node, Lower(volume.value)) == {}) ==>
        (cache == old(cache) &&
         r == if GetVolume(old(cache), volume.value).Fail? then GetVolume(old(cache), volume.value)
              else Fail(VolumeNotMapped("Volume [" + volume.value + "] not mapped to " + node)))
      ensures (Truthy(volume) && (forall d :: d in Options(old(cache), node) ==> DriveVolume(old(cache), node, d).Ok?) &&
        MatchingDrives(old(cache), node, Lower(volume.value)) != {}) ==>
        r == Pass && cache == WithoutDrives(old(cache), node, MatchingDrives(old(cache), node, Lower(volume.value)))
      ensures !Truthy(volume) && (volume.Some? || driveNumber.Some?) && node !in old(cache) ==>
        r == Fail(NoSectionError(node)) && cache == old(cache)
      ensures !Truthy(volume) && (volume.Some? || driveNumber.Some?) && node in old(cache) ==>
        r == Pass && cache == WithoutDrives(old(cache), node, {Lower(if driveNumber.Some? then driveNumber.value else "None")})
    {
      if volume.None? && driveNumber.None? {
        return Fail(InvalidArgument(NeitherGivenMessage));
      }
      if !Truthy(volume) {
        r := RemoveVolumeMapping(node, if driveNumber.Some? then driveNumber.value else "None");
        return;
      }
      if exists d :: d in Options(cache, node) && DriveVolume(cache, node, d).Err? {
        var d :| d in Options(cache, node) && DriveVolume(cache, node, d).Err?;
        return Fail(DriveVolume(cache, node, d).error);
      }
      var drives := MatchingDrives(cache, node, Lower(volume.value));
      if drives == {} {
        var found := GetVolume(cache, volume.value);
        if found.Fail? {
          return found;
        }
        return Fail(VolumeNotMapped("Volume [" + volume.value + "] not mapped to " + node));
      }
      r := UnmapAll(node, drives);
    }

    /** The loop of `unmapDrive` over the drives to unmap. */
    method UnmapAll(node: string, drives: set<string>) returns (r: Outcome<Error>)
      requires Canonical(cache)
      requires node in cache && drives != {} && drives <= cache[node].Keys
      modifies this
      ensures r == Pass && cache == WithoutDrives(old(cache), node, drives)
    {
      ghost var start := cache;
      ghost var done: set<string> := {};
      var rest := drives;
      assert WithoutDrives(start, node, {}) == start by {
        var d0 :| d0 in drives;
        assert d0 in start[node].Keys - {};
        assert start[node] - {} == start[node];
      }
      while rest != {}
        invariant rest + done == drives && rest !! done
        invariant cache == WithoutDrives(start, node, done)
        decreases |rest|
      {
        var d :| d in rest;
        CanonicalKey(start, node, d);
        WithoutDrivesStep(start, node, done, d);
        var _ := RemoveVolumeMapping(node, d);
        MoveOne(rest, done, drives, d);
        done := done + {d};
        rest := rest - {d};
      }
      return Pass;
    }

    /** `updateVolume`: a volume still attached to a target host is
        refused; otherwise its entry is rewritten with the new flags. */
    method UpdateVolume(volume: string, newPersistent: bool, newShared: bool) returns (r: Outcome<Error>)
      modifies this
      ensures VolumeEntry(old(cache), volume).Err? ==> r == Fail(VolumeEntry(old(cache), volume).error)
      ensures VolumeEntry(old(cache), volume).Ok? && Options(old(cache), volume) != {} ==>
        r == Fail(VolumeStillAttached("Unable to update volume: Volume [" + volume + "] is still attached to " +
          NatToString(|Options(old(cache), volume)|) + " host(s)"))
      ensures r.Fail? ==> cache == old(cache)
      ensures r.Pass? ==> VolumeEntry(old(cache), volume).Ok? && Options(old(cache), volume) == {}
      ensures r.Pass? ==> cache == SetOption(old(cache), VolumeSection, volume,
        VolumeText(VolumeEntry(old(cache), volume).value.(persistent := newPersistent, shared := newShared)))
      ensures r.Pass? ==> (VolumeEntry(cache, volume) ==
        Ok(VolumeEntry(old(cache), volume).value.(persistent := newPersistent, shared := newShared)))
    {
      var volinfo := VolumeEntry(cache, volume);
      if volinfo.Err? {
        return Fail(volinfo.error);
      }
      var hosts := Options(cache, volume);
      if hosts != {} {
        return Fail(VolumeStillAttached("Unable to update volume: Volume [" + volume + "] is still attached to " +
          NatToString(|hosts|) + " host(s)"));
      }
      var updated := volinfo.value.(persistent := newPersistent, shared := newShared);
      cache := SetOption(cache, VolumeSection, volume, VolumeText(updated));
      VolumeTextRoundTrip(cache, volume, updated);
      return Pass;
    }

    /** `deleteVolume`: a persistent volume needs `force`, and a volume
        still attached to a target host is refused; otherwise the entry
        goes. The result names the storage adapter and its volume when a
        storage adapter other than `default` must delete the storage. */
    method DeleteVolume(volume: string, force: bool) returns (r: Result<Option<(string, string)>, Error>)
      modifies this
      ensures VolumeEntry(old(cache), volume).Err? ==> r == Err(VolumeEntry(old(cache), volume).error)
      ensures VolumeEntry(old(cache), volume).Ok? && VolumeEntry(old(cache), volume).value.persistent && !force ==>
        r == Err(DeletePersistentVolumeFailed(ForceRequiredMessage))
      ensures (VolumeEntry(old(cache), volume).Ok? && (!VolumeEntry(old(cache), volume).value.persistent || force) &&
        Options(old(cache), volume) != {}) ==>
        r == Err(VolumeStillAttached("Volume [" + volume + "] is still attached to " +
          NatToString(|Options(old(cache), volume)|) + " host(s)"))
      ensures r.Err? ==> cache == old(cache)
      ensures r.Ok? ==> (VolumeEntry(old(cache), volume).Ok? &&
        (!VolumeEntry(old(cache), volume).value.persistent || force) && Options(old(cache), volume) == {})
      ensures r.Ok? ==> cache == old(cache)[VolumeSection := old(cache)[VolumeSection] - {Lower(volume)}]
      ensures r.Ok? ==> VolumeEntry(cache, volume) == Err(VolumeDoesNotExist("Volume [" + volume + "] does not exist"))
      ensures r.Ok? ==> r.value == (var v := VolumeEntry(old(cache), volume).value;
        if v.storageAdapter != "default" then Some((v.storageAdapter, v.adapterVolume)) else None)
    {
      var volinfo := VolumeEntry(cache, volume);
      if volinfo.Err? {
        return Err(volinfo.error);
      }
      if volinfo.value.persistent && !force {
        return Err(DeletePersistentVolumeFailed(ForceRequiredMessage));
      }
      var hosts := Options(cache, volume);
      if hosts != {} {
        return Err(VolumeStillAttached("Volume [" + volume + "] is still attached to " +
          NatToString(|hosts|) + " host(s)"));
      }
      var storage := None;
      if volinfo.value.storageAdapter != "default" {
        storage := Some((volinfo.value.storageAdapter, volinfo.value.adapterVolume));
      }
      cache := cache[VolumeSection := cache[VolumeSection] - {Lower(volume)}];
      return Ok(storage);
    }
  }
}
