/** The add-host manager: it runs an add-host request through the hardware
    profile's resource adapter and the post-add hooks, and keeps one status
    per add-host session in an object store (messages the workflow reports,
    which a client reads from a given message on). */
module AddHostManager {
  import opened Wrappers

  datatype HardwareProfile = HardwareProfile(name: string, resourceAdapter: Option<string>)

  datatype SoftwareProfile = SoftwareProfile(name: string, isIdle: bool)

  /** The parts of an add-host request the manager reads; a request
      without `tags` has the empty dictionary. */
  datatype Request = Request(hardwareProfile: string, softwareProfile: Option<string>, addHostSession: string,
                             tags: map<string, string>)

  /** What the manager asks of others once the nodes exist: the request's
      tags set on a new node (`_set_tags`), a resource adapter hook over the
      new node names, and the post-add step (the kit post-add hooks and a
      cluster update) for the session. */
  datatype Action =
    | SetTags(node: string, tags: map<string, string>)
    | Hook(name: string, nodes: seq<string>)
    | PostAddHost(hardwareProfile: string, softwareProfile: Option<string>, addHostSession: string)

  /** A session's status: its other fields, the messages reported so far
      and the nodes. */
  datatype Status = Status(fields: map<string, string>, messages: seq<string>, nodes: seq<string>)

  datatype Error =
    | HardwareProfileNotFound(msg: string)
    | SoftwareProfileNotFound(msg: string)
    | ResourceAdapterNotFound(msg: string)
    | NotFound(msg: string)

  /** The status a new session starts with. */
  const CleanStatus := Status(map[], [], [])

  // ---------------------------------------------------------------------
  // addHosts
  // ---------------------------------------------------------------------

  /** The hardware profile and software profile of a request, as looked up:
      an unknown hardware profile, one without a resource adapter, or an
      unknown software profile named by a non-empty name is refused; a
      missing or empty software profile name looks nothing up. */
  function Profiles(request: Request, hardwareProfiles: map<string, HardwareProfile>,
                    softwareProfiles: map<string, SoftwareProfile>): (r: Result<(HardwareProfile, Option<SoftwareProfile>), Error>)
    ensures request.hardwareProfile !in hardwareProfiles ==>
      r == Err(HardwareProfileNotFound("Hardware profile [" + request.hardwareProfile + "] not found."))
    ensures request.hardwareProfile in hardwareProfiles && hardwareProfiles[request.hardwareProfile].resourceAdapter.None? ==>
      r == Err(ResourceAdapterNotFound("Resource adapter not defined for hardware profile [" + hardwareProfiles[request.hardwareProfile].name + "]"))
    ensures r.Ok? ==> (request.hardwareProfile in hardwareProfiles && r.value.0 == hardwareProfiles[request.hardwareProfile] &&
      r.value.0.resourceAdapter.Some?)
    ensures r.Ok? ==> (r.value.1.Some? <==> Truthy(request.softwareProfile))
    ensures r.Ok? && r.value.1.Some? ==> (request.softwareProfile.value in softwareProfiles &&
      r.value.1.value == softwareProfiles[request.softwareProfile.value])
    ensures r.Err? && request.hardwareProfile in hardwareProfiles && hardwareProfiles[request.hardwareProfile].resourceAdapter.Some? ==>
      Truthy(request.softwareProfile) && request.softwareProfile.value !in softwareProfiles
  {
    if request.hardwareProfile !in hardwareProfiles then
      Err(HardwareProfileNotFound("Hardware profile [" + request.hardwareProfile + "] not found."))
    else
      var hw := hardwareProfiles[request.hardwareProfile];
      if hw.resourceAdapter.None? then
        Err(ResourceAdapterNotFound("Resource adapter not defined for hardware profile [" + hw.name + "]"))
      else if !Truthy(request.softwareProfile) then Ok((hw, None))
      else if request.softwareProfile.value !in softwareProfiles then
        Err(SoftwareProfileNotFound("Software profile [" + request.softwareProfile.value + "] not found"))
      else Ok((hw, Some(softwareProfiles[request.softwareProfile.value])))
  }

  /** The actions after the resource adapter has created `newNodes` (their
      names, in order): only when nodes were added to a software profile
      that is not idle, the `add` hook, the post-add step and the `start`
      hook, in that order, each over all the new nodes. */
  function PostAddActions(request: Request, hw: HardwareProfile, sw: Option<SoftwareProfile>, newNodes: seq<string>): (r: seq<Action>)
    ensures r != [] <==> newNodes != [] && sw.Some? && !sw.value.isIdle
    ensures r != [] ==> (|r| == 3 &&
      r[0] == Hook("add", newNodes) &&
      r[1] == PostAddHost(hw.name, request.softwareProfile, request.addHostSession) &&
      r[2] == Hook("start", newNodes))
  {
    if newNodes != [] && sw.Some? && !sw.value.isIdle then
      [Hook("add", newNodes), PostAddHost(hw.name, request.softwareProfile, request.addHostSession), Hook("start", newNodes)]
    else []
  }

  /** The tags of a non-empty tag dictionary set on each new node, in order. */
  function TagActions(newNodes: seq<string>, tags: map<string, string>): (r: seq<Action>)
    ensures |r| == (if tags == map[] then 0 else |newNodes|)
    ensures forall i :: 0 <= i < |r| ==> r[i] == SetTags(newNodes[i], tags)
  {
    if tags == map[] then [] else seq(|newNodes|, i requires 0 <= i < |newNodes| => SetTags(newNodes[i], tags))
  }

  /** `addHosts`, with the nodes the resource adapter's `start` creates
      given as `started` (a function of the hardware and software profile):
      a failed look-up is the error; otherwise the new nodes get the
      request's tags, then the post-add actions run. */
  function AddHosts(request: Request, hardwareProfiles: map<string, HardwareProfile>,
                    softwareProfiles: map<string, SoftwareProfile>,
                    started: (HardwareProfile, Option<SoftwareProfile>) -> seq<string>): (r: Result<seq<Action>, Error>)
    ensures var profiles := Profiles(request, hardwareProfiles, softwareProfiles);
      (profiles.Err? ==> r == Err(profiles.error)) &&
      (profiles.Ok? ==>
         r.Ok? &&
         var nodes := started(profiles.value.0, profiles.value.1);
         var k := if request.tags == map[] then 0 else |nodes|;
         k <= |r.value| &&
         (forall i :: 0 <= i < k ==> r.value[i] == SetTags(nodes[i], request.tags)) &&
         (forall i :: k <= i < |r.value| ==> !r.value[i].SetTags?) &&
         r.value[k..] == PostAddActions(request, profiles.value.0, profiles.value.1, nodes))
  {
    var profiles := Profiles(request, hardwareProfiles, softwareProfiles);
    if profiles.Err? then Err(profiles.error)
    else
      var (hw, sw) := profiles.value;
      var nodes := started(hw, sw);
      Ok(TagActions(nodes, request.tags) + PostAddActions(request, hw, sw, nodes))
  }

  /** No hook runs for a hardware profile without a resource adapter, and
      none runs without a software profile: the hooks need nodes added to
      a software profile that is in use. */
  lemma {:induction false} HooksNeedProfiles(request: Request, hardwareProfiles: map<string, HardwareProfile>,
                           softwareProfiles: map<string, SoftwareProfile>,
                           started: (HardwareProfile, Option<SoftwareProfile>) -> seq<string>)
    requires AddHosts(request, hardwareProfiles, softwareProfiles, started).Ok?
    ensures var actions := AddHosts(request, hardwareProfiles, softwareProfiles, started).value;
      (exists i :: 0 <= i < |actions| && actions[i].Hook?) ==>
        Truthy(request.softwareProfile) && !softwareProfiles[request.softwareProfile.value].isIdle
    ensures hardwareProfiles[request.hardwareProfile].resourceAdapter.Some?
  {
    var profiles := Profiles(request, hardwareProfiles, softwareProfiles);
    var (hw, sw) := profiles.value;
    var nodes := started(hw, sw);
    var tagged := TagActions(nodes, request.tags);
    var actions := AddHosts(request, hardwareProfiles, softwareProfiles, started).value;
    assert actions == tagged + PostAddActions(request, hw, sw, nodes);
    forall i | 0 <= i < |actions| && actions[i].Hook?
      ensures PostAddActions(request, hw, sw, nodes) != []
    {
      assert i >= |tagged|;
    }
  }

  // ---------------------------------------------------------------------
  // Sessions
  // ---------------------------------------------------------------------

  /** Where Python's `s[start:]` begins in a list of `n` items: a negative
      start counts from the end, and both ends are clamped. */
  function SliceStart(n: nat, start: int): (r: nat)
    ensures r <= n
    ensures 0 <= start <= n ==> r == start
    ensures start > n ==> r == n
    ensures start < 0 && n + start >= 0 ==> r == n + start
    ensures n + start < 0 ==> r == 0
  {
    if start < 0 then (if n + start < 0 then 0 else n + start)
    else if start > n then n
    else start
  }

  /** A status with the message reported. */
  function WithMessage(status: Status, msg: string): (r: Status)
    ensures r.messages == status.messages + [msg] && r.fields == status.fields && r.nodes == status.nodes
  {
    status.(messages := status.messages + [msg])
  }

  /** The sessions, by session id, as the object store holds their status. */
  class SessionStore {
    var sessions: map<string, Status>

    constructor()
      ensures sessions == map[]
    {
      sessions := map[];
    }

    /** `createNewSession`, with the fresh id (a random UUID) given: the
        session starts with a clean status. */
    method CreateNewSession(uuid: string) returns (id: string)
      modifies this
      ensures id == uuid
      ensures sessions == old(sessions)[id := CleanStatus]
    {
      id := uuid;
      sessions := sessions[id := CleanStatus];
    }

    /** `getStatus`: an unknown session raises `NotFound`; otherwise a copy
        of its status with the messages from `startMessage` on and, when
        asked for, the session's nodes (given as `dbNodes`). */
    function GetStatus(id: string, startMessage: int, getNodes: bool, dbNodes: seq<string>): (r: Result<Status, Error>)
      reads this
      ensures id !in sessions <==> r.Err?
      ensures r.Err? ==> r.error == NotFound("Invalid add host session ID [" + id + "]")
      ensures r.Ok? ==> r.value.fields == sessions[id].fields
      ensures r.Ok? ==> r.value.messages == sessions[id].messages[SliceStart(|sessions[id].messages|, startMessage)..]
      ensures r.Ok? && 0 <= startMessage <= |sessions[id].messages| ==>
        sessions[id].messages == sessions[id].messages[..startMessage] + r.value.messages
      ensures r.Ok? ==> r.value.nodes == if getNodes then dbNodes else []
    {
      if id !in sessions then Err(NotFound("Invalid add host session ID [" + id + "]"))
      else
        var status := sessions[id];
        var messages := status.messages[SliceStart(|status.messages|, startMessage)..];
        assert 0 <= startMessage <= |status.messages| ==> status.messages == status.messages[..startMessage] + messages;
        Ok(Status(status.fields, messages, if getNodes then dbNodes else []))
    }

    /** `updateStatus` as written: an unknown session is ignored with a
        warning; for a known one the message is appended to a status rebuilt
        from the store, which is never written back, so the store does not
        change either way. */
    method UpdateStatus(id: string, msg: string)
      modifies this
      ensures sessions == old(sessions)
    {
      if id !in sessions {
        return;
      }
      var status := WithMessage(sessions[id], msg);
    }

    /** `updateStatus` as evidently meant: the message is appended to the
        session's stored status; an unknown session is still ignored. */
    method UpdateStatusStored(id: string, msg: string)
      modifies this
      ensures id !in old(sessions) ==> sessions == old(sessions)
      ensures id in old(sessions) ==> sessions == old(sessions)[id := WithMessage(old(sessions)[id], msg)]
    {
      if id !in sessions {
        return;
      }
      sessions := sessions[id := WithMessage(sessions[id], msg)];
    }

    /** `delete_sessions`: each id that exists is deleted; the others are
        skipped. */
    method DeleteSessions(ids: seq<string>)
      modifies this
      ensures sessions == map id | id in old(sessions) && id !in ids :: old(sessions)[id]
      ensures forall id :: id in ids ==> id !in sessions
      ensures forall id :: id in old(sessions) && id !in ids ==> id in sessions && sessions[id] == old(sessions)[id]
    {
      var i := 0;
      while i < |ids|
        invariant 0 <= i <= |ids|
        invariant sessions == map id | id in old(sessions) && id !in ids[..i] :: old(sessions)[id]
      {
        assert forall id :: id in ids[..i + 1] <==> id in ids[..i] || id == ids[i] by {
          assert ids[..i + 1] == ids[..i] + [ids[i]];
        }
        if ids[i] in sessions {
          sessions := sessions - {ids[i]};
        }
        i := i + 1;
      }
      assert ids[..i] == ids;
    }
  }

  /** With `updateStatus` as written, a message reported on a new session
      never reaches its status. */
  method ReportedMessageIsLost(uuid: string, msg: string) returns (got: Result<Status, Error>)
    ensures got == Ok(CleanStatus)
  {
    var store := new SessionStore();
    var id := store.CreateNewSession(uuid);
    store.UpdateStatus(id, msg);
    assert store.sessions == map[uuid := CleanStatus];
    got := store.GetStatus(id, 0, false, []);
  }

  /** With the corrected `updateStatus`, the message is read back. */
  method ReportedMessageIsRead(uuid: string, msg: string) returns (got: Result<Status, Error>)
    ensures got == Ok(Status(map[], [msg], []))
  {
    var status := Status(map[], [msg], []);
    assert WithMessage(CleanStatus, msg) == status by {
      assert CleanStatus.messages + [msg] == [msg];
    }
    assert status.messages[SliceStart(1, 0)..] == [msg];
    var store := new SessionStore();
    var id := store.CreateNewSession(uuid);
    store.UpdateStatusStored(id, msg);
    assert store.sessions == map[uuid := status];
    got := store.GetStatus(id, 0, false, []);
    assert got.Ok? && got.value.fields == map[] && got.value.nodes == [];
    assert got.value.messages == [msg];
  }
}
