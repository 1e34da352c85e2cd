# tortuga cluster provisioning: a Dafny model of its decision logic

Tortuga provisions and manages cluster nodes. An installer node keeps the
cluster's nodes, hardware profiles and software profiles in a database. It
adds nodes through resource adapters and runs kit hooks when nodes come and
go. This project models the rules that decide what those operations do, and
proves what the code promises about them:

- **Node lifecycle** (`NodeManager`, `node_manager.dfy`):
  - the host-name policy for imported nodes;
  - the lock and minimum-count checks made before a delete;
  - status updates with their change bitfield, and node updates;
  - the delete: grouping nodes by hardware profile, one resource adapter call per group, and removing tags that no longer have an owner.
- **Adding hosts** (`AddHostServer`, `AddHostManager`):
  - `#R`/`#N` host-name templates and the first-free-slot name search;
  - IPv4 allocation by start address, increment and broadcast address;
  - MAC normalisation and the duplicate check;
  - the NIC boot flag;
  - the add-host request's hooks, and the per-session status store.
- **Kits** (`KitActions`, `KitRegistry`, `KitObject`, `KitUtils`):
  - registering kits once per spec;
  - putting the base kit first or last;
  - filtering enabled components;
  - node lists for delete hooks;
  - kit names, descriptors and URLs.
- **Data updates**:
  - reconciling an instance's tags with a dictionary (`TagsMixin`);
  - merging resource adapter settings (`ResourceAdapterConfig`);
  - software profile and partition validation (`SoftwareProfileDb`);
  - the SAN volume, drive and target-host tables (`SanStorage`).
- **Parsers and encoders**:
  - nodespec expansion and name matching (`NodesDb`);
  - object store filters and listing (`ObjectStore`);
  - the Redis value encoding (`RedisStore`);
  - device-name fixing (`NetworkUtil`);
  - mount error bits (`MountManager`);
  - classful netmasks (`RhelNetwork`).

Each Python source file that does work step by step is modelled
imperatively: a class whose fields the methods update (`NodeStore`,
`SessionStore`, `AddHostServer`, `Registry`, `RedisObjectStore`,
`ConfigurationManager`, `SoftwareProfileModel`, `San`, `Tagged`), and
methods with loops where the source loops.

Each such method is proved against a specification function. The
properties the code promises are then proved about that function as
lemmas. Pure helpers are functions.

Exceptions become the error half of a `Result` or `Outcome`
(`wrappers.dfy`). A transaction rolled back on error leaves the state
unchanged. Calls into code outside the core (resource adapters, kit
installers, the event bus, the JSON codec, the configuration validator)
are either parameters or returned as requests. `strings.dfy` holds the
Python string operations the model needs.

Where verification showed that the code does not do what it evidently
means to do, the model holds both the code as written and the corrected
behaviour, with the intended property proved about the corrected one.
Each such case has a row under "Findings".

A method that models a source operation follows the code as written. This
covers the hard-locked message of the delete check, the kit hooks when
there is no base kit, the provisioning address walk, `MapDrive`,
`UnmapDrive`, `ListSorted`, `Set`, `Delete` and `UpdateStatus`. The
corrected definitions are proved beside them. Among them are `Allocation`,
`Reordered`, `HardLockedMessage`, `SetReplacing`, `DeleteUnindexed` and
`UpdateStatusStored`.

Three members follow the corrected behaviour instead, and each has a line
under "Left out":
- `NodeStore.UpdateNodeStatus` fires its event only on a real state change.
- The delete check lets nodes without a software profile pass.
- `GenerateNodeName` reports an error where the code loops for ever.

## Model

Specification functions without a contract of their own appear through
the lemmas about them, in the rows below. Each pairing is listed here:
- `Allocation` and `AllocationAsWritten`: `AllocationFirstFree`, `AllocationAsWrittenFirstFree`, `AllocationAgreesInside` and `AllocationLeavesNetwork`.
- `Reordered`: `ReorderedPermutation` and `ReorderedMovesBase`.
- `FreeName` and `SlotSearchAsWritten`: `FreeNameSearch`, `HostNameNotTaken`, `SlotSearchNeverEnds` and `SlotSearchAgrees`.
- `RemoveNamespace` and `StripNamespace`: the `...UndoesKeyName` lemmas.
- `DeleteCheck`: `DeleteCheckPassIff`.
- `HardLockedMessage`: `HardLockedMessageNamesProfile`.
- `Mapped` and `MappedAsWritten`: `MappedAfterWrite` and `UpperCaseMappingMissed`.
- `AssembleKitUrl`: `AssembleKitUrlIdempotent`.
- `Repr`: `ReprIsDirName`.

| member | source | states |
|---|---|---|
| AddHostManager.Profiles | src/installer/src/tortuga/addhost/addHostManager.py:62-80 | an unknown hardware profile fails with HardwareProfileNotFound, one without a resource adapter with ResourceAdapterNotFound and its message; a software profile is looked up exactly when the request names one (truthy name), and success returns the profiles found under those names |
| AddHostManager.PostAddActions | src/installer/src/tortuga/addhost/addHostManager.py:106-124 | post-add work happens exactly when nodes were created for a non-idle software profile, and is then the 'add' hook, postAddHost, and the 'start' hook, in that order, with the new node names |
| AddHostManager.AddHosts | src/installer/src/tortuga/addhost/addHostManager.py:53-124 | a failed profile look-up is the error; otherwise, when the request has tags, every new node gets them in order, and then come exactly the post-add actions |
| AddHostManager.HooksNeedProfiles | src/installer/src/tortuga/addhost/addHostManager.py:53-124 | a successful addHosts runs a resource adapter hook only for a truthy, existing, non-idle software profile, and only on a hardware profile with a resource adapter |
| AddHostManager.SliceStart | src/installer/src/tortuga/addhost/addHostManager.py:199 | Python's `[startMessage:]` start: a negative start counts from the end, and both ends are clamped to the list |
| AddHostManager.SessionStore.CreateNewSession | src/installer/src/tortuga/addhost/addHostManager.py:208-220 | the new session id is stored with a clean status and returned; other sessions are unchanged |
| AddHostManager.SessionStore.GetStatus | src/installer/src/tortuga/addhost/addHostManager.py:175-206 | NotFound with the session id exactly for an unknown session; otherwise the stored fields, the messages from `startMessage` on (a suffix of the stored list), and the nodes only when asked for |
| AddHostManager.SessionStore.UpdateStatus | src/installer/src/tortuga/addhost/addHostManager.py:157-173 | as written: the store is unchanged whether or not the session exists (the message goes to a copy) |
| AddHostManager.SessionStore.UpdateStatusStored | src/installer/src/tortuga/addhost/addHostManager.py:157-173 | as evidently intended: an unknown session is ignored; a known one gets the message appended and nothing else changes |
| AddHostManager.SessionStore.DeleteSessions | src/installer/src/tortuga/addhost/addHostManager.py:225-239 | each listed session that exists is removed, unknown ids are skipped, and the other sessions keep their status |
| AddHostManager.ReportedMessageIsLost | src/installer/src/tortuga/addhost/addHostManager.py:157-173 | a message reported on a new session with updateStatus as written is never read back: getStatus still returns the clean status |
| AddHostManager.ReportedMessageIsRead | src/installer/src/tortuga/addhost/addHostManager.py:157-173 | with the corrected updateStatus, getStatus from message 0 returns exactly the reported message |
| AddHostServer.SubstituteHashSpecifier | src/installer/src/tortuga/addhost/addHostServerLocal.py:216-279 | the loop that scans the run of specifier letters computes `Substituted`, the value the lemmas below characterise |
| AddHostServer.SubstituteRejects | src/installer/src/tortuga/addhost/addHostServerLocal.py:230-238 | a specifier other than `#R`/`#N`, a text other than `_`, or a value that is neither an integer nor a text raises InvalidArgument for every string |
| AddHostServer.SubstituteAbsent | src/installer/src/tortuga/addhost/addHostServerLocal.py:242-244 | with valid arguments, a string that does not contain the specifier comes back unchanged |
| AddHostServer.SubstitutedRun | src/installer/src/tortuga/addhost/addHostServerLocal.py:250-259 | the width is the length of the maximal run of the specifier's letter after the first `#`: every letter in it matches and the next character does not |
| AddHostServer.SubstituteNumber | src/installer/src/tortuga/addhost/addHostServerLocal.py:261-277 | a number below 10^width becomes exactly `width` decimal digits that read back as that number, and the text before and after the run is kept |
| AddHostServer.SubstituteUnderscore | src/installer/src/tortuga/addhost/addHostServerLocal.py:272-277 | `_` puts one underscore per letter of the run, and the text before and after is kept |
| AddHostServer.SubstituteTooLarge | src/installer/src/tortuga/addhost/addHostServerLocal.py:261-262 | a number of 10^width or more raises 'Unable to generate unique host name' |
| AddHostServer.GetHostName | src/installer/src/tortuga/addhost/addHostServerLocal.py:507-509 | the result is a dot-free prefix of the name, followed in the name by a '.' when it is shorter |
| AddHostServer.GetHostNameOfQualified | src/installer/src/tortuga/addhost/addHostServerLocal.py:507-509 | the host name of `host.zone` is `host` |
| AddHostServer.StripRandomSuffixRoundTrip | src/installer/src/tortuga/addhost/addHostServerLocal.py:498-500 | stripping undoes appending '-' and a five-letter suffix (lines 203-206) |
| AddHostServer.Taken | src/installer/src/tortuga/addhost/addHostServerLocal.py:167-194 | the names in use are the database names (host part, random suffix stripped when randomizing) followed by the session's names, position by position |
| AddHostServer.SlotFits | src/installer/src/tortuga/addhost/addHostServerLocal.py:196-198 | a slot whose name can be generated is below 10^width (lines 261-262) |
| AddHostServer.FirstFreeSlotFound | src/installer/src/tortuga/addhost/addHostServerLocal.py:196-201 | a name found is free, and every earlier slot gave a name already in use |
| AddHostServer.FirstFreeSlotExhausted | src/installer/src/tortuga/addhost/addHostServerLocal.py:196-201 | a search that fails raises 'Unable to generate unique host name', and every slot of the template's width was in use |
| AddHostServer.FreeNameSearch | src/installer/src/tortuga/addhost/addHostServerLocal.py:196-201 | the slot loop computes the corrected search `FreeName`, which stops when the template has no `#N` |
| AddHostServer.HostNameNotTaken | src/installer/src/tortuga/addhost/addHostServerLocal.py:162-201 | a generated host name is never one already in use |
| AddHostServer.HostNameSmallestSlot | src/installer/src/tortuga/addhost/addHostServerLocal.py:196-201 | with `#N` in the template, the name is that of the smallest free slot counting from 1 |
| AddHostServer.NextNameDiffers | src/installer/src/tortuga/addhost/addHostServerLocal.py:188-210 | once the name is recorded in the session, the next request with the same database names cannot return it again |
| AddHostServer.SlotSearchNeverEnds | src/installer/src/tortuga/addhost/addHostServerLocal.py:196-201 | as written: when the template has no `#N` and its name is in use, the loop never finishes, for any number of iterations |
| AddHostServer.SlotSearchAgrees | src/installer/src/tortuga/addhost/addHostServerLocal.py:196-201 | with `#N` in the template, the loop as written ends with the corrected search's answer |
| AddHostServer.CandidateClosedForm | src/installer/src/tortuga/addhost/addHostServerLocal.py:477-482 | the k-th address tried is `start + k * increment` |
| AddHostServer.ProbeFound | src/installer/src/tortuga/addhost/addHostServerLocal.py:477-484 | an address the probe returns is unused, and every address tried before it was in use |
| AddHostServer.ProbeFirst | src/installer/src/tortuga/addhost/addHostServerLocal.py:477-484 | conversely, the first unused address within the step bound is the one returned |
| AddHostServer.AllocationDhcp | src/installer/src/tortuga/addhost/addHostServerLocal.py:445-448 | no network, or one using an external DHCP server, gets no address |
| AddHostServer.AllocationFirstFree | src/installer/src/tortuga/addhost/addHostServerLocal.py:450-489 | an address handed out is unused, inside the network and below its broadcast address, and is the first unused one on the `start + k * increment` walk |
| AddHostServer.AllocationFresh | src/installer/src/tortuga/addhost/addHostServerLocal.py:489 | an address that was handed out and reserved is not handed out again |
| AddHostServer.AllocationAsWrittenFirstFree | src/installer/src/tortuga/addhost/addHostServerLocal.py:450-489 | as written: an address handed out is unused, is not the broadcast address, and is the first unused one on the `start + k * increment` walk |
| AddHostServer.AllocationAgreesInside | src/installer/src/tortuga/addhost/addHostServerLocal.py:477-489 | whatever the corrected allocation returns, the code returns too; an address the code hands out inside the network is the corrected one |
| AddHostServer.AllocationAsWrittenFresh | src/installer/src/tortuga/addhost/addHostServerLocal.py:489 | as written: an address that was handed out and reserved is not handed out again |
| AddHostServer.AllocationLeavesNetwork | src/installer/src/tortuga/addhost/addHostServerLocal.py:477-489 | as written, 10.0.0.0/30 with increment 3 and 10.0.0.1 in use hands out 10.0.0.4, an address outside the network; the corrected allocation reports the address space exhausted |
| AddHostServer.NormalizedMacDashes | src/installer/src/tortuga/addhost/addHostServerLocal.py:385-386 | a dashed address becomes the same text with colons for dashes, in lower case |
| AddHostServer.BareMacMatches | src/installer/src/tortuga/addhost/addHostServerLocal.py:379-383 | twelve hex digits without separators match the address pattern |
| AddHostServer.NormalizedMacPairs | src/installer/src/tortuga/addhost/addHostServerLocal.py:379-394 | twelve hex digits are accepted and become 17 characters that split on ':' into exactly their six pairs |
| AddHostServer.NormalizedMacIdempotent | src/installer/src/tortuga/addhost/addHostServerLocal.py:385-394 | normalising an address twice gives the same text as normalising it once |
| AddHostServer.ValidateMacAddress | src/installer/src/tortuga/addhost/addHostServerLocal.py:363-413 | InvalidMacAddress exactly for an empty or malformed address; MacAddressAlreadyExists exactly when the normalised address is already on a NIC of the same network; otherwise the normalised address |
| AddHostServer.NicBoot | src/installer/src/tortuga/addhost/addHostServerLocal.py:342-354 | the boot flag is set exactly when the NIC has an address on a provisioning network |
| AddHostServer.AddHostServer.GenerateNodeName | src/installer/src/tortuga/addhost/addHostServerLocal.py:151-214 | a generated name (with its random suffix) is appended to the session's names and returned with the DNS zone; on an error the session is unchanged; addresses are untouched |
| AddHostServer.AddHostServer.GenerateProvisioningIpAddress | src/installer/src/tortuga/addhost/addHostServerLocal.py:439-495 | as written: the result is the code's allocation over the NICs' and the reserved addresses. Only the broadcast address stops a walk that has left the network. An address handed out is reserved |
| KitActions.RemoveFirstMultiset | src/installer/src/tortuga/kit/actions/manager.py:229-230 | `list.remove` takes exactly one copy of the base kit out of the list |
| KitActions.LastBaseIndex | src/installer/src/tortuga/kit/actions/manager.py:225-228 | the scan keeps the last kit named 'base', and finds none exactly when no kit has that name |
| KitActions.ReorderedPermutation | src/installer/src/tortuga/kit/actions/manager.py:217-236 | reordering for 'first', 'last' or any other order is a permutation of the registered kits, whatever the registry holds |
| KitActions.ReorderedMovesBase | src/installer/src/tortuga/kit/actions/manager.py:224-234 | with 'first' the base kit is moved to the front and with 'last' to the back; the other kits keep their order |
| KitActions.ReorderedWithoutBase | src/installer/src/tortuga/kit/actions/manager.py:224-236 | in the corrected model, a registry without a base kit is returned unchanged |
| KitActions.LoadKits | src/installer/src/tortuga/kit/actions/manager.py:217-236 | as written: the loop yields the code's list, with `None` where the base kit goes when there is none; with a base kit, or for order 'any', that list is the reordering |
| KitActions.FindBase | src/installer/src/tortuga/kit/actions/manager.py:225-228 | the scan yields the last kit named 'base', and none exactly when no kit has that name |
| KitActions.LoadKitsAsWritten | src/installer/src/tortuga/kit/actions/manager.py:224-234 | as written: with 'first' or 'last' and no base kit, one extra entry (`None`) is added to the list |
| KitActions.LoadKitsAsWrittenWithBase | src/installer/src/tortuga/kit/actions/manager.py:224-236 | when a base kit exists, or the order is 'any', the code as written and the corrected model agree |
| KitActions.AllComponentsAsWritten | src/installer/src/tortuga/kit/actions/manager.py:180-187 | as written: collecting components fails exactly when the loaded list contains `None` (calling `None()` raises TypeError) |
| KitActions.LoadKitsWithoutBaseFails | src/installer/src/tortuga/kit/actions/manager.py:180-187 | as written: with no base kit and 'first' or 'last', collecting components always fails |
| KitActions.FlattenMembership | src/installer/src/tortuga/kit/actions/manager.py:180-187 | a component is collected exactly when one of the kits provides it |
| KitActions.AllComponentInstallers | src/installer/src/tortuga/kit/actions/manager.py:180-187 | as written: TypeError exactly when there is no base kit and the order is 'first' or 'last'; otherwise the components of the reordered kits, kit by kit |
| KitActions.CollectComponents | src/installer/src/tortuga/kit/actions/manager.py:180-187 | the loop gives exactly the code's collection, failing at the `None` entry |
| KitActions.AllComponentsOfSomes | src/installer/src/tortuga/kit/actions/manager.py:180-187 | over a list without `None`, collecting succeeds with every kit's components in order |
| KitActions.EnabledCount | src/installer/src/tortuga/kit/actions/manager.py:189-201 | each component keeps all its copies when its name is enabled and none otherwise, so order and duplicates are as in the input |
| KitActions.EnabledMembership | src/installer/src/tortuga/kit/actions/manager.py:189-201 | a component is kept exactly when it is in the list and its name is among the enabled names |
| KitActions.EnabledComponents | src/installer/src/tortuga/kit/actions/manager.py:189-201 | the nested loop (with its `break`) keeps exactly the enabled components, in order |
| KitActions.Calls | src/installer/src/tortuga/kit/actions/manager.py:203-215 | one `run_action` call per component, in order, each with the same action, profiles and nodes |
| KitActions.RunActionWithNodeList | src/installer/src/tortuga/kit/actions/manager.py:203-215 | the loop issues exactly those calls |
| KitActions.HookBaseOrder | src/installer/src/tortuga/kit/actions/manager.py:91-98 | the base kit's enabled components run first for post_add_host and last for the delete actions (lines 144-145) |
| KitActions.PostAddHost | src/installer/src/tortuga/kit/actions/manager.py:77-98 | with no base kit: TypeError, as `None()` raises; otherwise 'add_host' is run, base kit first, on the enabled components with the profiles and the node list |
| KitActions.DeletedNamesMembership | src/installer/src/tortuga/kit/actions/manager.py:156-160 | the deleted nodes are exactly those in state 'Deleted', restricted to the software profile when one is given |
| KitActions.DeleteNodeArg | src/installer/src/tortuga/kit/actions/manager.py:163-168 | with a `nodes` argument, the union of those names and the deleted nodes' names; without one, the deleted nodes |
| KitActions.DeleteHostAction | src/installer/src/tortuga/kit/actions/manager.py:134-178 | with no base kit: TypeError, as `None()` raises; otherwise the action is run, base kit last, on the enabled components with the aggregated nodes |
| KitObject.DbVersion | src/core/src/tortuga/objects/kit.py:164-175 | a database version exists exactly when the kit has a (truthy) version, and it starts with that version |
| KitObject.DbVersionParts | src/core/src/tortuga/objects/kit.py:164-175 | for dash-free parts, the database version splits on '-' back into the version and, when there is one, the iteration |
| KitObject.TarBallOfDir | src/core/src/tortuga/objects/kit.py:102-108 | the tarball name is the directory name followed by '.tar.bz2' |
| KitObject.KitRepoDirParts | src/core/src/tortuga/objects/kit.py:154-156 | the repository directory splits on '/' into name, database version and 'noarch' |
| KitObject.ReprIsDirName | src/core/src/tortuga/objects/kit.py:231-240 | with a version, the text form is the directory name (lines 106-108) without its 'kit-' prefix; without a version, it is the bare name |
| KitRegistry.Find | src/installer/src/tortuga/kit/registry.py:86 | a lookup succeeds exactly for a registered spec, and returns an installer registered under that spec |
| KitRegistry.InsertedDistinct | src/installer/src/tortuga/kit/registry.py:64-73 | registration keeps the specs distinct (the registry is a dictionary keyed by spec) |
| KitRegistry.RegisterThenFind | src/installer/src/tortuga/kit/registry.py:64-73 | after registering, the spec is found; a spec already taken keeps its first installer; other specs are unaffected |
| KitRegistry.RegisterIdempotent | src/installer/src/tortuga/kit/registry.py:71-72 | registering the same installer twice is the same as once |
| KitRegistry.NotFoundMessageShowsSpec | src/installer/src/tortuga/kit/registry.py:88-89 | the KitNotFound message shows the spec as 'name-version-iteration' |
| KitRegistry.Registry.Register | src/installer/src/tortuga/kit/registry.py:64-73 | the registry becomes the insertion of the installer and the spec is then found; a registered spec leaves the registry unchanged |
| KitRegistry.Registry.Get | src/installer/src/tortuga/kit/registry.py:77-91 | success exactly for a registered spec, with an installer of that spec; otherwise KitNotFound with the spec's message |
| KitRegistry.Registry.GetAll | src/installer/src/tortuga/kit/registry.py:94-101 | every registered installer, and a spec is among them exactly when `Get` finds it |
| KitUtils.KitDescriptorExtends | src/installer/src/tortuga/kit/utils.py:286-301 | a kit descriptor is the component descriptor of its name and version followed by '-iteration' |
| KitUtils.KitDescriptorIsRepr | src/installer/src/tortuga/kit/utils.py:286-292 | the kit descriptor is the text form of the kit with that name, version and iteration (kit.py lines 231-240) |
| KitUtils.KitDescriptorParts | src/installer/src/tortuga/kit/utils.py:286-292 | for dash-free parts, the descriptor splits on '-' into name, version and iteration |
| KitUtils.Basename | src/installer/src/tortuga/kit/utils.py:115 | `os.path.basename`: the slash-free tail of the path, preceded by a '/' when it is shorter than the path |
| KitUtils.BasenameOfJoin | src/installer/src/tortuga/kit/utils.py:115-116 | the base name of 'dir/name' is the name |
| KitUtils.AssembleKitUrlIdempotent | src/installer/src/tortuga/kit/utils.py:110-118 | the assembled URL extends the given one, keeps a URL that already names the file, always ends in the file name, and assembling it again changes nothing |
| KitUtils.AssembleKeepsScheme | src/installer/src/tortuga/kit/utils.py:143-145 | a URL with a supported scheme keeps it after assembly |
| MountManager.MessagesDistinct | src/installer/src/tortuga/kit/mountManager.py:141-150 | the seven messages of the exit-status table are different texts |
| MountManager.HandleMountError | src/installer/src/tortuga/kit/mountManager.py:152-158 | the loop over the table's keys 1, 2, 4, …, 64 collects the message of every bit set in the status, in table order |
| MountManager.MessageCount | src/installer/src/tortuga/kit/mountManager.py:152-158 | one message per set bit among the seven |
| MountManager.MessageForBit | src/installer/src/tortuga/kit/mountManager.py:154-156 | a bit's message is reported exactly when that bit is set, in both directions |
| MountManager.NoKnownBit | src/installer/src/tortuga/kit/mountManager.py:152-158 | nothing is reported exactly when none of the seven bits is set |
| MountManager.ZeroStatus | src/installer/src/tortuga/kit/mountManager.py:152-158 | a status of 0 reports nothing |
| MountManager.MessagesAreKnown | src/installer/src/tortuga/kit/mountManager.py:141-156 | every message reported comes from the table |
| NetworkUtil.LastAlpha | src/core/src/tortuga/utility/network.py:22-25 | the index kept is within the name when the name is non-empty, and no letter follows it (0 when there is no letter) |
| NetworkUtil.LastAlphaIsAlpha | src/core/src/tortuga/utility/network.py:22-25 | when the name has a letter, the index kept is that of its last letter |
| NetworkUtil.FixNetworkDeviceName | src/core/src/tortuga/utility/network.py:21-27 | the loop computes the name up to and including its last letter, followed by '0' |
| NetworkUtil.FixedNameShape | src/core/src/tortuga/utility/network.py:27 | the fixed name ends in '0' and is at most one character longer than the input |
| NetworkUtil.FixedNameKeepsLetters | src/core/src/tortuga/utility/network.py:21-27 | with a letter in the name, the kept part is the prefix ending at the last letter, and no letter is dropped |
| RhelNetwork.FirstOctet | src/installer/src/tortuga/os_objects/rhel/networkManager.py:193-195 | the first octet of a 32-bit address is in 0..255 |
| RhelNetwork.NetmaskByNetworkClass | src/installer/src/tortuga/os_objects/rhel/networkManager.py:191-207 | the netmask is the /8 prefix mask exactly for first octet 0-127, the /16 mask exactly for 128-191, and the /24 mask exactly for 192 and above |
| RhelNetwork.ClassMasksArePrefixes | src/installer/src/tortuga/os_objects/rhel/networkManager.py:197-207 | the three class masks are the /8, /16 and /24 prefix masks |
| RhelNetwork.NetmaskByLeadingBits | src/installer/src/tortuga/os_objects/rhel/networkManager.py:191-207 | by leading address bits: 0 gives the /8 mask, 10 the /16 mask, 11 the /24 mask |
| NodesDb.SqlWildcards | src/installer/src/tortuga/db/nodesDbHandler.py:289-291 | each '*' becomes '%', each '?' becomes '_', other characters are kept, position by position |
| NodesDb.GlobIsLike | src/installer/src/tortuga/db/nodesDbHandler.py:288-291 | the converted pattern matches under LIKE exactly the names the shell-style pattern matches |
| NodesDb.LikeLiteral | src/installer/src/tortuga/db/nodesDbHandler.py:162-167 | a wildcard-free prefix of a LIKE pattern must match literally |
| NodesDb.LikeAnything | src/installer/src/tortuga/db/nodesDbHandler.py:167 | '%' matches every name |
| NodesDb.LikeExact | src/installer/src/tortuga/db/nodesDbHandler.py:164 | a wildcard-free pattern matches exactly the name equal to it |
| NodesDb.LikeDomain | src/installer/src/tortuga/db/nodesDbHandler.py:167 | 'name.%' matches exactly the names starting with 'name.' |
| NodesDb.TokenFilters | src/installer/src/tortuga/db/nodesDbHandler.py:287-302 | each token gives one or two filters |
| NodesDb.TokenFiltersMeaning | src/installer/src/tortuga/db/nodesDbHandler.py:287-302 | the filters of a wildcard-free token select a name exactly when it is the token, or the token has no '.' and the name is the token followed by a domain |
| NodesDb.FilterSpecMembership | src/installer/src/tortuga/db/nodesDbHandler.py:284-304 | a filter is in the list exactly when it comes from one of the comma-separated tokens |
| NodesDb.FilterSpecMeaning | src/installer/src/tortuga/db/nodesDbHandler.py:284-304 | the filter list selects a name exactly when one of its tokens selects it |
| NodesDb.BuildNodeFilterspec | src/installer/src/tortuga/db/nodesDbHandler.py:284-304 | the loop over the comma-separated tokens builds that filter list |
| NodesDb.LowerKeepsMarks | src/installer/src/tortuga/db/nodesDbHandler.py:52-61 | lower-casing keeps the dots and adds no SQL wildcards |
| NodesDb.NameMatchesMeaning | src/installer/src/tortuga/db/nodesDbHandler.py:51-61 | a node matches exactly when its name equals the query ignoring case, or the query has no '.' and the name is the query followed by a domain |
| NodesDb.Matching | src/installer/src/tortuga/db/nodesDbHandler.py:54-61 | the names kept are exactly those that match the query |
| NodesDb.GetNode | src/installer/src/tortuga/db/nodesDbHandler.py:43-63 | a result is the only name that matches; NodeNotFound with the name exactly when none matches |
| NodeManager.ValidateHostName | src/installer/src/tortuga/node/nodeManager.py:73-90 | an explicit host name is accepted exactly when the name format is '*', and a missing one exactly when it is not; a rejection is a ConfigurationError |
| NodeManager.FirstAppearanceMembers | src/installer/src/tortuga/node/nodeManager.py:481-487 | the distribution's keys are exactly the profiles of the nodes, each once |
| NodeManager.Violation | src/installer/src/tortuga/node/nodeManager.py:491-525 | a hard locked profile always objects, with the message as written (the `{software_profile.name}` placeholder kept); a soft locked one objects without force; below the minimum objects unless forced on a soft locked profile; an unlocked profile objects exactly when it would drop below a non-zero minimum |
| NodeManager.CountByProfile | src/installer/src/tortuga/node/nodeManager.py:481-487 | the loop yields the profiles in first-appearance order with, for each, the number of nodes in it |
| NodeManager.CountsStep | src/installer/src/tortuga/node/nodeManager.py:483-487 | one loop step keeps keys and counts equal to the distribution of the nodes seen so far |
| NodeManager.CollectErrors | src/installer/src/tortuga/node/nodeManager.py:489-525 | the second loop collects exactly the messages of the profiles, in key order, the hard-locked one as written |
| NodeManager.ValidateDeleteNodesRequest | src/installer/src/tortuga/node/nodeManager.py:474-528 | the validation equals the delete check: count, collect, fail with the joined messages (hard-locked text as written); nodes without a software profile pass |
| NodeManager.ErrorsOfEmpty | src/installer/src/tortuga/node/nodeManager.py:527-528 | no message is collected exactly when no profile contributes one |
| NodeManager.DeleteCheckPassIff | src/installer/src/tortuga/node/nodeManager.py:474-528 | the delete passes exactly when no software profile among the nodes objects, given its count |
| NodeManager.HardLockedAlwaysFails | src/installer/src/tortuga/node/nodeManager.py:493-499 | a hard locked profile makes the delete fail with OperationFailed, with or without force |
| NodeManager.BelowMinimumFails | src/installer/src/tortuga/node/nodeManager.py:501-519 | dropping below the minimum fails unless force is set and the profile is soft locked |
| NodeManager.SoftLockedWithoutForceFails | src/installer/src/tortuga/node/nodeManager.py:521-525 | a soft locked profile without force fails |
| NodeManager.IdleNodesPass | src/installer/src/tortuga/node/nodeManager.py:474-528 | nodes without a software profile do not block the delete (intended behaviour) |
| NodeManager.FailureMessageLines | src/installer/src/tortuga/node/nodeManager.py:527-528 | the OperationFailed message splits on newlines back into one message per objecting profile |
| NodeManager.ErrorsNoNewline | src/installer/src/tortuga/node/nodeManager.py:489-525 | no collected message contains a line break when no profile name does |
| NodeManager.DeleteCheckAsWritten | src/installer/src/tortuga/node/nodeManager.py:481-493 | as written, a node without a software profile raises AttributeError; otherwise the delete check applies, with its messages as written |
| NodeManager.IdleNodeDeleteDiffers | src/installer/src/tortuga/node/nodeManager.py:481-493 | deleting one idle node fails as written but passes as intended |
| NodeManager.HardLockedMessageAsWritten | src/installer/src/tortuga/node/nodeManager.py:494-497 | as written, the message has the length of the text with the literal placeholder |
| NodeManager.HardLockedMessageLosesName | src/installer/src/tortuga/node/nodeManager.py:494-497 | as written, the message differs from the intended one for every other profile name |
| NodeManager.HardLockedMessageNamesProfile | src/installer/src/tortuga/node/nodeManager.py:494-497 | the intended message ends with the profile name in brackets |
| NodeManager.HwProfiles | src/installer/src/tortuga/node/nodeManager.py:843-860 | the hardware profile of each node, position by position |
| NodeManager.ProcessNodeList | src/installer/src/tortuga/node/nodeManager.py:843-860 | the loop yields the hardware profiles in first-appearance order and, for each, its nodes in input order |
| NodeManager.GroupsStep | src/installer/src/tortuga/node/nodeManager.py:853-858 | one loop step keeps the grouping of the nodes seen so far |
| NodeManager.InGroupEmpty | src/installer/src/tortuga/node/nodeManager.py:853-858 | a profile that no node has has no group |
| NodeManager.GroupCount | src/installer/src/tortuga/node/nodeManager.py:563-566 | a group holds each node of its profile as often as the input does, and no other node |
| NodeManager.FlattenCount | src/installer/src/tortuga/node/nodeManager.py:581-602 | concatenating the groups of distinct profiles keeps each of their nodes' multiplicities |
| NodeManager.GroupsPartition | src/installer/src/tortuga/node/nodeManager.py:563-602 | the groups together are a permutation of the input |
| NodeManager.GroupMembers | src/installer/src/tortuga/node/nodeManager.py:563-566 | a node is in a group exactly when it is in the input with that hardware profile |
| NodeManager.GetResourceAdapter | src/installer/src/tortuga/node/nodeManager.py:606-623 | an adapter is returned exactly when the hardware profile has one, and it is that one; otherwise OperationFailed |
| NodeManager.GetDefaultRelations | src/installer/src/tortuga/node/nodeManager.py:878-894 | the four default relations are always on; any other relation is present exactly when requested, with its requested value |
| NodeManager.EventFiresAsWritten | src/installer/src/tortuga/node/nodeManager.py:380-384 | as written, the event guard is always true |
| NodeManager.StatusEventAsWrittenDiffers | src/installer/src/tortuga/node/nodeManager.py:380-384 | a report with no state fires the event as written though nothing changed |
| NodeManager.NamesOf | src/installer/src/tortuga/node/nodeManager.py:581-586 | the name of each node, position by position |
| NodeManager.OrphansOfMembers | src/installer/src/tortuga/node/nodeManager.py:590-595 | a tag is deleted exactly when some deleted node has it as its sole node and no profile uses it |
| NodeManager.MarkDeleted | src/installer/src/tortuga/node/nodeManager.py:550-561 | each named node, in order, with its state set to Deleted |
| NodeManager.AdapterCallsFor | src/installer/src/tortuga/node/nodeManager.py:581-586 | one adapter call per hardware profile with the names of its group, or the error when some profile has no adapter |
| NodeManager.MarkKeepsLinked | src/installer/src/tortuga/node/nodeManager.py:550-568 | marking nodes deleted keeps the node-tag relation consistent |
| NodeManager.NodeStore.UpdateNodeStatus | src/installer/src/tortuga/node/nodeManager.py:299-386 | the node is looked up as `getNode` does: no matching stored name gives NodeNotFound and several give MultipleResultsFound, with nothing changed. Otherwise state and boot device of the matched node change only when given and different, and the timestamp always changes. The result says whether anything changed. The event fires exactly when the state changed (intended behaviour). The PXE file is written for non-installer, non-remote nodes. The node-tag relation stays consistent |
| NodeManager.NodeStore.UpdateNode | src/installer/src/tortuga/node/nodeManager.py:236-297 | the node is looked up as `getNode` does: NodeNotFound or MultipleResultsFound. An empty NIC list, or a NIC address for a node without NICs, gives IndexError. A missing adapter or a failing adapter call gives an error with nothing changed. Otherwise the first NIC takes the address and boots, and the state is set. Post-install runs for Allocated to Provisioned. The event fires exactly when the state changed. The node-tag relation stays consistent |
| NodeManager.NodeStore.ResolveNode | src/installer/src/tortuga/node/nodeManager.py:245 | listing the stored names without repeats and running `getNode` over them gives the reference look-up `Resolved` |
| NodeManager.Resolved | src/installer/src/tortuga/db/nodesDbHandler.py:43-63 | a name found is stored, matches the query, and is the only stored name that does |
| NodeManager.GetNodeResolves | src/installer/src/tortuga/db/nodesDbHandler.py:43-63 | `getNode` over any listing of the stored names without repeats answers as `Resolved` does: the single match, NodeNotFound, or MultipleResultsFound for two different matching names |
| NodeManager.NodeStore.DeleteNodes | src/installer/src/tortuga/node/nodeManager.py:530-604 | the nodes are marked Deleted; the adapter calls sent are, group by group, those before the first hardware profile without an adapter; such a profile fails the delete with the nodes left marked and nothing else changed; otherwise one adapter call per hardware profile, the deleted nodes grouped by hardware profile, the nodes removed, and their orphaned tags removed; the node-tag relation stays consistent |
| NodeManager.CheckAdapters | src/installer/src/tortuga/node/nodeManager.py:581-586 | the loop over the groups yields the adapter calls or the first missing adapter's error, together with the calls issued before it stopped |
| NodeManager.CollectDeleted | src/installer/src/tortuga/node/nodeManager.py:581-602 | the loop collects the deleted nodes in group order and the tags deleted with them |
| NodeManager.OrphansSameMembers | src/installer/src/tortuga/node/nodeManager.py:590-595 | the tags deleted do not depend on the order the nodes are walked in |
| NodeManager.DeletePreservesValid | src/installer/src/tortuga/node/nodeManager.py:590-602 | removing the nodes and their orphaned tags keeps the node-tag relation consistent |
| NodeManager.FirstMissingAdapter | src/installer/src/tortuga/node/nodeManager.py:606-613 | the first hardware profile without an adapter decides the error |
| NodeManager.CallsMade | src/installer/src/tortuga/node/nodeManager.py:581-586 | the calls issued walking the groups: one per group, in order, with its adapter and node names, stopping exactly at the first profile without an adapter |
| NodeManager.CallsMadeLength | src/installer/src/tortuga/node/nodeManager.py:581-586 | the calls issued are exactly as many as the groups before the first profile without an adapter |
| NodeManager.CallsMadeComplete | src/installer/src/tortuga/node/nodeManager.py:581-586 | when every profile has an adapter, the calls issued are all the calls |
| ObjectStore.ComparatorNamed | src/installer/src/tortuga/objectstore/base.py:35-39 | 'eq', 'gt' and 'lt' name equality, greater-than and less-than, each in both directions, and nothing else is a comparator |
| ObjectStore.ParseKeyMeaning | src/installer/src/tortuga/objectstore/base.py:69-73 | a filter key splits on '__' into the attribute path and, when the last part names a comparator, that comparator; otherwise the whole key is the path and equality is used; either way the parts join back into the key |
| ObjectStore.FirstDifference | src/installer/src/tortuga/objectstore/base.py:28-32 | the first index where two sequences differ, the lexicographic comparison's pivot |
| ObjectStore.FirstDifferenceSymmetric | src/installer/src/tortuga/objectstore/base.py:28-32 | the pivot does not depend on the order of the two sequences |
| ObjectStore.LessAsymmetric | src/installer/src/tortuga/objectstore/base.py:27-32 | when a < b holds under Python's ordering, b < a does not |
| ObjectStore.SeqLessAsymmetric | src/installer/src/tortuga/objectstore/base.py:27-32 | lexicographic list and tuple comparison is asymmetric |
| ObjectStore.StrLessAsymmetric | src/installer/src/tortuga/objectstore/base.py:27-32 | string comparison is asymmetric |
| ObjectStore.MatchesIffAllHold | src/installer/src/tortuga/objectstore/base.py:42-89 | an object matches exactly when every filter holds of it |
| ObjectStore.MissingAttributeIsFalse | src/installer/src/tortuga/objectstore/base.py:75-84 | a filter whose attribute path does not resolve makes the match False, unless an earlier comparison raised |
| ObjectStore.SplitKey | src/installer/src/tortuga/objectstore/base.py:69-73 | the loop computes the key's path and comparator |
| ObjectStore.ResolvePath | src/installer/src/tortuga/objectstore/base.py:75-84 | the loop follows the attribute path through nested objects, or finds it missing |
| ObjectStore.MatchesFilters | src/installer/src/tortuga/objectstore/base.py:42-89 | the loop over the filters computes the match, including a later missing attribute overriding an earlier failed comparison and a raised comparison propagating |
| ObjectStore.KeyName | src/installer/src/tortuga/objectstore/base.py:102-111 | the store key is the namespace, ':' and the key |
| ObjectStore.KeyNameInjective | src/installer/src/tortuga/objectstore/base.py:102-111 | different keys of one namespace get different store keys |
| ObjectStore.ListItems | src/installer/src/tortuga/objectstore/base.py:134-171 | the generator yields the listing of the sorted objects under the filters and the limit |
| ObjectStore.ListedSound | src/installer/src/tortuga/objectstore/base.py:161-171 | every listed object comes from the store and matches the filters, and no more of them than a positive limit |
| ObjectStore.ListedComplete | src/installer/src/tortuga/objectstore/base.py:161-171 | without a limit every matching object is listed |
| ObjectStore.ListedFirstMatches | src/installer/src/tortuga/objectstore/base.py:161-171 | with a positive limit k, the listing is the first k objects of the unlimited listing, whenever that one raises nothing |
| ObjectStore.ListedKeepsOrder | src/installer/src/tortuga/objectstore/base.py:161-171 | the listing keeps the order of the sorted objects |
| RedisStore.IntTextIsPlain | src/installer/src/tortuga/objectstore/redis.py:79-85 | the text of an integer field is never taken for JSON or NULL |
| RedisStore.DecodeFieldText | src/installer/src/tortuga/objectstore/redis.py:79-144 | reading back a field: None, and the text 'NULL', come back as None; a dict, list or tuple comes back as what JSON loads of its dump gives; a string not starting with 'JSON:' comes back unchanged; an integer comes back as its decimal text |
| RedisStore.Serialized | src/installer/src/tortuga/objectstore/redis.py:78-85 | the hash has the object's field names |
| RedisStore.Deserialized | src/installer/src/tortuga/objectstore/redis.py:124-146 | the object has the hash's field names, each decoded; a JSON error in any field fails the whole read |
| RedisStore.DeserializeSerialized | src/installer/src/tortuga/objectstore/redis.py:78-146 | serializing and then deserializing returns the object whenever every field survives the encoding |
| RedisStore.RemoveNamespaceUndoesKeyName | src/installer/src/tortuga/objectstore/redis.py:199-209 | the as-written removal undoes the key name when the key itself holds no 'namespace:' |
| RedisStore.RemoveNamespaceLosesRepeatedPrefix | src/installer/src/tortuga/objectstore/redis.py:199-209 | as written, namespace 'a' and key 'a:b' list back as 'b' |
| RedisStore.StripNamespaceUndoesKeyName | src/installer/src/tortuga/objectstore/redis.py:199-209 | removing only the leading 'namespace:' gives back the key for every key |
| RedisStore.IndexKeyIsNoObjectKey | src/installer/src/tortuga/objectstore/redis.py:36-56 | the index's Redis key is the key of no object with an unreserved key |
| RedisStore.Serialize | src/installer/src/tortuga/objectstore/redis.py:78-85 | the loop builds the hash that is stored |
| RedisStore.Deserialize | src/installer/src/tortuga/objectstore/redis.py:124-146 | the loop rebuilds the object, or the JSON error |
| RedisStore.RedisObjectStore.Set | src/installer/src/tortuga/objectstore/redis.py:58-93 | reserved keys fail and nothing changes; an empty or missing object fails (Redis refuses an empty HMSET) and nothing changes; otherwise the fields are merged into the existing hash (HMSET), the key is added to the index, and an index that lists exactly the hashes still does |
| RedisStore.RedisObjectStore.SetReplacing | src/installer/src/tortuga/objectstore/redis.py:58-93 | the intended set: as Set, but the hash is replaced by the new object's fields |
| RedisStore.RedisObjectStore.GetAt | src/installer/src/tortuga/objectstore/redis.py:106-122 | the key of a non-empty index set is a WRONGTYPE error; otherwise a missing hash reads as None, and a present one as its deserialized object or the JSON error |
| RedisStore.RedisObjectStore.Get | src/installer/src/tortuga/objectstore/redis.py:95-104 | the reserved key fails with WRONGTYPE while the index has members and reads None otherwise; for any other key there is no object exactly when the key does not exist |
| RedisStore.RedisObjectStore.Exists | src/installer/src/tortuga/objectstore/redis.py:221-230 | the reserved key exists exactly while the index set has members |
| RedisStore.RedisObjectStore.Delete | src/installer/src/tortuga/objectstore/redis.py:211-219 | as written: the hash goes and the index is unchanged, so a listed key stays listed with no hash; the reserved key deletes the whole index set; afterwards the key does not exist |
| RedisStore.RedisObjectStore.DeleteUnindexed | src/installer/src/tortuga/objectstore/redis.py:211-219 | the intended delete: the reserved key is refused and nothing changes; otherwise the hash and its index entry go, the key no longer exists, and an index that lists exactly the hashes still does |
| RedisStore.RedisObjectStore.ListSorted | src/installer/src/tortuga/objectstore/redis.py:148-184 | each index member, in Redis's order, named as `_remove_namespace` leaves it and with its object (None without a hash); an error exactly when one member's read fails |
| RedisStore.SerializedOneStr | src/installer/src/tortuga/objectstore/redis.py:78-85 | a one-field string object is stored as that string |
| RedisStore.SetMergesStaleFields | src/installer/src/tortuga/objectstore/redis.py:58-93 | setting {a: x, b: y} and then {b: y} reads back both fields as written |
| RedisStore.SetReplacingDropsStaleFields | src/installer/src/tortuga/objectstore/redis.py:58-93 | with the intended set, the same two calls read back only {b: y} |
| RedisStore.DeletedObjectStillListed | src/installer/src/tortuga/objectstore/redis.py:148-219 | as written, listing after set and delete of 'k' yields ('k', None) |
| RedisStore.ListedObjectsArePresent | src/installer/src/tortuga/objectstore/redis.py:148-171 | when the index lists exactly the hashes, as the intended delete keeps it, every listed object is present |
| RedisStore.SetThenGet | src/installer/src/tortuga/objectstore/redis.py:58-122 | after setting an object whose fields survive the encoding, getting it returns that object |
| TagsMixin.KeysOfEntries | src/installer/src/tortuga/db/tagsDbApiMixin.py:54 | the tag names given are exactly the keys of the tag entries |
| TagsMixin.ValueForEntry | src/installer/src/tortuga/db/tagsDbApiMixin.py:54 | with distinct keys, each entry's value is the value given for its name |
| TagsMixin.ByName | src/installer/src/tortuga/db/tagsDbApiMixin.py:52 | the to-delete dict maps each current tag name to a tag of that name |
| TagsMixin.WithoutNameMembership | src/installer/src/tortuga/db/tagsDbApiMixin.py:75-76 | removing the tag of a name keeps exactly the other tags |
| TagsMixin.WithoutNameNames | src/installer/src/tortuga/db/tagsDbApiMixin.py:75-76 | removing the tag of a name removes that name only |
| TagsMixin.WithoutNameDistinct | src/installer/src/tortuga/db/tagsDbApiMixin.py:75-76 | removing a tag keeps tag names distinct |
| TagsMixin.AppendDistinct | src/installer/src/tortuga/db/tagsDbApiMixin.py:67-69 | appending a tag of a new name keeps names distinct and adds that name |
| TagsMixin.ApplyEntry | src/installer/src/tortuga/db/tagsDbApiMixin.py:55-69 | one iteration: an existing tag of the name gets the new value and leaves the to-delete dict, otherwise a fresh tag is appended |
| TagsMixin.UpdateOrAdd | src/installer/src/tortuga/db/tagsDbApiMixin.py:52-69 | after the first loop every given name has one tag with its given value, new tags are fresh, and the to-delete dict holds exactly the old tags whose names were not given |
| TagsMixin.RemoveLeftover | src/installer/src/tortuga/db/tagsDbApiMixin.py:75-76 | the second loop removes exactly the leftover tags |
| TagsMixin.SetTags | src/installer/src/tortuga/db/tagsDbApiMixin.py:31-76 | afterwards the tags are exactly the given dict (None meaning empty), an old tag survives exactly when its name was given, and new tags are fresh |
| ResourceAdapterConfig.SettingIndex | src/installer/src/tortuga/resourceAdapterConfiguration/manager.py:243-249 | the first setting whose key equals the lower-cased key, with no earlier one; none exactly when no setting has that key |
| ResourceAdapterConfig.SettingExists | src/installer/src/tortuga/resourceAdapterConfiguration/manager.py:243-249 | the loop returns that first setting |
| ResourceAdapterConfig.SameKeysSameIndex | src/installer/src/tortuga/resourceAdapterConfiguration/manager.py:230 | overwriting values does not change which setting a later entry finds |
| ResourceAdapterConfig.Target | src/installer/src/tortuga/resourceAdapterConfiguration/manager.py:212 | the setting an entry addresses is one of the existing settings |
| ResourceAdapterConfig.Updated | src/installer/src/tortuga/resourceAdapterConfiguration/manager.py:230 | updating values keeps every setting's key in place |
| ResourceAdapterConfig.Doomed | src/installer/src/tortuga/resourceAdapterConfiguration/manager.py:214-217 | only existing settings are marked for deletion |
| ResourceAdapterConfig.Step | src/installer/src/tortuga/resourceAdapterConfiguration/manager.py:207-230 | one entry: a None value with a setting marks it for deletion, a value without a setting queues a new setting, a value with a setting overwrites it, and nothing else changes |
| ResourceAdapterConfig.ApplyEntry | src/installer/src/tortuga/resourceAdapterConfiguration/manager.py:212-230 | the loop body does exactly that step |
| ResourceAdapterConfig.MarkEntries | src/installer/src/tortuga/resourceAdapterConfiguration/manager.py:204-230 | the first loop fails with InvalidArgument exactly when some entry lacks 'key' or 'value'; otherwise it yields the overwritten settings, the queued new settings and the settings marked for deletion |
| ResourceAdapterConfig.AppendSettings | src/installer/src/tortuga/resourceAdapterConfiguration/manager.py:233-236 | the queued settings are appended in order |
| ResourceAdapterConfig.DeleteMarked | src/installer/src/tortuga/resourceAdapterConfiguration/manager.py:239-240 | exactly the marked settings are removed, the rest kept in order |
| ResourceAdapterConfig.UpdateSettings | src/installer/src/tortuga/resourceAdapterConfiguration/manager.py:200-240 | the whole merge: InvalidArgument exactly for a malformed entry, otherwise the reconciled settings |
| ResourceAdapterConfig.DoomedMeans | src/installer/src/tortuga/resourceAdapterConfiguration/manager.py:214-217 | a setting is deleted exactly when some entry with a None value addresses it |
| ResourceAdapterConfig.UpdatedValueMeans | src/installer/src/tortuga/resourceAdapterConfiguration/manager.py:230 | a setting no entry overwrites keeps its value; otherwise the last overwriting entry's value wins |
| ResourceAdapterConfig.AddedMeans | src/installer/src/tortuga/resourceAdapterConfiguration/manager.py:221-225 | a new setting is added exactly for each entry with a value whose key has no setting |
| ResourceAdapterConfig.WithoutMeans | src/installer/src/tortuga/resourceAdapterConfiguration/manager.py:239-240 | a setting survives the deletes exactly when it is not marked |
| ResourceAdapterConfig.NullRemovesSetting | src/installer/src/tortuga/resourceAdapterConfiguration/manager.py:214-240 | after a None entry for an existing key no setting of that key remains |
| ResourceAdapterConfig.LastValueWins | src/installer/src/tortuga/resourceAdapterConfiguration/manager.py:207-236 | with no None entry for its key, the last entry for a key is in the result with its value, whether it overwrote or was appended |
| ResourceAdapterConfig.UntouchedKept | src/installer/src/tortuga/resourceAdapterConfiguration/manager.py:207-240 | a setting no entry addresses is kept |
| ResourceAdapterConfig.NullThenValueDeletes | src/installer/src/tortuga/resourceAdapterConfiguration/manager.py:212-240 | a None entry followed by a value for the same key still deletes the setting, because the deletion is applied after the overwrite |
| ResourceAdapterConfig.Created | src/installer/src/tortuga/resourceAdapterConfiguration/manager.py:86-92 | one setting per entry |
| ResourceAdapterConfig.ViewKeys | src/installer/src/tortuga/resourceAdapterConfiguration/manager.py:93 | the validator sees exactly the lower-cased keys of the entries |
| ResourceAdapterConfig.ViewLast | src/installer/src/tortuga/resourceAdapterConfiguration/manager.py:93 | the validator sees the last value given for each key |
| ResourceAdapterConfig.BuildProfile | src/installer/src/tortuga/resourceAdapterConfiguration/manager.py:86-93 | the loop fails with KeyError exactly when an entry lacks 'key' or 'value', and otherwise yields the settings and the validator's view |
| ResourceAdapterConfig.CreatedKeysLower | src/installer/src/tortuga/resourceAdapterConfiguration/manager.py:89 | the new settings' keys are in lower case |
| ResourceAdapterConfig.ConfigurationManager.Create | src/installer/src/tortuga/resourceAdapterConfiguration/manager.py:39-104 | unknown adapter: ResourceAdapterNotFound; existing name: ResourceAlreadyExists; otherwise it succeeds exactly when every entry is complete, the validator accepts (or force), and the keys are distinct, and then the profile holds the entries' settings; a failure changes nothing |
| ResourceAdapterConfig.ConfigurationManager.Update | src/installer/src/tortuga/resourceAdapterConfiguration/manager.py:152-198 | unknown adapter: ResourceAdapterNotFound; without force an incomplete entry raises KeyError before the profile is looked up; unknown profile fails; with force an incomplete entry gives InvalidArgument; on success the profile holds the reconciled settings; a failure changes nothing |
| SoftwareProfileDb.ProfileFault | src/installer/src/tortuga/db/softwareProfileDbApi.py:638-649 | a missing name, type, operating system or operating-system name is refused, in that order, each with its UpdateSoftwareProfileFailed message; nothing else is |
| SoftwareProfileDb.FaultNone | src/installer/src/tortuga/db/softwareProfileDbApi.py:690-734 | a partition is accepted exactly when it has a name, device, fsType and an integer size (and integer disk size when given), and its name/device pair is new |
| SoftwareProfileDb.PairsOfSnoc | src/installer/src/tortuga/db/softwareProfileDbApi.py:744-745 | accepting a partition records its name/device pair |
| SoftwareProfileDb.SchemeErrorNone | src/installer/src/tortuga/db/softwareProfileDbApi.py:671-745 | the scheme is accepted exactly when every partition is sound and no two share a name and device |
| SoftwareProfileDb.CheckPartitions | src/installer/src/tortuga/db/softwareProfileDbApi.py:671-745 | the loop fails with the scheme's first error, or returns the partitions, sound and with distinct name/device pairs |
| SoftwareProfileDb.SchemeErrorFirst | src/installer/src/tortuga/db/softwareProfileDbApi.py:672-745 | the first faulty partition decides the error |
| SoftwareProfileDb.SchemeErrorSticks | src/installer/src/tortuga/db/softwareProfileDbApi.py:672-745 | an error in a prefix is the error of the whole scheme |
| SoftwareProfileDb.SameNameOtherDeviceAccepted | src/installer/src/tortuga/db/softwareProfileDbApi.py:712-717 | two partitions sharing a name on different devices are accepted; sharing name and device is refused |
| SoftwareProfileDb.SoftwareProfileModel.DeleteRefusal | src/installer/src/tortuga/db/softwareProfileDbApi.py:288-310 | a profile with nodes is refused; an idle profile still used by hardware profiles is refused with their names; nothing else is |
| SoftwareProfileDb.SoftwareProfileModel.Populate | src/installer/src/tortuga/db/softwareProfileDbApi.py:629-758 | a profile fault fails before anything changes; otherwise the attributes are copied, and the partitions are replaced exactly when the scheme is accepted |
| SoftwareProfileDb.SoftwareProfileModel.Update | src/installer/src/tortuga/db/softwareProfileDbApi.py:605-627 | the update fails exactly on a profile fault or a scheme error, and then the rollback leaves attributes and partitions as they were; otherwise both are replaced |
| SoftwareProfileDb.SoftwareProfileTable.Delete | src/installer/src/tortuga/db/softwareProfileDbApi.py:270-325 | an unknown name gives SoftwareProfileNotFound; a refused profile stays; otherwise exactly that profile is removed |
| SanStorage.Options | src/installer/src/tortuga/san/san.py:163-169 | the options of a section, none when the section is missing |
| SanStorage.SetOption | src/installer/src/tortuga/san/san.py:228-232 | setting an option (its name lower-cased) creates the section when needed, gives the option the value, and leaves every other section and option alone; lower-case option names stay lower-case |
| SanStorage.Words | src/installer/src/tortuga/san/san.py:146 | splitting on whitespace yields non-empty pieces of the text |
| SanStorage.Fields | src/installer/src/tortuga/san/san.py:146 | the whitespace fields of a text are non-empty and free of spaces |
| SanStorage.FieldsOfJoin | src/installer/src/tortuga/san/san.py:145-146 | the fields of space-joined words are those words |
| SanStorage.BoolTextRead | src/installer/src/tortuga/san/san.py:153-154 | a flag written as True/False reads back as itself |
| SanStorage.VolumeEntry | src/installer/src/tortuga/san/san.py:132-161 | a volume id missing from the volumes section gives VolumeDoesNotExist; any failure is VolumeDoesNotExist; a volume read has the lower-cased id and single-word adapter fields |
| SanStorage.VolumeTextRoundTrip | src/installer/src/tortuga/san/san.py:132-161 | an entry written by the volume writer reads back as the same volume |
| SanStorage.GetVolume | src/installer/src/tortuga/san/san.py:1108-1147 | as written, a cache without a volumes section raises IndexError; otherwise the checked lookup applies |
| SanStorage.GetVolumeChecked | src/installer/src/tortuga/san/san.py:1108-1147 | the intended lookup: found exactly when the lower-cased volume's entry reads; otherwise VolumeDoesNotExist with the lower-cased name |
| SanStorage.GetVolumeWithoutVolumesSection | src/installer/src/tortuga/san/san.py:1130-1147 | with an empty cache the code as written raises IndexError, the intended lookup VolumeDoesNotExist |
| SanStorage.TargetHost | src/installer/src/tortuga/san/san.py:171-191 | no device exactly when the volume has no option for the target host, and then no nodes; the device is one word and the node names hold no space or comma |
| SanStorage.ReadBack | src/installer/src/tortuga/san/san.py:171-191 | an option written as 'device n1,n2,…' reads back as those nodes and that device |
| SanStorage.RemoveFirst | src/installer/src/tortuga/san/san.py:245-246 | list.remove drops one occurrence of the node |
| SanStorage.Remaining | src/installer/src/tortuga/san/san.py:245-246 | a node not in the list leaves it alone; otherwise one occurrence goes |
| SanStorage.AddListsNodeOnce | src/installer/src/tortuga/san/san.py:213-234 | after adding, the target host's nodes are the old ones with the node appended when new, and its device is kept when there was one |
| SanStorage.AddKeepsRest | src/installer/src/tortuga/san/san.py:213-234 | adding touches only the volume's option for the target host |
| SanStorage.AddTwiceIsOnce | src/installer/src/tortuga/san/san.py:213-234 | adding the same mapping twice is adding it once |
| SanStorage.RemoveLastNodeDropsOption | src/installer/src/tortuga/san/san.py:251-257 | removing the last node removes the option, and the section when it becomes empty, and nothing else |
| SanStorage.RemoveKeepsOthers | src/installer/src/tortuga/san/san.py:258-260 | removing a node with others left keeps the device and the other nodes |
| SanStorage.RemoveUndoesAdd | src/installer/src/tortuga/san/san.py:213-262 | removing a node added to a target host that had no mapping restores the cache |
| SanStorage.WithDrive | src/installer/src/tortuga/san/san.py:264-277 | writing a drive creates its option in the node's section |
| SanStorage.DriveOfWrite | src/installer/src/tortuga/san/san.py:264-277 | the drive just written names the lower-cased volume |
| SanStorage.MappedAfterWrite | src/installer/src/tortuga/san/san.py:689-715 | after writing a drive for a volume, the intended check finds the volume mapped |
| SanStorage.UpperCaseMappingMissed | src/installer/src/tortuga/san/san.py:1051-1056 | as written, the check compares the stored lower-cased id with the volume as given, so a volume named with upper-case letters is not seen as mapped; the intended check sees it |
| SanStorage.WithoutDrives | src/installer/src/tortuga/san/san.py:279-288 | removing drives keeps the node's other drives and drops the section when none remain |
| SanStorage.WithoutDrivesKeeps | src/installer/src/tortuga/san/san.py:279-288 | removing drives leaves every other section alone |
| SanStorage.WithoutDrivesStep | src/installer/src/tortuga/san/san.py:1101-1103 | removing drives one by one is removing them together |
| SanStorage.MatchingDrives | src/installer/src/tortuga/san/san.py:1088-1091 | the drives of the node whose volume is the given id, exactly |
| SanStorage.NextDriveNumber | src/installer/src/tortuga/san/san.py:1059-1065 | a drive name that is not a decimal number raises ValueError; otherwise the number is above every drive number, and is 1 or one more than the largest |
| SanStorage.San.AddTargetHostMapping | src/installer/src/tortuga/san/san.py:213-234 | the cache becomes the cache with the mapping added |
| SanStorage.San.RemoveTargetHostMapping | src/installer/src/tortuga/san/san.py:236-262 | the cache becomes the cache with the node's mapping removed |
| SanStorage.San.MapDrive | src/installer/src/tortuga/san/san.py:1041-1072 | as written: a lookup failure of getVolume (IndexError without a volumes section, else VolumeDoesNotExist) is returned; a volume found mapped by the as-written test gives VolumeAlreadyMapped; a non-numeric drive gives ValueError; a failure changes nothing; otherwise the next free drive number maps the volume, which the lower-cased test then finds |
| SanStorage.San.RemoveVolumeMapping | src/installer/src/tortuga/san/san.py:279-288 | a node without a section gives NoSectionError and changes nothing; otherwise its drive goes |
| SanStorage.San.UnmapDrive | src/installer/src/tortuga/san/san.py:1074-1103 | neither volume nor drive: InvalidArgument; by volume, an unreadable drive fails, no matching drive fails with getVolume's error as written (IndexError without a volumes section) or VolumeNotMapped, and otherwise every matching drive goes; by drive number, only that drive goes; failures change nothing |
| SanStorage.San.UnmapAll | src/installer/src/tortuga/san/san.py:1101-1103 | the loop removes exactly the given drives |
| SanStorage.San.UpdateVolume | src/installer/src/tortuga/san/san.py:608-626 | an unknown volume fails; an attached volume gives VolumeStillAttached with the host count; otherwise only the flags change and the volume reads back with them |
| SanStorage.San.DeleteVolume | src/installer/src/tortuga/san/san.py:628-658 | an unknown volume fails; a persistent one needs force; an attached one gives VolumeStillAttached; otherwise the entry goes, the volume no longer exists, and a non-default storage adapter is asked to delete its volume |
| Strings.Lower | src/installer/src/tortuga/resourceAdapterConfiguration/manager.py:89 | lower-casing keeps the length, maps each ASCII capital to its small letter and keeps every other character |
| Strings.LowerTwice | src/installer/src/tortuga/resourceAdapterConfiguration/manager.py:243-249 | lower-casing an already lower-cased key changes nothing |
| Strings.JoinSplit | src/installer/src/tortuga/objectstore/base.py:69 | joining the pieces of a split with the separator gives the text back |
| Strings.SplitJoin | src/installer/src/tortuga/node/nodeManager.py:527-528 | splitting pieces joined by a separator that none of them holds gives the pieces back |
| Strings.IntTextRoundTrip | src/installer/src/tortuga/san/san.py:1063-1070 | the decimal text of an integer reads back as that integer and is one word |

## Left out

- Input and output are not modelled, nor are the outside services:
  - JSON encoding and decoding, the resource adapter configuration validator, the resource adapters' own outcomes and generated UUIDs are all parameters;
  - calls into kit components, resource adapters and the event bus are returned as traces or request values.
- Database sessions, commit and rollback are not modelled on their own. An operation that fails leaves the modelled state unchanged.
- Locks, threads and the random host-name suffix are left out. The suffix is a parameter.
- `AddHostStatus` is not part of this model.
  - A session status is its list of messages plus its other fields as a map. The clean status is the empty one.
  - `update_session` is not modelled.
  - Request dictionaries are assumed to hold the keys the code reads. A request without `tags` has the empty dictionary.
  - `_set_tags` on a new node is returned as a `SetTags` request. What setting tags does is modelled by `TagsMixin`.
- Resource adapter configuration: `get_profile_names`, `get` and `delete` are not modelled. Settings are values, not shared objects.
- Python `int()` also accepts whitespace, underscores and other forms. The model reads plain decimal text only. This applies to the software profile fields, and to SAN volume sizes and drive numbers (`DecimalText` in `VolumeEntry` and `NextDriveNumber`).
- Software profiles:
  - The tags of `__populateSoftwareProfile` are covered only by the `TagsMixin` model.
  - The operating-system row lookup is not modelled.
- TagsMixin.SetTags: requires the instance's tag names to be distinct. Where names repeat, the source updates only the last tag with that name.
- Object store:
  - The values are strings, integers, lists and dictionaries. Booleans and floats are left out.
  - Built-in attributes of scalars that `getattr` can reach are not modelled.
  - The Redis `SORT` order is a sequence the caller supplies. Its `ResponseError` fallback is left out.
  - Redis refusing an empty `HMSET` is modelled as the `EmptyHash` failure.
- NetworkUtil: `isalpha` is taken to mean the ASCII letters only, with no other Unicode letters.
- Strings.Lower: folds the ASCII capitals only. Python's `str.lower` also folds every other Unicode capital, which matters for ConfigParser option names, SAN volume ids and the node-name comparison.
- AddHostServer: the message for a duplicate MAC address takes the network label as a parameter.
- KitActions: in the delete hook's fallback branch the source passes node objects. The model passes their names.
- SAN storage (`san.py`):
  - The configuration file is the `cache` field, read and written as a whole. The order of options within a section is not kept.
  - There is no `DEFAULT` section. A volume section whose name is also a node is not modelled.
  - The storage adapter's `deleteVolume` call is returned as a request.
  - The drive number is kept as its text.
  - Whitespace splitting covers spaces only.
  - The other operations of `san.py` are not modelled.
- SanStorage.GetVolume: looks only at the entry that was asked for. The source would fail on an earlier malformed entry.
- SanStorage.GetVolume: does not model an empty volume name as the source handles it.
- AddHostServer.SlotSearchAsWritten: a fuel bound stands for the unbounded `while` loop. Its lemma holds for every fuel.
- AddHostServer.AddHostServer.GenerateNodeName: uses the corrected search `FreeName`. With no `#N` in the template and the name taken, it reports that no name is free, where the code loops for ever.
- NodeManager.NodeStore.UpdateNodeStatus: fires the status event only when the state changes. As written it fires on every update (Findings, nodeManager.py:382).
- NodeManager.ValidateDeleteNodesRequest: nodes without a software profile pass, where the code raises AttributeError. `DeleteCheckAsWritten` models the code. `DeleteNodes` uses the same check.
- NodeManager.NodeStore.DeleteNodes: every adapter call it sends is taken to succeed. An exception from an adapter's `deleteNode` reaches the rollback after the earlier groups' adapters have already run, and that case is not modelled.
- ObjectStore.ListItems: returns either an error or the whole list. The source's generator hands out the earlier items before it raises.
- RedisStore.RedisObjectStore.ListSorted: returns either an error or the whole list. The source's generator hands out the earlier items before it raises.

## Findings

| source | as written | input that shows it | evidently intended | confidence | as-written member | corrected member |
|---|---|---|---|---|---|---|
| src/installer/src/tortuga/node/nodeManager.py:382 | `if state and ...` tests the imported `state` module, which is always true, so the status-change event fires on every update | a status report that carries no state (`state=None`) | fire the event only when the state changes | not executed | NodeManager.EventFiresAsWritten, NodeManager.StatusEventAsWrittenDiffers | NodeManager.NodeStore.UpdateNodeStatus |
| src/installer/src/tortuga/node/nodeManager.py:481-493 | reads `softwareprofile.lockedState` from a node that may have no software profile | one idle node with no software profile | an idle node passes the lock check | not executed | NodeManager.DeleteCheckAsWritten, NodeManager.IdleNodeDeleteDiffers | NodeManager.DeleteCheck, NodeManager.IdleNodesPass |
| src/installer/src/tortuga/node/nodeManager.py:494-497 | only the first piece of the concatenated message is an f-string, so the profile name stays a literal `{...}` | a node in a hard-locked profile named `compute` | the message names the profile | not executed | NodeManager.HardLockedMessageAsWritten, NodeManager.HardLockedMessageLosesName, NodeManager.Violation | NodeManager.HardLockedMessage, NodeManager.HardLockedMessageNamesProfile |
| src/installer/src/tortuga/kit/actions/manager.py:224-234 | with no base kit installed, `None` joins the list of kits and calling it fails | installed kits with no base kit | load the other kits in their order | not executed | KitActions.LoadKits, KitActions.LoadKitsAsWritten, KitActions.LoadKitsWithoutBaseFails | KitActions.ReorderedPermutation, KitActions.ReorderedWithoutBase |
| src/installer/src/tortuga/objectstore/redis.py:199-209 | `replace` removes every `ns:`, not just the prefix | namespace `a`, key `a:b`, stored as `a:a:b`, comes back as `b` | strip the leading namespace once | not executed | RedisStore.RemoveNamespace, RedisStore.RemoveNamespaceLosesRepeatedPrefix | RedisStore.StripNamespace, RedisStore.StripNamespaceUndoesKeyName |
| src/installer/src/tortuga/objectstore/redis.py:58-93 | `HMSET` merges into the existing hash, so fields missing from the new value survive | set `k` to `{a: "x"}`, then to `{b: "y"}`: `k` reads back with both fields | `set` replaces the stored value | not executed | RedisStore.RedisObjectStore.Set, RedisStore.SetMergesStaleFields | RedisStore.RedisObjectStore.SetReplacing, RedisStore.SetReplacingDropsStaleFields |
| src/installer/src/tortuga/objectstore/redis.py:211-219 | `delete` removes the hash but not the namespace index entry | set `k`, delete `k`, list: `('k', None)` | a deleted key is no longer listed | not executed | RedisStore.RedisObjectStore.Delete, RedisStore.DeletedObjectStillListed | RedisStore.RedisObjectStore.DeleteUnindexed, RedisStore.ListedObjectsArePresent |
| src/installer/src/tortuga/addhost/addHostManager.py:157-173 | the message is appended to a copy of the status that is never stored | update a session's status with a message, then read the status | a reported message can be read back | not executed | AddHostManager.SessionStore.UpdateStatus, AddHostManager.ReportedMessageIsLost | AddHostManager.SessionStore.UpdateStatusStored, AddHostManager.ReportedMessageIsRead |
| src/installer/src/tortuga/addhost/addHostServerLocal.py:196-201 | with no `#N` in the template the name never changes, so a taken name loops for ever | template `node` with `node` in use | report that no free name exists | not executed | AddHostServer.SlotSearchAsWritten, AddHostServer.SlotSearchNeverEnds | AddHostServer.FreeName, AddHostServer.FreeNameSearch |
| src/installer/src/tortuga/addhost/addHostServerLocal.py:477-489 | stepping by the increment can jump past the broadcast address without stopping | network 10.0.0.0/30, increment 3, 10.0.0.1 in use: 10.0.0.4 is handed out | allocate only addresses inside the network | not executed | AddHostServer.AllocationAsWritten, AddHostServer.AllocationLeavesNetwork, AddHostServer.AddHostServer.GenerateProvisioningIpAddress | AddHostServer.Allocation, AddHostServer.AllocationFirstFree |
| src/installer/src/tortuga/san/san.py:1108-1147 | indexes the first volume section without checking that one exists | a configuration with no volume section | report that the volume does not exist | not executed | SanStorage.GetVolume, SanStorage.GetVolumeWithoutVolumesSection | SanStorage.GetVolumeChecked |
| src/installer/src/tortuga/san/san.py:1051-1056 | the volume id is stored lower-cased but compared with the id as given | map volume `VolA`, then ask whether `VolA` is mapped | a mapped volume is found under the name it was mapped with | not executed, medium | SanStorage.MappedAsWritten, SanStorage.UpperCaseMappingMissed | SanStorage.Mapped, SanStorage.MappedAfterWrite |
