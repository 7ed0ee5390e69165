# State engines of the ACI container controllers, in Dafny

This project models the parts of the ACI containers integration that keep state and have to keep
it consistent, and proves what they keep.

**Desired state of the fabric controller (APIC).** Wanted objects are trees named by DN. A write
compares the old and new trees of a key with a recursive two-pointer merge, patches a flat DN
index and queues the touched DNs. One worker reads the index per DN and posts or deletes. After a
reconnect, a snapshot is compared with everything that is wanted.

- `ApicTypes`, `ApicDiff`: objects, the merge, and the same answer stated DN by DN.
- `ApicConverge`: applying a diff leaves later diffs nothing to do, if and only if every compared
  attribute can be set.
- `DnIndex`: the flat index follows every write, at every depth, and holds nothing else exactly as
  long as writes drop only what may be deleted.
- `FullSync`: the comparison by tag after a reconnect, against one comparison of everything.
- `ApicConnection`: the connection object whose methods write and synchronize.
- `Prepare`: sorting, tagging and normalizing objects before they are written.
- `BridgeDomains`: real bridge domains at the edges of these results.
- `SyncProtocol`: writers, worker, socket reader, connection loop and outside edits as a state
  machine. In every run an out-of-date DN is still scheduled, so a drained connection is in sync, at
  every DN that was undisturbed since the connect: no notification about it was left over from an
  earlier connection, the worker read it only after the full sync, and no POST of it was refused.
- `RespClasses`: the walk of the cyclic class graph for a subscription.

**SNAT port blocks** (`Snat`): nodes sharing an IP hold disjoint blocks in every run, restarts
included, and a node keeps its block as long as it has one; allocation fails exactly when it must, and saving and rebuilding the cache is the identity
exactly when the MAC table is right.

**Shared VLANs** (`GoStrings`, `VlanList`, `SharedEncap`): the agent's printed VLAN lists are read
back by the controller, and the VLAN-to-network cache is an exact inverse over every run that does
not panic, which is every run that releases no VLAN listed twice by its only network. What it holds
follows from the operations alone.

**GBP server** (`ClassIds`, `EscapeName`, `ChildList`, `Contracts`, `ContractRuns`): persistent class
ids, URI name escaping, and the reconciliation of contract references over runs.

**Target-port index** (`TargetPorts`): agrees with the live services in every run, and with the
network policies exactly as long as each policy update is told the ports the policy leaves.

Places where the code does not do what its callers rely on are kept as they are. Each has a concrete
case and the exact condition under which the code does what it should:

| what is relied on | fails at | holds exactly when |
|---|---|---|
| a diff converges | `BridgeDomains.NeverConverges` | `ApicConverge.RoundsConverge` |
| the DN index holds only wanted names | `BridgeDomains.DroppedLinkStaysIndexed` | `DnIndex.WriteEffect`, `DnIndex.TopClearsIff` |
| a pass before the full sync loses nothing | `SyncProtocol.LostBeforeFullSync` | `SyncProtocol.EarlyPassSettles` |
| a pass after the full sync loses nothing | `SyncProtocol.LostByLeftover`, `SyncProtocol.LostByRefusedPost` | `SyncProtocol.OnePassSettles` |
| a full sync updates only what needs it | `FullSync.EmptyKeyIsRescheduled` | `FullSync.UpdatedIff` |
| a full sync lists for deletion only what no key wants | `FullSync.MisfiledIsListed` | `FullSync.DeletedIff` |
| preparing twice is preparing once | `BridgeDomains.ForeignTagIsDroppedLate` | `Prepare.PrepareTwiceIff` |
| a tag that was set is read | `Prepare.SecondTagIsNotRead` | `Prepare.SetTagIsReadIff` |
| clearing a policy removes its IPs | `Snat.ClearStopsEarly` | `Snat.ClearsAllIff` |
| a restart restores the SNAT cache | `Snat.UnknownMacMovesEntry` | `Snat.RebuildIsIdentity` |
| releasing a VLAN list succeeds | `SharedEncap.RepeatedVlanPanics` | `SharedEncap.PanicsIff`, `SharedEncap.RunPanicsIff` |
| a URI keeps its class until it is freed | `ClassIds.UnsavedClassIsGivenAgain` | `ClassIds.KeptIff` |
| undoing an escape gives the name back | `EscapeName.EscapeCollides` | `EscapeName.UndoInvertsIff`, `EscapeName.CollideIff` |
| wanted contracts are all referenced | `ContractRuns.SameNameInTwoTenants` | `Contracts.SetKeeps` |
| a child that is deleted is gone | `ContractRuns.SecondCallPanics`, `ContractRuns.SecondCallDangles` | `ChildList.DelChild`, `ChildList.KeptIs` |
| a deleted policy leaves the target-port index | `TargetPorts.DeletedPolicyStays` | `TargetPorts.PolicyStepIff`, `TargetPorts.PoliciesAreExactIff` |

Assumptions, all about the surroundings of the code: sibling DNs are distinct and not empty, a DN
fixes its class and its parent, keys own disjoint DNs, POST is an upsert, DELETE removes a subtree, a
connection's worker has finished before the next snapshot is taken, and while a connection is open
every change on the controller is announced to it, in order. Tenant names have no slash.

## Model

| member | source | states |
|---|---|---|
| ApicTypes.StrCompare | pkg/apicapi/apic_types.go:159-161 | the DN comparison is a three-way total order: negative, zero and positive mean less, equal and greater |
| ApicTypes.NameIs | pkg/apicapi/apic_types.go:171-177 | the DN attribute names an object whatever its hint, and the hint does when that attribute is missing or empty |
| ApicDiff.AgreeIsSameProjection | pkg/apicapi/apic_sync.go:27-78 | two bodies compare equal iff their values projected on the class's compared attributes, with schema defaults, and the owner annotation coincide |
| ApicDiff.BodyAttrCmp | pkg/apicapi/apic_sync.go:27-78 | the attribute loop decides exactly that agreement, defaults and the annotation rule included |
| ApicDiff.AnnotationCounts | pkg/apicapi/apic_sync.go:27-78 | changing only the owner annotation makes objects differ, except tags of both kinds |
| ApicDiff.CntCmp | pkg/apicapi/apic_sync.go:80-93 | containers are equal iff class and own attributes agree, whatever their children |
| ApicDiff.ContainersAreShallow | pkg/apicapi/apic_sync.go:209-215 | what lies below a container changes neither whether it is updated nor what is deleted |
| ApicDiff.OtherClassIsLeft | pkg/apicapi/apic_sync.go:95-103 | objects of different classes under one name are left alone with all that is below them |
| ApicDiff.ObjCmp | pkg/apicapi/apic_sync.go:95-162 | the recursive merge reports an update iff the objects differ somewhere in the matched subtree, and exactly the deletable names without partner, in merge order |
| ApicDiff.ObjDeletesExact | pkg/apicapi/apic_sync.go:95-162 | a name is in the merge's delete list of a pair iff it names a deletable object with no partner at its matched place |
| ApicDiff.AnyDiffersExact | pkg/apicapi/apic_sync.go:95-162 | the update flag accumulated over the children is set iff some wanted child is absent or differs |
| ApicDiff.DiffApicState | pkg/apicapi/apic_sync.go:179-260 | the top-level merge returns the wanted objects that need an update and the names to delete, containers compared on attributes only |
| ApicDiff.UpdatesExact | pkg/apicapi/apic_sync.go:179-260 | an object is updated iff it is wanted and is absent from the current state or differs from its namesake there |
| ApicDiff.ForestDeletesExact | pkg/apicapi/apic_sync.go:179-260 | a name is deleted iff it is a deletable current name with no partner at its matched place, outside container subtrees |
| ApicConverge.DiffConverges | pkg/apicapi/apic_sync.go:179-278 | after applying the diff a second diff has nothing to delete, and has nothing to update iff no matched object has an unmentioned attribute off its default |
| ApicConverge.CompleteConverges | pkg/apicapi/apic_sync.go:179-278 | objects that carry every compared attribute are in place after one round, whatever the controller held |
| ApicConverge.AppliedIsStable | pkg/apicapi/apic_sync.go:179-278 | applying the diff once more changes nothing: the first round reaches a fixed point, whatever was settable |
| ApicConverge.RoundsConverge | pkg/apicapi/apic_sync.go:179-278 | after any number of rounds nothing is left to delete, and nothing to update iff every matched object was settable |
| ApicConverge.UnsettableNeverConverges | pkg/apicapi/apic_sync.go:50-76 | an object with an unmentioned compared attribute off its default is posted in every round, however many |
| BridgeDomains.NeverConverges | pkg/apicapi/apic_metadata.go:326-340 | a prepared bridge domain written by its DN alone is posted in every round once its ARP flooding was turned on |
| BridgeDomains.PreparedText | pkg/apicapi/apic_types.go:576-587 | a prepared bridge domain spelled out: its owner annotation, and its tag's name, key and value for both forms of tag names |
| BridgeDomains.DroppedLinkStaysIndexed | pkg/apicapi/apic_metadata.go:341-344 | a bridge domain written with and then without its VRF link leaves the link's name in the index, though no key wants it |
| BridgeDomains.ForeignTagIsDroppedLate | pkg/apicapi/apic_types.go:235-264 | a foreign tag before ours with a later name survives the first preparation and is dropped by the second |
| ApicConverge.Outcome | pkg/apicapi/apic_sync.go:262-278 | what stands at any name after deletes and updates: the wanted object, equal unless unsettable, and nothing deletable left over |
| ApicConnection.Connection.constructor | pkg/apicapi/apicapi.go:215-244 | a new connection wants nothing, its index is exact, its tag hashes are consistent and synchronization is off |
| ApicConnection.Connection.UpdateDnIndex | pkg/apicapi/apic_sync.go:391-401 | adds every named object of the forest, skipping nameless ones with their subtrees |
| DnIndex.AddAllIndexes | pkg/apicapi/apic_sync.go:391-401 | afterwards every object at every depth is indexed under its own DN |
| ApicConnection.Connection.RemoveFromDnIndex | pkg/apicapi/apic_sync.go:403-417 | removes the name and, through the indexed object, its subtree; terminates because the index shrinks |
| DnIndex.RemoveTree | pkg/apicapi/apic_sync.go:403-417 | removing an indexed tree removes exactly the names of that tree |
| ApicConnection.Connection.FindRedirectDests | pkg/apicapi/apic_sync.go:428-452 | takes the early return iff a deleted redirect policy is not indexed, and otherwise collects exactly the names of the redirect destinations among the children of the deleted redirect policies |
| DnIndex.ExtraDeletesAre | pkg/apicapi/apic_sync.go:441-452 | a name is an extra delete iff it names a redirect-destination child of a deleted, indexed redirect policy |
| DnIndex.WriteDeletesAre | pkg/apicapi/apic_sync.go:424-452 | a write lists a name for deletion iff the diff deletes it or it is such a destination |
| DnIndex.ContainsIff | pkg/apicapi/apic_sync.go:430 | the substring test holds iff the text occurs somewhere in the name |
| DnIndex.GoneApart | pkg/apicapi/apic_sync.go:457-463 | names removed on behalf of a diff's deletes are never names that are still wanted |
| DnIndex.ClearsIff | pkg/apicapi/apic_sync.go:457-463 | below a matched pair every name that left the forest is removed iff each object without partner, at every depth, may be deleted |
| DnIndex.TopClearsIff | pkg/apicapi/apic_sync.go:457-463 | the same at the top, where a container that stays must also lose no name below it |
| DnIndex.DeletableTopClears | pkg/apicapi/apic_sync.go:457-463 | without containers and protected classes every name that left the forest is removed |
| DnIndex.WriteIndex | pkg/apicapi/apic_sync.go:457-463 | adding the new forest and then removing the deletes leaves the new forest indexed at every depth and every other key's entries as they were, and no dropped name iff all that was dropped could be deleted |
| DnIndex.WriteDeletes | pkg/apicapi/apic_sync.go:424-452 | every name deleted by a write was wanted and indexed before it and is not wanted after it |
| DnIndex.WriteEffect | pkg/apicapi/apic_sync.go:419-485 | every write or clear keeps the index covering all wanted trees; an exact index stays exact iff every dropped object may be deleted and nothing is dropped below a container that stays |
| ApicConnection.Connection.WriteObjects | pkg/apicapi/apic_sync.go:419-485 | a write never takes the early return, keeps the index covering everything, keeps an exact index exact iff what it drops can be deleted, keeps the tag hashes usable iff no other key in use has the same tag, returns the diff of the key, lists for deletion exactly the diff's deletes and the destinations of deleted redirect policies, and maintains the container names |
| ApicConnection.Connection.Unindex | pkg/apicapi/apic_sync.go:458-463 | the loop over the deletes takes each out of the index with its subtree, and out of the containers on a container write |
| ApicConnection.Connection.MarkContainers | pkg/apicapi/apic_sync.go:464-469 | the loop over the updates makes their names containers on a container write |
| FullSync.HashesKeptIff | pkg/apicapi/apic_sync.go:471-477 | after a write or clear, tags lead back to keys iff no other key in use has the same tag |
| ApicConnection.Connection.DiffBuckets | pkg/apicapi/apic_sync.go:335-342 | the loop over tags sorts each bucket in place and collects exactly the diffs of all buckets |
| ApicConnection.Connection.MissingKeys | pkg/apicapi/apic_sync.go:344-351 | the second loop collects exactly the objects of keys without a bucket |
| ApicConnection.Connection.FullSync | pkg/apicapi/apic_sync.go:330-354 | updates and deletes are exactly those of all buckets and missing keys; synchronization is on |
| FullSync.UpdatedIff | pkg/apicapi/apic_sync.go:336-351 | an object is updated iff its own key's bucket lacks it or holds it differently, or it is wanted under the empty key and a bucket with an unknown tag does |
| FullSync.UnwantedIsDeleted | pkg/apicapi/apic_sync.go:336-342 | a deletable object that no key wants is deleted, whichever bucket it is in |
| FullSync.EmptyKeyIsRescheduled | pkg/apicapi/apic_sync.go:338-339 | objects of the empty key that are in place are updated again whenever a bucket has an unknown tag |
| FullSync.FullSyncCovers | pkg/apicapi/apic_sync.go:330-356 | every update, and every top-level delete, that comparing everything with everything would find is scheduled, for trees with containers and also for objects with another key's tag |
| FullSync.DeletedIff | pkg/apicapi/apic_sync.go:336-342 | the deletes, at every depth and wherever objects are filed, are those of one comparison of everything, except that a wanted object with another key's tag is listed as a whole |
| FullSync.MisfiledIsListed | pkg/apicapi/apic_sync.go:336-342 | an object that a key wants just as it is is listed for deletion when its tag belongs to no key |
| FullSync.FullSyncIsExact | pkg/apicapi/apic_sync.go:330-356 | with objects filed under their keys' tags, the buckets yield exactly the updates and deletes of one comparison of everything, and stray updates of the empty key |
| FullSync.SecondFullSync | pkg/apicapi/apic_sync.go:330-356 | after everything scheduled was carried out a second full sync deletes nothing, and updates nothing iff every matched object was settable |
| FullSync.FullSyncIsTouched | pkg/apicapi/apic_sync.go:330-356 | on childless objects the full sync queues exactly the DNs on which snapshot and index disagree: the protocol's step |
| SyncProtocol.StepKeeps | pkg/apicapi/apicapi.go:246-413 | every locked section, request and outside edit keeps the invariant at every DN |
| SyncProtocol.RunKeeps | pkg/apicapi/apicapi.go:246-545 | the invariant and an exact index hold in every state of every run |
| SyncProtocol.WriteIndex | pkg/apicapi/apic_sync.go:419-485 | a write keeps the index the disjoint union of all keys' objects and changes it only at DNs the diff reports |
| SyncProtocol.MarkerIsHeld | pkg/apicapi/apicapi.go:334-403 | in every state of every run the worker's marker is on a DN only while the worker has it in hand, or after a refused POST of it with no clean-up since |
| SyncProtocol.UndisturbedIsUnexposed | pkg/apicapi/apicapi.go:300-403 | from the steps of a run: a DN without an entry at the last connect, without a refused POST and read only after the full sync is never read on stale grounds |
| SyncProtocol.SyncIsFullSync | pkg/apicapi/apic_sync.go:330-354 | an open connection synchronizes iff its full sync has run |
| SyncProtocol.OutOfDateIsScheduled | pkg/apicapi/apicapi.go:300-413 | while synchronizing, an undisturbed DN whose remote value is not the wanted one is queued, about to be queued, announced, or in the worker's hand with the current value |
| SyncProtocol.DrainedIsSynced | pkg/apicapi/apicapi.go:385-413 | a drained connection has the controller equal to the wanted state on every DN undisturbed since the last connect, a condition on the steps of the run |
| SyncProtocol.UnexposedIsSynced | pkg/apicapi/apicapi.go:385-413 | the same for every DN whose last read was not on stale grounds |
| SyncProtocol.NothingWithoutReason | pkg/apicapi/apicapi.go:246-413 | a DN is marked for the queue iff a write, reconciliation or full sync finds a difference there; it is queued by that, a notification or a refused POST; only edits and requests for the wanted value change the controller |
| SyncProtocol.InSyncPassIsIdle | pkg/apicapi/apicapi.go:300-383 | a pass over a DN that is as wanted, such as the echo of a POST, changes and queues nothing |
| SyncProtocol.NotificationIsQueued | pkg/apicapi/apicapi.go:267-283 | a notification taken in this connection and not yet read has its DN queued or just dequeued |
| SyncProtocol.NotificationSurvives | pkg/apicapi/apicapi.go:334-413 | only the worker's read or a newer notification replaces a notification; the clean-up after processing never does |
| SyncProtocol.TouchedIsDiff | pkg/apicapi/apic_sync.go:179-260 | on childless objects the DNs a diff reports are exactly those whose compared value changes |
| SyncProtocol.WriteIsReindexed | pkg/apicapi/apic_sync.go:457-463 | on childless objects the index update of a write, additions and then removals, is the protocol's |
| SyncProtocol.OnePassSettles | pkg/apicapi/apicapi.go:300-383 | once synchronizing, one undisturbed pass of the worker settles or re-queues a DN iff the pending entry it finds is not misleading |
| SyncProtocol.EarlyPassSettles | pkg/apicapi/apicapi.go:300-383 | a pass before the full sync, and then the full sync, settles or queues a DN iff not: the pass left it alone, it is out of date, and the snapshot had it right |
| SyncProtocol.LostBeforeFullSync | pkg/apicapi/apic_sync.go:507-512 | a reachable drained state that lost an edit reconciled before the full sync |
| SyncProtocol.LostByLeftover | pkg/apicapi/apicapi.go:503-512 | a reachable drained state that lost an object to a notification kept over a reconnect |
| SyncProtocol.LostByRefusedPost | pkg/apicapi/apicapi.go:334-403 | a reachable drained state that kept an unwanted object because a refused POST's marker reads as a deletion |
| Prepare.SortAscending | pkg/apicapi/apic_sync.go:290 | sorting yields the same objects in DN order |
| Prepare.SetTag | pkg/apicapi/apic_types.go:235-264 | the backward loop sets the last of our tags it meets, drops foreign ones behind it and appends a tag when it found none and the object has a DN |
| Prepare.SetTagIsReadIff | pkg/apicapi/apic_types.go:211-264 | GetTag reads back what SetTag set iff there was one own tag, or none and a DN, or several and the first already had the value |
| Prepare.SecondTagIsNotRead | pkg/apicapi/apic_types.go:211-264 | an object with two own tags whose first one is read after the last one was set |
| Prepare.NormalizeBody | pkg/apicapi/apic_metadata.go:63-147 | the normalizers rewrite exactly the port, protocol and MAC attributes of their class |
| Prepare.PortNames | pkg/apicapi/apic_metadata.go:29-38 | the eight named ports and their names; any other port stays |
| Prepare.ProtoNames | pkg/apicapi/apic_metadata.go:47-61 | the thirteen named protocols and their names; any other protocol stays |
| Prepare.NormalizedIs | pkg/apicapi/apic_metadata.go:90-147 | each normalizer's port, protocol and MAC attributes by name; every other attribute stays |
| Prepare.NormalizeTwice | pkg/apicapi/apic_metadata.go:63-147 | normalizing is idempotent |
| Prepare.PrepareApicSliceTag | pkg/apicapi/apic_sync.go:289-312 | the recursive preparation equals sorting, tagging, marking and normalizing every depth |
| Prepare.PrepareWorks | pkg/apicapi/apic_sync.go:289-312 | any input ends up in DN order at every depth, with the owner mark and normalized; and with the tag on every object, if none carried two own tags |
| Prepare.PrepareTwiceIff | pkg/apicapi/apic_sync.go:289-312 | preparing twice is preparing once iff at every depth, once tagged and in order, the last tag child is ours and has the value |
| Prepare.RetagStaysIff | pkg/apicapi/apic_types.go:235-264 | setting the tag leaves a child list alone iff its last tag child is ours and already has the value |
| Prepare.PrepareIsIdempotent | pkg/apicapi/apic_sync.go:289-312 | preparing twice is preparing once for objects that carry no tag, or one of ours |
| Prepare.PreparedMeetsDiff | pkg/apicapi/apic_sync.go:289-312 | prepared objects meet the merge's precondition at every depth iff tagging leaves siblings with distinct names |
| Prepare.OwnTagsMeetDiff | pkg/apicapi/apic_sync.go:289-312 | so they do when they carry no tag, or one of ours, and no name is repeated or equal to that of the tag to come |
| Prepare.BuiltObjectsConverge | pkg/apicapi/apic_types.go:316-324 | objects built with all schema attributes and then prepared are in place after one diff round |
| RespClasses.Visit | pkg/apicapi/apicapi.go:1079-1090 | the recursive walk ends on cyclic class graphs; what it adds is reachable and closed under children |
| RespClasses.VisitedIsReachable | pkg/apicapi/apicapi.go:1079-1090 | from nothing visited, the visited classes are exactly the reachable ones |
| RespClasses.ComputeRespClasses | pkg/apicapi/apicapi.go:1092-1109 | the reachable classes other than the targets, once each, then the tag class |
| Snat.ExpandPortRange | pkg/util/snat.go:49-55 | consecutive blocks of the given size from the start of the range, the last port unused, and at most one block's worth of ports left before it |
| Snat.ExpandPortRanges | pkg/util/snat.go:45-61 | the blocks of all ranges, sorted by start; pairwise disjoint when the ranges are |
| Snat.FreeBlockExists | pkg/controller/snatglobalinfo.go:451-462 | with fewer nodes than blocks the scan finds a block no node starts at |
| Snat.ChooseFailsIff | pkg/controller/snatglobalinfo.go:440-474 | allocation fails iff there is no block or each candidate IP carried as many nodes as blocks when its turn came |
| Snat.ChooseIsAvailable | pkg/controller/snatglobalinfo.go:440-474 | a chosen block is one of the list, on a candidate IP, and disjoint from every other node's range there when that IP was looked at |
| Snat.ChooseIs | pkg/controller/snatglobalinfo.go:440-474 | the choice is that of the first candidate with room: the first block on an unused IP, the range the node already has, or else the free block of least index |
| Snat.AllocateIpSnatPortRange | pkg/controller/snatglobalinfo.go:440-474 | the loop over candidate IPs makes that choice, whatever others do to the cache between two candidates, and fails iff no candidate has room |
| Snat.FindFree | pkg/controller/snatglobalinfo.go:457-462 | finds the first block whose start is not taken |
| Snat.Controller.UpdateGlobalInfo | pkg/controller/snatglobalinfo.go:387-408 | commits one entry under its IP and node |
| Snat.CommittedIs | pkg/controller/snatglobalinfo.go:387-408 | entry by entry: the node's entry on the IP has the given MAC, range and policy, every other entry stays |
| Snat.CommitKeeps | pkg/controller/snatglobalinfo.go:387-408 | committing an available block keeps all ranges on an IP disjoint |
| Snat.Controller.DeleteNode | pkg/controller/snatglobalinfo.go:476-505 | removes the node's entries and emptied IPs up to a failing status update; asks for a retry iff one fails; otherwise the node is gone everywhere |
| Snat.DroppedIs | pkg/controller/snatglobalinfo.go:476-505 | entry by entry: exactly the node's entries on the processed IPs go |
| Snat.Controller.ClearSnatGlobalCache | pkg/controller/snatglobalinfo.go:534-564 | clears IP by IP and stops at the first absent one, or at the node's first entry |
| Snat.NodeClearedIs | pkg/controller/snatglobalinfo.go:534-564 | entry by entry: a clear for one node takes that node's first entry, unless an absent IP comes before it, and nothing else |
| Snat.PolicyClearedIs | pkg/controller/snatglobalinfo.go:534-564 | entry by entry: a whole-policy clear takes the IPs before the first absent or repeated one |
| Snat.ClearsAllIff | pkg/controller/snatglobalinfo.go:534-564 | a whole-policy clear removes all its IPs iff no absent or repeated IP precedes a cached one |
| Snat.ClearStopsEarly | pkg/controller/snatglobalinfo.go:557-562 | a policy whose first IP has no allocation keeps those of its second |
| Snat.StepKeeps | pkg/controller/snatglobalinfo.go:387-564 | choosing, committing, node deletion, policy clearing, saving and restarting keep the cache well formed and a held choice available |
| Snat.RunIsDisjoint | pkg/controller/snatglobalinfo.go:387-564 | in every state of every run, restarts from an older save included, nodes on one IP hold pairwise disjoint blocks of the list |
| Snat.RangeIsKept | pkg/controller/snatglobalinfo.go:387-564 | over any run a node's range on an IP stays the same until a restart, or until a node deletion or clear that is meant to takes the entry away |
| Snat.RestartRestores | pkg/controller/snats.go:305-323 | over any run a restart brings back the cache as last saved iff the MAC table leads from every entry to its node |
| Snat.Controller.Save | pkg/controller/snatglobalinfo.go:346-353 | the saved lists hold exactly the cached entries, filed by node |
| Snat.Controller.Rebuild | pkg/controller/snats.go:305-323 | each rebuilt slot holds a saved entry of that IP whose MAC belongs to that node, and no saved entry's slot is missing |
| Snat.RebuildIsIdentity | pkg/controller/snats.go:305-323 | a restart restores the cache iff every entry's MAC maps to the node that held it |
| Snat.UnknownMacMovesEntry | pkg/controller/snats.go:305-323 | the entry of a node without NodeInfo is rebuilt under the empty node name |
| Snat.RebuiltIsGood | pkg/controller/snats.go:305-323 | whatever the MAC table says, a rebuilt cache keeps nodes on one IP disjoint |
| VlanList.NormalizeVlanList | pkg/hostagent/nadvlanmap.go:88-131 | the nested loops reject a list with a bad element and otherwise print its elements in order |
| VlanList.ReadRange | pkg/hostagent/nadvlanmap.go:98-113 | two numbers with a dash and blanks anywhere around them are the ids from one to the other, printed without blanks, and rejected iff they are in the wrong order |
| VlanList.ReadNumber | pkg/hostagent/nadvlanmap.go:114-120 | a number with blanks around it is that id, printed without them |
| VlanList.NormalizingKeepsIds | pkg/hostagent/nadvlanmap.go:88-131 | what the controller would read from the raw text it reads from the normalized one, the same ids and blocks in order |
| VlanList.ContentsAre | pkg/controller/nodefabricnetworkattachments.go:266-275 | a list without brackets is read whole, one in brackets between them, and an unmatched bracket is an error |
| VlanList.ErrorKeepsPrefix | pkg/controller/nodefabricnetworkattachments.go:276-305 | an error keeps what was read before the first bad element |
| GoStrings.AtoiItoa | pkg/hostagent/nadvlanmap.go:101-108 | reading a printed number, with or without sign, gives it back up to 64 bits |
| VlanList.ParseNodeFabNetAttVlanList | pkg/controller/nodefabricnetworkattachments.go:265-306 | the parser's ids, blocks and error as a function of the text, partial results on error included |
| VlanList.Ids | pkg/controller/nodefabricnetworkattachments.go:292-294 | a range has one id per number, the k-th being its start plus k |
| VlanList.Expand | pkg/controller/nodefabricnetworkattachments.go:292-294 | the loop appends exactly those ids |
| VlanList.PrintedElem | pkg/hostagent/nadvlanmap.go:95-121 | the controller reads a printed element as the agent did iff its upper id is at most 4095 |
| VlanList.AgentAndControllerAgree | pkg/hostagent/nadvlanmap.go:88-131 | parsing a printed list succeeds iff the list was not empty and its ids are at most 4095, and yields the agent's ranges in order |
| SharedEncap.Controller.ReleaseVlans | pkg/controller/nodefabricnetworkattachments.go:406-430 | drops the network from each released VLAN and empty VLANs from the cache, or hits a missing entry |
| SharedEncap.ReleasePanicsIff | pkg/controller/nodefabricnetworkattachments.go:406-430 | a release hits a missing entry iff a released VLAN is uncached, or occurred before and had no other network; otherwise it drops exactly the network's references |
| SharedEncap.PanicsIff | pkg/controller/nodefabricnetworkattachments.go:595-710 | an update or delete panics iff it releases such a list |
| SharedEncap.Controller.Reference | pkg/controller/nodefabricnetworkattachments.go:548-568 | adds the network to each of its VLANs |
| SharedEncap.Controller.UpdateNodeFabNetAttObj | pkg/controller/nodefabricnetworkattachments.go:595-637 | an update acts as the specified step, unparsable lists and changed lists included |
| SharedEncap.Controller.DeleteNodeFabNetAttObj | pkg/controller/nodefabricnetworkattachments.go:673-710 | a delete acts as the specified step: the network goes with its last node |
| SharedEncap.StepKeeps | pkg/controller/nodefabricnetworkattachments.go:595-710 | every step that returns keeps the cache an exact inverse, whatever the lists |
| SharedEncap.RunIsExact | pkg/controller/nodefabricnetworkattachments.go:595-710 | after any run that does not panic a VLAN is cached iff some network lists it, with exactly those networks |
| SharedEncap.NodesAre | pkg/controller/nodefabricnetworkattachments.go:595-710 | after a run a network has a node iff the last readable operation naming both is an update |
| SharedEncap.NetsAre | pkg/controller/nodefabricnetworkattachments.go:595-710 | a network is cached iff some node uses it, with the list of its last readable update |
| SharedEncap.SharedAre | pkg/controller/nodefabricnetworkattachments.go:595-710 | a VLAN is cached with a network iff some node uses the network and that list names the VLAN |
| SharedEncap.RunPanicsIff | pkg/controller/nodefabricnetworkattachments.go:595-710 | a run panics iff it reaches an operation that releases a clashing list |
| SharedEncap.DuplicateFreeRuns | pkg/controller/nodefabricnetworkattachments.go:595-710 | no run whose lists name each VLAN once panics |
| SharedEncap.RepeatedVlanPanics | pkg/controller/nodefabricnetworkattachments.go:406-430 | a list that names a VLAN twice panics when it is released |
| ClassIds.Server.constructor | pkg/gbpserver/server.go:322-336 | a restart takes over the saved ids and marks exactly them used |
| ClassIds.Server.WriteState | pkg/gbpserver/server.go:367-375 | a successful write saves the current ids |
| ClassIds.Server.GetEncapClass | pkg/gbpserver/server.go:338-357 | keeps or draws an unused id within the attempts; fatal iff a new URI's draws all hit used ids |
| ClassIds.DrawIsFirst | pkg/gbpserver/server.go:338-357 | the id given out is that of the first draw that hits an unused one |
| ClassIds.Server.FreeEncapClass | pkg/gbpserver/server.go:359-365 | frees the URI's id and keeps the invariant, also for an unknown URI |
| ClassIds.StepKeeps | pkg/gbpserver/server.go:322-375 | allocation, release and restart keep ids unique, in range and marked, also when writes fail |
| ClassIds.RunIsGood | pkg/gbpserver/server.go:322-375 | that holds in every state of every run |
| ClassIds.EncapsAreDistinct | pkg/gbpserver/gbp.go:35-50 | encapsulation ids are distinct, fit 32 bits signed, and the routing domain's class is never given out |
| ClassIds.KeepsClassIff | pkg/gbpserver/server.go:338-375 | a step leaves a URI's class alone iff it does not free it and does not restart from a state saved without it |
| ClassIds.KeptIff | pkg/gbpserver/server.go:322-375 | over any segment of a run a URI keeps its class iff no step frees it and every restart comes after a write that reached the driver |
| ClassIds.KeptUntilFreed | pkg/gbpserver/server.go:322-375 | a class that was written is kept over any number of restarts until it is freed, whatever later writes do |
| ClassIds.UnsavedClassIsGivenAgain | pkg/gbpserver/server.go:367-375 | a run in which the driver refuses a write, a restart loses the class and the next URI gets it |
| EscapeName.EscapeName | pkg/gbpserver/gbp_common.go:474-508 | the loop applies the four replacements of the chosen direction in table order |
| EscapeName.EscapedChars | pkg/gbpserver/gbp_common.go:474-508 | the four characters and the sequence each becomes; any other stays |
| EscapeName.EscapedConcat | pkg/gbpserver/gbp_common.go:474-508 | escaping works character by character |
| EscapeName.EscapedIsOnePass | pkg/gbpserver/gbp_common.go:474-508 | the sequential replacements act as one simultaneous pass |
| EscapeName.UnescapedIsOnePass | pkg/gbpserver/gbp_common.go:474-508 | so do the sequential replacements of the undo |
| EscapeName.UndoInvertsIff | pkg/gbpserver/gbp_common.go:474-508 | undo gives a name back iff the name holds none of the four escape sequences |
| EscapeName.CollideIff | pkg/gbpserver/gbp_common.go:474-508 | two names have the same escaped form iff undoing makes them equal |
| EscapeName.EscapedIsInjective | pkg/gbpserver/gbp_common.go:474-508 | distinct names free of escape sequences have distinct escaped forms |
| EscapeName.EscapeCollides | pkg/gbpserver/gbp_common.go:474-508 | a name with an escape sequence comes back as another name, and collides with it |
| ChildList.DelChild | pkg/gbpserver/gbp_common.go:379-385 | the loop over the old slice panics iff the last child is the URI and an earlier one is, too; otherwise it leaves the specified list |
| ChildList.KeptIs | pkg/gbpserver/gbp_common.go:379-385 | other children stay; the URI is gone iff it had no two neighbouring entries |
| ChildList.KeptOnce | pkg/gbpserver/gbp_common.go:379-385 | on a list without repetitions nothing panics and the URI is gone |
| Contracts.ContractsLieOutside | pkg/gbpserver/policy.go:438-441 | no contract's URI lies below a group's, whatever the names |
| Contracts.MadeIsTitled | pkg/gbpserver/policy.go:59-68 | making a contract keeps the names of contracts the ones in their URIs |
| Contracts.GetContractUris | pkg/gbpserver/policy.go:470-491 | the set of contract URIs of the names, own tenant by default, all of them well-formed contract URIs |
| Contracts.ContractUriIs | pkg/gbpserver/policy.go:475-487 | a plain name means the own tenant, a name with a slash the tenant before it, and a second slash ends the name |
| Contracts.GroupUrisAre | pkg/gbpserver/policy.go:438-441 | the URIs of a group and of its references, spelled out |
| Contracts.MoDb.GetRefUris | pkg/gbpserver/gbp.go:140-161 | fails iff a child is missing or a reference has no target; otherwise maps exactly the targets to references that point at them |
| Contracts.AddTargets | pkg/gbpserver/gbp.go:163-183 | adding a reference adds its target and loses at most the target of a reference with the same URI |
| Contracts.AddKeeps | pkg/gbpserver/gbp.go:163-183 | adding a reference touches nothing else, and repeats a child iff its URI was taken |
| Contracts.DropKeeps | pkg/gbpserver/policy.go:451-457 | deleting a reference removes exactly its target and touches nothing else; without repetitions nothing panics or is left behind |
| Contracts.ReferencedAreDistinct | pkg/gbpserver/gbp.go:163-183 | contracts with the same escaped name are never referenced together |
| Contracts.MoDb.SetContracts | pkg/gbpserver/policy.go:443-468 | the two loops do what the specification says for the order in which they met the entries |
| Contracts.SetKeeps | pkg/gbpserver/policy.go:443-468 | in any order: fails unchanged iff a child is missing; else succeeds iff every contract to add exists; everything else is untouched; on success targets are exactly the wanted ones, and no child is repeated, iff these have distinct escaped names |
| ContractRuns.StepKeeps | pkg/gbpserver/policy.go:443-468 | reconciling one subject, and any change to other objects, keeps both subjects' references named after their contracts |
| ContractRuns.RunKeeps | pkg/gbpserver/server.go:553-609 | that holds in every run, also when contracts are deleted and made again in between |
| ContractRuns.RunIsClean | pkg/gbpserver/policy.go:443-468 | while no call wants two contracts with one escaped name, nothing panics and no child is missing or repeated |
| ContractRuns.StuckForever | pkg/gbpserver/gbp.go:144-149 | once a child is missing the group never changes again |
| ContractRuns.StuckFails | pkg/gbpserver/gbp.go:144-149 | every call fails and changes nothing while a child is missing |
| ContractRuns.SameNameInTwoTenants | pkg/gbpserver/gbp.go:163-183 | wanting the equally named contracts of two tenants succeeds, references one of them and lists it twice |
| ContractRuns.SecondCallPanics | pkg/gbpserver/gbp_common.go:379-385 | wanting neither of them then panics |
| ContractRuns.SecondCallDangles | pkg/gbpserver/gbp_common.go:379-385 | with another reference behind them it leaves a child without object instead |
| ContractRuns.TwoCallRun | pkg/gbpserver/policy.go:443-468 | the two calls are a run from a valid database |
| TargetPorts.GetServiceTargetPorts | pkg/controller/services.go:1691-1705 | one entry per port key of the service, from the last port with it: its protocol, and its target port or, where it has none, its own number |
| TargetPorts.SameKeyIff | pkg/controller/services.go:1691-1705 | two service ports have the same key iff they agree in protocol and number |
| TargetPorts.ProtoKeys | pkg/controller/services.go:1691-1705 | keys of the three protocols spelled out; anything but UDP and SCTP is TCP |
| TargetPorts.Controller.UpdateTargetPortIndex | pkg/controller/network_policy.go:475-518 | the two loops withdraw the key from ports it left and register it at ports it gained |
| TargetPorts.UpdatedKeys | pkg/controller/network_policy.go:475-518 | membership after an update: the key moves between its old and new ports, everything else stays |
| TargetPorts.UpdateLeavesNoneUnused | pkg/controller/network_policy.go:492-494 | no entry without users is left behind |
| TargetPorts.RunIsExact | pkg/controller/services.go:1784-1851 | over any run the services at a port are exactly those the events leave alive with it, and entries exist only while used |
| TargetPorts.NumbersAreLatest | pkg/controller/network_policy.go:498-511 | over any run an entry has the port numbers that the last registration at its key brought |
| TargetPorts.PolicyStepIff | pkg/controller/network_policy.go:475-518 | a policy update keeps the policies exact iff the old ports it is given hold every port the policy leaves and no kept port where it is not registered |
| TargetPorts.PoliciesAreExactIff | pkg/controller/network_policy.go:1360-1364 | over any run the policies are exact in every state up to a point iff every policy update before it was told such old ports |
| TargetPorts.PoliciesAreExact | pkg/controller/network_policy.go:475-518 | in particular when each update names the ports registered before |
| TargetPorts.RegisteredUntilNamed | pkg/controller/network_policy.go:475-518 | a registration lasts until an update of its policy names the port as old and not as new |
| TargetPorts.DeletedPolicyStays | pkg/controller/network_policy.go:1429-1430 | a policy with a named port, deleted after its last pod, is withdrawn from nothing and stays registered |

## Left out

- The special case for service-graph attachments, which edits the wanted object during comparison (pkg/apicapi/apic_sync.go:41-49).
- An object is one class with one body; the source's objects are maps that hold one entry.
- Prepare.PrepareApicSliceTag: works on values; that the source updates shared objects in place, and the order of siblings with equal DNs, is not captured. Upper-casing is modelled for ASCII only.
- SyncProtocol: objects are childless; update and delete hooks, subtree roots of subscriptions, rate limits and time are left out; subscribing and taking the snapshot are one step.
- FullSync.FullSyncCovers: top-level deletes only; `FullSync.DeletedIff` has all deletes. Tags are a function of the key instead of a hash.
- FullSync.SecondFullSync: that the second snapshot's objects are filed is a premise; posted objects carry their key's tag by `Prepare.PrepareWorks`.
- FullSync.FullSyncIsTouched: childless, deletable objects outside containers, as in the protocol.
- Snat.ExpandPortRange: excludes exactly the calls whose loop does not end, a block size of zero or less on a range of two or more ports.
- Snat: changing the block list while allocations exist is not modelled, nor is an entry without port range.
- SharedEncap: global-scope mode only; the pods of a network, generated configuration objects and mutexes are not modelled.
- Contracts.MoDb.SetContracts: what a panic leaves of the child list is not modelled, since the process ends.
- ContractRuns: deleting or re-making the group itself, and changes to its other children by the inventory, are not steps.
- ClassIds: a fatal allocation leaves the state as it was; what the process does after it is not modelled.
- HTTP, websocket, signing, login, JSON, etcd, Kafka, gRPC and Kubernetes informers: only their outcomes appear.
- TargetPorts: the ports of a policy are inputs; how they are computed from pods and port names is not modelled.
- Service IP allocation, OpFlex device clean-up, the subnet index of network policies, pod and host IP pools, Istio, operator, netflow, QoS, ERSPAN and routing-domain handlers would add easy members or rest on packages outside the model.
