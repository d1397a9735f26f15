# Verification of the IronCore CSI driver

This project models the IronCore CSI driver in Dafny and proves properties of the model. The driver attaches IronCore
volumes to machines (controller service), mounts them on nodes (node service) and sizes them. The model follows those
three parts.

**Attachments** (`Attachments`, `StrategicMerge`, `AttachmentOrder`, `Clusters`, `AttachmentProtocol`,
`PublishResults`, `SingleAttachment`, `SingleAttachmentExact`, `Controller`). A machine carries an ordered list of
named attachments. A publish or unpublish call reads the machine, edits the list it has read, and sends the difference
to the API server. `AttachmentProtocol` is the state machine of any number of such calls, interleaved request by
request, each request free to fail and each failing patch free to have been applied all the same, while devices are
assigned, volumes change, nodes come and go, machines are added and removed and others edit their lists. The handlers
themselves are the methods of `Controller.ControllerServer`; what a handler can do on its own is proved to be exactly
what the protocol can do on its own.

**Mounts** (`MountTable`, `NodeProtocol`, `MountRefinement`, `NodeRestoration`, `NodeEffects`, `NodeLifecycle`,
`NodeServers`, `MountOptions`, `Capabilities`). A node has a mount table, a list of (device, path) lines, and a set of
existing paths. `NodeProtocol` is the state machine of any number of Stage, Publish, Unpublish and Unstage calls,
interleaved system call by system call, any of which may fail with or without its effect. The handlers are the methods
of `NodeServers.NodeServer`, related to the protocol in the same way.

**Sizes** (`Int64`, `Capacity`, `Expansion`, `ExpansionProtocol`, `Placement`, `ControllerClients`, `Polling`). Sizes
are int64 values with Go's wrap-around and its division towards zero. `ExpansionProtocol` is the state machine of any
number of interleaved expansions of one volume; the methods of `ControllerClients` call the controller's handlers one
after the other.

## What the model assumes

- A patch computed with `StrategicMergeFrom` is merged by attachment name, field by field. The order the API server
  gives the merged list is left open, except that a patch against an unchanged list yields the wanted list.
  `StrategicMerge.PatchHasOutcome` shows that such an outcome always exists. The API type and the server are not part
  of this model.
- Attachment lists have distinct names, as merging by name requires; an entry whose name has the form the driver gives
  (`<volume>-attachment`) refers to that volume; a machine that appears brings no driver-made attachment; others edit
  the list of a machine as they like, but leave the entries under such names as they are; a device is assigned once.
- A request takes effect, if at all, before the call that made it returns.
- Calls on one volume come one at a time (requested at `cmd/main.go:87-88`) where a statement says so: the attachment
  lists need no such assumption, `SingleAttachment` and `Expansion` do, and `NodeProtocol` needs it per path.
  `ExpansionProtocol.OverlappingExpansionsShrink` and `NodeProtocol.OverlappingPublishesStack` show what happens
  otherwise.
- The mount probe is exact, paths are canonical, the paths handed to the driver do not lie beneath one another, nobody
  else mounts at or beneath them or unmounts them (or, in `NodeRestoration`, makes or deletes files there),
  directories on the way to a path are made before the path, and a bind mount shows the device mounted at its source.
  `NodeProtocol.DeletableAfterUnmount` shows that the nesting assumption is needed. A path with something mounted at
  or beneath it cannot be deleted, only emptied.
- The backoff loop of `k8s.io/apimachinery` checks for cancellation, polls, and sleeps only if another poll is due.

## Where code and documentation part

- `pkg/driver/controller.go:32-34` says that a volume can only be attached to a single node at a time. The code does
  not ensure it. A publish breaks it exactly if its machine has a node and the volume is on another machine whose node
  exists (`SingleAttachmentExact.CallBreaksSingle`). In interleaved runs a step breaks it exactly if it makes the
  volume live on one machine, by a publish that takes effect or by a node that joins, while it is live on another
  (`SingleAttachmentExact.StepBreaksSingle`, and `SingleAttachmentExact.RunStaysSingle` for whole runs). A caller that
  waits for unpublish, together with nodes that do not join while their machine has the volume, avoids such steps
  (`SingleAttachment.AtMostOneLiveMachine`). Neither is enough alone: `SingleAttachment.CarelessCallerAttachesTwice`
  and `SingleAttachment.LateNodeAttachesTwice` are runs that break the claim. The second needs no vanishing node:
  unpublishing answers success for a node that does not exist (yet).
- `getVolSizeBytes` succeeds with a negative size exactly for the requests above 2^63 - 1 GiB, among those that are
  not negative (`Capacity.GetVolSizeBytesHonoursRange`, and `ControllerClients.CreateTooLarge` through the handler).
- `ControllerExpandVolume` does not look at the limit of the capacity range: `ControllerClients.LimitBroken` says when
  an accepted expansion breaks it, `ControllerClients.ExpandBeyondLimit` is a case.
- A repeated `CreateVolume` writes the originally requested size, and so shrinks the volume exactly if an expansion
  has taken it beyond that size (`ControllerClients.RepeatedCreateShrinks`; `ControllerClients.CreateExpandCreate` is
  a case).
- `NodeUnstageVolume` and `NodeUnpublishVolume` are not idempotent, as the CSI specification asks
  (`NodeEffects.UnstageTwice`, `NodeEffects.UnpublishTwice`). A failed unstage can be completed by a retry exactly if
  it has not unmounted; otherwise every further attempt is refused (`NodeEffects.FailedUnstageIsStuck`).

## Model

| member | source | states |
|---|---|---|
| Int64.Wrap | pkg/utils/util.go:32-34 | int64 results are the representative modulo 2^64, and the value itself when it fits |
| Capacity.RoundUpBytesIsWhole | pkg/utils/util.go:12-14 | for every int64 the final multiplication does not overflow and the result is whole GiB |
| Capacity.RoundUpBytesExact | pkg/utils/util.go:12-14 | the result is the least multiple of GiB not below the request exactly on the stated range, which contains all requests from 0 to 2^63 - 1 GiB |
| Capacity.RoundUpSizeWraps | pkg/utils/util.go:32-34 | the addition wraps exactly above 2^63 - 1 GiB |
| Capacity.RoundUpBytesWraps | pkg/utils/util.go:12-14 | a wrapped rounding is negative, an unwrapped one is never below the request |
| Capacity.RoundUpBytesMonotone | pkg/utils/util.go:12-14 | rounding is monotone, idempotent and stays in range on requests that can be rounded |
| Capacity.GaloisConnection | pkg/utils/util.go:18-30 | RoundUpGiB(x) <= g iff x <= GiBToBytes(g) |
| Capacity.GiBConversions | pkg/utils/util.go:12-30 | BytesToGiB undoes GiBToBytes, and GiBToBytes after RoundUpGiB is RoundUpBytes |
| Capacity.BytesToGiBTruncates | pkg/utils/util.go:22-25 | BytesToGiB rounds towards zero, for every int64 |
| Capacity.GetVolSizeBytesMeetsRange | pkg/driver/controller.go:519-532 | success iff some whole-GiB size satisfies the range, the least such size is chosen, and no range means 10 GiB |
| Capacity.GetVolSizeBytesHonoursRange | pkg/driver/controller.go:519-532 | above 2^63 - 1 GiB it succeeds with a negative size, whatever the limit; for every int64 request a successful answer satisfies the range iff the request can be rounded |
| Capacity.CreatedSize | pkg/driver/controller.go:519-532 | without a range the size is 10 GiB, with one that can be rounded the least whole-GiB size that satisfies it |
| Capacity.DeviceStatsConserveBytes | pkg/driver/node.go:404-420 | on a filesystem that fits int64 nothing wraps, available and used bytes are their blocks times the block size, used plus free is total, used plus available is at most total, with equality iff no block is reserved |
| Capacity.DeviceStatsReport | pkg/driver/node.go:404-420 | for all counters, available and total inodes are the free and total counts, used inodes their difference, bytes are blocks times block size modulo 2^64 |
| Capacity.DeviceStatsConserveModulo | pkg/driver/node.go:404-420 | used plus free is total modulo 2^64 for all counters, bytes and inodes |
| Attachments.AttachmentNameInjective | pkg/driver/controller.go:227 | different volumes have different attachment names |
| Attachments.IndexFindsFirst | pkg/driver/controller.go:602-606 | the index is negative iff no entry has the name, and otherwise points at the first that has |
| Attachments.AttachAppends | pkg/driver/controller.go:227-239 | publishing leaves the list alone if an entry is named `<volume>-attachment`, and otherwise appends one that refers to the volume and has no device |
| Attachments.DetachCutsFirst | pkg/driver/controller.go:291-294 | unpublishing cuts out the first entry so named, if there is one, and leaves the order of the others |
| Attachments.AttachKeepsOthers | pkg/driver/controller.go:229-239 | publishing leaves the list duplicate-free, makes the volume's entry if it is missing, and changes what is filed under no other name |
| Attachments.DetachIsWithout | pkg/driver/controller.go:291-294 | deleting the first entry of the name deletes all entries of the name |
| Attachments.DetachKeepsOthers | pkg/driver/controller.go:291-294 | unpublishing removes the volume's entry and changes what is filed under no other name |
| Attachments.SameEntriesIsPermutation | pkg/driver/controller.go:240 | lists with the same entry under every name are permutations of each other |
| StrategicMerge.PublishPatchMerges | pkg/driver/controller.go:229-243 | a publish patch computed from any stale list has the effect of publishing on the live list |
| StrategicMerge.UnpublishPatchMerges | pkg/driver/controller.go:291-298 | an unpublish patch computed from any stale list has the effect of unpublishing on the live list |
| StrategicMerge.PatchHasOutcome | pkg/driver/controller.go:240 | for any read, wanted and live list there is an outcome the API server can choose |
| AttachmentOrder.AttachedIffHolds | pkg/driver/controller.go:229-239 | after any sequence of edits a volume is on the list iff its history says so |
| AttachmentOrder.OrderAfterEdits | pkg/driver/controller.go:227-239 | after any sequence of edits the list is the initial entries never removed, in order, then the lasting publishes in order of first publish since removal |
| AttachmentOrder.UnpublishUndoesPublish | pkg/driver/controller.go:291-294 | unpublishing after publishing restores the list, order included, iff the volume was not attached before |
| Clusters.ScanFindsOwnEntry | pkg/driver/controller.go:566-578 | in a duplicate-free list the scan finds the device of the attachment itself |
| Clusters.ValidatedName | pkg/driver/controller.go:562-581 | a device name is found iff the volume has access attributes and an entry of the name has its device; it shows the first such device and that volume's handle |
| Clusters.DevicePathShows | pkg/driver/controller.go:570-576 | byte by byte, the path is the virtio link prefix, then device, dash and handle, cut off after 20 bytes |
| Clusters.DeviceReadBack | pkg/driver/controller.go:570-576 | the truncation to 20 bytes never cuts a usable device: it can be read back from the path |
| Clusters.HandleReadBack | pkg/driver/controller.go:570-576 | behind the first dash stands the whole handle if it fits, and otherwise as many of its bytes as 20 leave room for |
| Clusters.DevicePathDeterminesDevice | pkg/driver/controller.go:570-576 | equal paths have equal devices, whatever the handles, for dash-free devices of 1 to 19 bytes |
| Clusters.LongDevicesCollide | pkg/driver/controller.go:570-576 | devices of 20 bytes or more yield equal paths iff their first 20 bytes agree |
| AttachmentProtocol.CallStepRefinesOp | pkg/driver/controller.go:217-301 | what one request of a call does to the machines is what the atomic operation does, whatever was read before |
| AttachmentProtocol.InterleavingsAreAtomic | pkg/driver/controller.go:217-301 | in every run each machine's list is duplicate-free and a permutation of what the atomic run of the log leaves |
| AttachmentProtocol.LogHasEveryCallOnce | pkg/driver/controller.go:217-301 | every successful call occurs in that log, exactly once, between its begin and its end |
| AttachmentProtocol.LogRespectsTime | pkg/driver/controller.go:217-301 | a call that ended before another began comes first in that log |
| PublishResults.OpKeepsAttachment | pkg/driver/controller.go:229-243 | only taking the volume off the machine removes its attachment or changes a device it already has |
| PublishResults.ExactlyOneAttachment | pkg/driver/controller.go:229-260 | once a publish has taken effect, failed or not, there is exactly one attachment for the volume until it is taken off |
| PublishResults.CheckAnswers | pkg/driver/controller.go:246-269 | a call returns a path iff the volume is available and has access attributes and its attachment has its device in the list the call holds; the path shows that device and the volume's own handle |
| PublishResults.PublishedPathIsOwn | pkg/driver/controller.go:229-269 | in every reachable state a returned path shows, until the volume is taken off, the device on the machine and a handle that this volume had in the run |
| PublishResults.PublishedPathsDiffer | pkg/driver/controller.go:257-269 | in every reachable state two volumes published on a machine hold different device paths if the machine's devices are distinct and usable |
| PublishResults.RetryConverges | pkg/driver/controller.go:229-269 | from every reachable state on, a publish begun while attachment and volume are ready, and stay so, never patches, whatever other calls and steps come between its requests; its next request can be made and either fails or brings it one step nearer to returning the path that shows the machine's device and the volume's handle |
| PublishResults.ReadyKeepsDevice | pkg/driver/controller.go:229-269 | between two states in which the volume is ready on a machine its device there does not change |
| SingleAttachment.AtMostOneLiveMachine | pkg/driver/controller.go:32-39 | with a caller that waits for unpublish, and no node joining anew while its machine has the volume, a volume is on at most one machine whose node exists, in every reachable state |
| SingleAttachment.GainedByPublish | pkg/driver/controller.go:229-243 | a machine gains a volume only by a publish of it there that is under way |
| SingleAttachment.UnpublishTakesOff | pkg/driver/controller.go:274-300 | a successful unpublish leaves the volume off the machine, unless the node does not exist |
| SingleAttachment.CarelessCallerAttachesTwice | pkg/driver/controller.go:229-269 | without the wait there is a run with one call at a time that publishes an available volume on two live machines, both answered with a device path |
| SingleAttachment.LateNodeAttachesTwice | pkg/driver/controller.go:278-281 | with a caller that waits and no node ever leaving there still is a run that attaches a volume to two live machines |
| SingleAttachmentExact.CallBreaksSingle | pkg/driver/controller.go:217-301 | from at most one live machine, some run of a publish ends with two iff its machine has a node and the volume is live elsewhere, and then every successful one does; no run of an unpublish does |
| SingleAttachmentExact.StepBreaksSingle | pkg/driver/controller.go:217-301 | from every reachable state with at most one live machine, a step leaves at most one iff it does not make the volume live on one machine while it is live on another |
| SingleAttachmentExact.LiveAfterStep | pkg/driver/controller.go:217-301 | a volume is live on a machine after a step iff the step makes it so, or it was and the step does not end it by node, machine or unpublish |
| SingleAttachmentExact.RunStaysSingle | pkg/driver/controller.go:32-39 | a volume is on at most one live machine in all states of a run iff no step of the run brings a second one |
| SingleAttachmentExact.CarefulNeverBringsSecond | pkg/driver/controller.go:32-39 | the careful caller of the theorem above meets that condition |
| Controller.PublishEffectIsRun | pkg/driver/controller.go:217-270 | everything the publish handler does on its own is a run of the protocol |
| Controller.PublishRunIsEffect | pkg/driver/controller.go:217-270 | and the protocol on its own can do nothing else |
| Controller.UnpublishEffectIsRun | pkg/driver/controller.go:272-301 | everything the unpublish handler does on its own is a run of the protocol |
| Controller.UnpublishRunIsEffect | pkg/driver/controller.go:272-301 | and the protocol on its own can do nothing else |
| Controller.ControllerServer.ControllerPublishVolume | pkg/driver/controller.go:217-270 | success iff no request fails, machine and volume exist, the volume is available with access attributes and its attachment has its device; the answer shows the first such device and the volume's handle; nothing changes but, when no entry has the name, one appended entry |
| Controller.ControllerServer.ControllerUnpublishVolume | pkg/driver/controller.go:272-301 | success iff no request fails and the machine exists or its node does not; nothing changes but that the first entry of the name is cut out, always on success if the node exists |
| Controller.ControllerServer.ControllerExpandVolume | pkg/driver/controller.go:415-467 | success iff complete, no request fails, the class exists and allows expansion, and the rounded request is not below a stored size; then it is stored and answered and nothing else changes; each refusal with its error |
| Controller.ControllerServer.CreateVolume | pkg/driver/controller.go:50-171 | success iff the size is admissible, class and pool or topology given, no request fails and the wait arrives; which pool, filesystem and zone it answers; the named volume gets size and class and keeps its status, or is new and pending; all other volumes stay; which error answers which refusal |
| Controller.AppliedWrites | pkg/driver/controller.go:126-147 | applying one volume leaves all others, adds at most that one, and keeps its status |
| Placement.ZoneIsPreferred | pkg/driver/controller.go:545-560 | the zone is that of the first preferred term that names one, only if there is none that of the first requisite term, and otherwise empty |
| Placement.GetAZFromTopology | pkg/driver/controller.go:545-560 | the two loops find that zone |
| Expansion.SizeNeverDecreases | pkg/driver/controller.go:448-460 | over any run of expansions, for all int64 requests, the stored size never decreases |
| Expansion.WrittenSizes | pkg/driver/controller.go:448-460 | from a non-negative size on, every size written is whole GiB, at least the request, and larger than before |
| Expansion.AcceptedExpansionMeetsRequest | pkg/driver/controller.go:452-455 | an accepted expansion gives what was asked iff the request can be rounded, which a non-negative stored size guarantees |
| ExpansionProtocol.StaleExpansionShrinks | pkg/driver/controller.go:426-462 | in every run of interleaved, failing expansions the stored size never shrinks iff no applied patch is stale: one whose call wants more than it read and less than is stored (section 2 of RFC 7396) |
| ExpansionProtocol.OneByOneNeverShrinks | pkg/driver/controller.go:426-462 | calls that come one at a time apply no stale patch, and each does to the stored size what a call on its own may do |
| ExpansionProtocol.AloneAcceptsExactly | pkg/driver/controller.go:448-462 | a call on its own reaches its patch iff the rounded request is not below the stored size, and then the rounded request is stored |
| ExpansionProtocol.OverlappingExpansionsShrink | pkg/driver/controller.go:448-462 | for all sizes, two accepted calls that overlap can leave the lesser of two wishes |
| ControllerClients.LimitBroken | pkg/driver/controller.go:444-466 | the answer to an accepted expansion breaks the limit iff the request can be rounded and no whole-GiB size satisfies the range |
| ControllerClients.ExpandBeyondLimit | pkg/driver/controller.go:415-467 | expanding by required and limit 1 is answered with 1 GiB |
| ControllerClients.RepeatedCreateShrinks | pkg/driver/controller.go:126-147 | creation, any run of expansions, creation repeated: the size is the created one again, less than before iff some expansion took the volume beyond it |
| ControllerClients.CreateExpandCreate | pkg/driver/controller.go:126-147 | create with 1 GiB, expand to 2 GiB, create again: all succeed, and 1 GiB is stored |
| ControllerClients.CreateTooLarge | pkg/driver/controller.go:519-532 | every request above 2^63 - 1 GiB is created, with a negative size |
| Expansion.NodeConfirmsExpansion | pkg/driver/node.go:237-288 | after an accepted expansion a node whose device has the stored size answers the controller's capacity, at least the request, whenever its argument checks pass |
| Polling.WaitUntilReady | pkg/driver/controller.go:173-193 | success iff some poll within the budget sees the ready state and all before it merely saw it not ready; at most so many reads; the time slept |
| Polling.SleptIsGeometric | pkg/driver/constants.go:48-50 | the time slept after k rounds is 10 * (1.1^k - 1) seconds |
| Polling.ConfiguredDelay | pkg/driver/constants.go:48-50 | with the configured five rounds a wait that times out sleeps 4.641 seconds |
| Capabilities.IsValidVolumeCapabilities | pkg/driver/controller.go:583-600 | true iff every requested mode is single-node writer |
| MountOptions.PublishOptions | pkg/driver/node.go:115-128 | the options are the flags, "bind", the requested mode, and the flags that are neither "bind" nor "ro", in order; their last access mode is "ro" iff the request is read-only and no flag is "rw" |
| MountOptions.StageOptions | pkg/driver/node.go:67-78 | the options are the requested mode and then the flags, so the flags have the last word |
| MountTable.UnmountedCounts | pkg/driver/node.go:175-209 | an unmount takes away one mount at its path and leaves all other paths alone |
| MountTable.UnmountedTakesLatest | pkg/driver/node.go:175-209 | an unmount takes out the line of the latest mount at its path, or nothing if there is none |
| MountTable.DeviceAtIsFirst | pkg/driver/node.go:385-402 | the device looked up at a path is that of the first line that names it |
| MountTable.AncestorsAreAbove | pkg/driver/node.go:62-64 | making a directory makes exactly the directories above it as well |
| MountTable.MountRefinesMap | pkg/driver/node.go:385-402 | at managed paths, with one mount each, a mount on a free path is an update of the path-to-device map that the scan looks up |
| MountTable.UnmountRefinesMap | pkg/driver/node.go:385-402 | and an unmount is a removal from that map |
| MountTable.RepresentsSome | pkg/driver/node.go:385-402 | the mount table stands for such a map iff no managed path carries two mounts |
| MountTable.SecondMountBreaksMap | pkg/driver/node.go:58-61 | after a mount on a managed path the table still stands for a map iff the path was free, which is what the handlers probe for |
| NodeProtocol.StepStaysAtPath | pkg/driver/node.go:35-223 | a system call changes the mounts of its own path only, and never makes a second one there |
| NodeProtocol.DeletionReachesNoMount | pkg/driver/node.go:178-219 | in every run of interleaved, failing RPCs no managed path carries two mounts, and an RPC about to delete its path finds nothing mounted there or beneath |
| NodeProtocol.DeletableAfterUnmount | pkg/driver/node.go:208-216 | after an unmount the deletion is safe iff the path carried one mount and none lay beneath |
| NodeProtocol.OverlappingPublishesStack | pkg/driver/node.go:135-151 | two publishes of one path that both probe first stack two mounts, and the next unpublish stands ready to delete a mounted path |
| MountRefinement.RunRefinesMap | pkg/driver/node.go:35-223 | every run of interleaved, failing RPCs acts at the managed paths as a map from path to device that mounts bind and unmounts unbind, however others stack mounts elsewhere |
| NodeRestoration.LastRpcDecides | pkg/driver/node.go:35-223 | in every interleaved run, once the last RPC on a path has succeeded, the path carries one mount iff that was a stage or publish, and is new again after an unpublish or unstage |
| NodeRestoration.PathRestored | pkg/driver/node.go:35-223 | a path that was new and is unused, or last successfully unpublished or unstaged, is new when any interleaved run ends |
| NodeEffects.EffectsAreSoloRuns | pkg/driver/node.go:35-223 | the effects the four handlers are proved to have are exactly the solo runs of the protocol |
| NodeEffects.EffectRefinesMap | pkg/driver/node.go:35-223 | each RPC acts on the mount table as on the path-to-device map: a success has the map's effect, a failure has it or leaves the map alone |
| NodeEffects.UnstageTwice | pkg/driver/node.go:168-174 | unstaging again after a success fails and changes nothing |
| NodeEffects.UnpublishTwice | pkg/driver/node.go:198-201 | unpublishing again after a success fails and changes nothing |
| NodeEffects.RetryCompletes | pkg/driver/node.go:53-88 | any of the four RPCs, successfully repeated after a failed attempt, ends where one successful attempt would have |
| NodeEffects.FailedUnstageIsStuck | pkg/driver/node.go:168-181 | after a failed unstage a successful one is possible iff the mount is still there; otherwise every further unstage is refused and changes nothing |
| NodeLifecycle.TargetsShowDevice | pkg/driver/node.go:148-150 | after staging and publishing to any number of targets every target shows the staged device |
| NodeLifecycle.LifecycleRestores | pkg/driver/node.go:35-223 | stage, publish to any targets, unpublish in any order, unstage: the mount table is restored line by line, and the paths iff all parent directories existed |
| NodeLifecycle.LifecycleNeverRefused | pkg/driver/node.go:35-223 | no RPC of that lifecycle is refused: only a failing system call stops it |
| NodeLifecycle.RefusedCannotSucceed | pkg/driver/node.go:42-202 | an RPC is refused iff no success is open to it |
| NodeServers.NodeServer.RemoveAll | pkg/driver/node.go:178-219 | recursive deletion succeeds only where nothing is mounted, and it is recorded when it is let loose anywhere else |
| NodeServers.NodeServer.GetMountDeviceName | pkg/driver/node.go:385-402 | the scan answers the device of the first line of the mount table that names the path, or "" if none does |
| NodeServers.NodeServer.NodeStageVolume | pkg/driver/node.go:35-92 | success iff the device exists and no call fails; unavailable iff the device does not exist; a success changes nothing on a mounted path, and otherwise makes the directory and mounts that device there with the requested mode and the flags |
| NodeServers.NodeServer.NodePublishVolume | pkg/driver/node.go:94-154 | invalid argument iff something is missing; success iff complete and no call fails; a success changes nothing on a mounted path, and otherwise makes a missing directory and mounts there what is mounted at the staging path, with the options of the request |
| NodeServers.NodeServer.NodeUnstageVolume | pkg/driver/node.go:156-184 | success iff complete, no call fails and the path shows a device; a success takes out its one mount and everything that existed at or beneath it, and nothing else; with one mount and none beneath, the deletion meets no mount, and only then can it succeed |
| NodeServers.NodeServer.NodeUnpublishVolume | pkg/driver/node.go:186-223 | success iff complete, no call fails and the path exists; a success takes out its mount, if it has one, and everything that existed at or beneath it, and nothing else; with at most one mount and none beneath, the deletion meets no mount, and only then can it succeed |
| NodeServers.NodeServer.NodeExpandVolume | pkg/driver/node.go:225-289 | success iff the arguments are valid, no call fails and the device is not smaller than the request, and then its size is the answer; a device that is too small is an internal error; which argument error answers which argument, and which comes first |

## Left out

- Controller.ControllerServer.CreateVolume: does not store the pool with the volume, because forced apply shares that field with the scheduler, and does not model the creation time and content source it echoes.
- Controller.ControllerServer.ControllerPublishVolume: takes a patch to yield the wanted list also where a list has duplicate names, which the API server does not keep.
- NodeEffects.EffectsAreSoloRuns: leaves open whether a deletion succeeds on a path with mounts at or beneath it; the handlers say that it does not.
- NodeServers.NodeServer.NodeStageVolume: does not model formatting, filesystem types or symbolic links; the options of each mount are recorded, but the mount table does not hold them.
- Polling.WaitUntilReady: counts time in real numbers instead of nanoseconds, and counts a wait that is cancelled while sleeping as cancelled at the next poll.
- DeleteVolume, snapshot RPCs (beyond their wait loop, `pkg/driver/controller.go:375-395`, which is the same loop), ValidateVolumeCapabilities, capability listings, NodeGetInfo, the existence check of NodeGetVolumeStats and the Unimplemented stubs: single-branch facts.
- Server-side apply ownership, REST error detail, gRPC serving, request validation and the serial-access interceptor: replaced by requests that may fail.
- Patches that take effect after the call that sent them has returned.
- `cmd/`, `pkg/driver/driver.go`, `pkg/driver/identity.go`, `pkg/driver/version.go`: start-up and constant answers.
