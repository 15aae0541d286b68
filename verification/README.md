# wdm engine: a verified model

wdm installs and updates Docker Compose stacks. This project models the parts of
its engine where correctness spans several steps, and proves what they promise.

**Fresh install and its recovery.** `Machine` is a host: the stack directory as a
map from component paths to entries, the Docker networks, containers and volumes.
Every primitive may fail at any time, other processes may drop files into the
directory between steps, and every tree a kill could leave on the way is recorded.
`InstallRun`, `FreshInstall`, `Cleanup` and `Recovery` are the engine's steps on
that host; `Paths`, `FileTree`, `ArtifactLayout` and `WriteOrder` say which files an
install may touch and why their order does not matter.

**Host ports.** `PortPlanning` expands and substitutes, `PortRetry` is the bounded
loop against a probe whose answers may change with every call, `ComposePorts` reads
and rewrites `ports` entries as strings, `PortPreservation` keeps recorded ports over
updates, and `PublicBinds` is the check that a rewrite must not disturb.

**Catalog storage and updates.** `CatalogBundle` extracts and peeks at an archive's
members, `BundleAcceptance` says which archives extract, `CatalogStorage` stages, publishes, activates and undoes, and `CatalogUpdate`
ranges over sequences of applies. A run takes the set of steps that fail as an
argument, so a statement for all sets is one about faults anywhere. `CatalogDiff` is
the change summary.

**The .env editor and resource bands.** `EnvFile` edits lines and shows that this is a
map update, `ServiceKeys` keeps services apart, `Resources` chooses and overrides
limits, and `Reconfigure` changes them any number of times.

`Text` holds the string primitives with Go's 64-bit integers written out, and
`Wrappers` an option type.

## What does not hold, and exactly when it does

- A failing atomic write can have taken effect. `WriteFileAtomic` checks the mode and
  syncs the directory after its rename, so `StoreVerifiedCatalog`, whose documentation
  (internal/catalog/storage.go:139-142, 278-281) promises an unchanged manifest, can
  report failure, restore the templates, remove the snapshot and leave the new manifest
  active. `CatalogStorage.LateFaultKeepsNewManifest` is such a run and
  `CatalogStorage.FailureIsAllOrNothing` the exact condition. Because the manifest moved,
  the same update is refused ever after (`CatalogUpdate.NeverAppliedAgain`).
- Versions have one-second precision, the freshness test has not. A newer catalog from
  the installed one's own second is reported as available and refused by every apply
  (`CatalogUpdate.AppliedExactlyInAnotherSecond`, `CatalogUpdate.SameSecondIsNeverApplied`,
  and `CatalogUpdate.SameSecondExample` for one case).
- Recovery unlinks the lock before it checks that the directory is below the home
  directory and before it removes it. A refused or failed removal leaves a directory
  that later recoveries accept only when it is empty (`Recovery.ClearOrphan`,
  `Recovery.LocklessIsNotRecoverable`).
- A kill between creating the stack directory and locking it can leave a directory no
  later `--force` accepts: if another process put anything into it meanwhile, it is neither
  empty nor locked. `InstallRun.ForceAfterKill` has the exact condition and
  `InstallRun.DroppedBeforeLockIsRefused` a tree on which it fails.
- An override moves only the first planned binding with its host port but every loopback
  entry in the compose. They agree exactly under the condition of
  `PortPreservation.PlanAndComposeAgree`; `PortPreservation.SharedHostPortDisagrees` is a
  case where they do not.
- A port kept over an update may equal another binding's new default
  (`PortPreservation.PreservedPortMayCollide`); ports stay distinct exactly under the
  condition of `PortPreservation.DistinctAfterUpdate`. Recorded ports survive exactly when
  bindings sharing a new default agree (`PortPreservation.PreservationExact`).
- A failing install does not always remove its directory although every undo step works.
  `compose up` creates the directories its services bind-mount below the stack directory,
  and other processes may add entries; the cleanup removes planned paths only. Without
  undo faults the directory goes exactly when it holds nothing else
  (`Cleanup.CleanupFreshInstallArtifacts`, `InstallRun.FreshRun`).
- A bundle may hold both a file and one named like its temporary, but only in one order:
  the temporary's name first makes the later write fail (`BundleAcceptance.OrderCounts`).
- A fault inside the directory step itself can leave an empty stack directory that no
  cleanup covers (`InstallRun.FreshRun`, the `NotInstalled` outcome); recovery accepts it.
- The .env editor's documentation (internal/core/reconfigure_apply.go:282-289) speaks of
  adding a newline only where an appended line needs one. The code always ends the file in
  a newline, and puts a blank line first when the file was empty. `EnvFile.NewlineRuleExact`
  says when the two agree, `EnvFile.NewlineAddedUnasked` is a file on which they do not.

Assumptions, and where each claim starts:

- Project volumes from before the install are not restored by a rollback, which removes
  all of them; `NothingLeft` says that no new one remains.
- Kills are considered up to the manifest write, not inside the cleanup, which unlinks the
  lock while the user file is still there.
- Clean failures are claimed for runs whose directory step succeeded.
- The loopback test refuses the empty string, and accepted CPU values have no line break.
- A version string determines its whole second where a claim compares seconds.
- The .env rendered at install reads back with the limits chosen for it.

## Model

| member | source | states |
|---|---|---|
| `InstallRun.Install` | internal/core/install.go:159-294 | An install with the opt-in recovery: a clean failure leaves no stack directory; it commits exactly when, in this order, the run confirmed, found its ports free, deployed the project, captured the image pins and wrote the manifest, and reports the commit verified only after it read the status; without confirmation no Docker state changes; the flock is released unless an undo step fails; a commit has every file, the lock manifest, the user file and every declared network with its isolation and subnet in place; on a healthy host a forced install goes through from every tree recovery accepts and every network set its specs reconcile with, and it refuses and leaves alone every other tree |
| `InstallRun.ForceAfterKill` | internal/core/install.go:159-294 | Kill and recover, unless another process had raced in a lock: from any tree and any networks the killed install went through up to the manifest write, the next forced install of the plan on a healthy host commits exactly when the lock is there or the directory holds nothing else; containers running after the deployment make the host unhealthy |
| `InstallRun.DroppedBeforeLockIsRefused` | internal/core/recover.go:108-121 | A concrete tree a kill between mkdir and the flock can leave, with one foreign file and no lock, that no recovery accepts |
| `FreshInstall.TrailTreeIsKillSafe` | internal/core/install_phase_write.go:60-98 | Of the trees an install goes through, recovery accepts exactly those that have the lock or nothing but the directory |
| `InstallRun.FreshRun` | internal/core/install.go:240-294 | For every fault, refusal and interference: networks that were there stay as they were and no other project is touched; without confirmation no network, container or volume changes; a run commits exactly when it confirmed, found its ports free, deployed, captured the pins and wrote the manifest, and no run does these in another order; the flock is released unless an undo step fails; a clean failure leaves nothing; when no undo primitive fails, a failure is clean exactly when nobody put anything into the directory outside the planned paths; unless another process raced in a lock, every tree on the way is one recovery accepts or a lock-less directory of foreign entries from before the flock, and every network set is one the same plan can use again; without faults, refusals or collisions it commits |
| `InstallRun.InstallComposeProject` | internal/core/install_phase_deploy.go:553-579 | The joins of the deployed project succeed exactly when those of the planned writes did; with `InstallRun.FreshRun` the early return after it is dead |
| `InstallRun.WriteInstallFiles` | internal/core/install_phase_write.go:33-99 | From mkdir to the last write: a rolled-back run that reports clean has removed the directory, and without undo faults it does so exactly when nothing foreign is outside the planned paths; another actor's manifest is left alone; success means every planned file holds its bytes under a held, non-manifest lock |
| `InstallRun.OpenStack` | internal/core/install_phase_write.go:393-476 | Making the directory and taking the flock, with other processes adding entries or a lock in between: what can be there, and who put it there, at each outcome |
| `InstallRun.EnsureInstallNetworks` | internal/core/install_phase_deploy.go:481-530 | The recorded list is exactly the networks this run added, with the earlier ones unchanged; success has every declared network with the declared isolation and the pinned subnet; it fails only on a fault or a declared network that cannot be reconciled |
| `InstallRun.CreatedStillReconcile` | internal/core/install_phase_deploy.go:481-530 | Networks a partial run created are ones the same specs reconcile with |
| `InstallRun.CommitInstall` | internal/core/install_phase_deploy.go:27-56 | Confirmation, networks, port re-check, deployment, pins and manifest: it succeeds exactly when all milestones were reached, in this order, and a failure reached a beginning of them; without confirmation nothing but foreign files changes; success has the durable manifest with every file still as written; containers and volumes change only after the deployment was attempted, and the deployment may add mount points to the stack directory |
| `InstallRun.DeployAndCommit` | internal/core/install_phase_deploy.go:45-56 | It succeeds exactly when the project was deployed, its pins captured and the manifest written, in this order; the deployment may add mount points whether or not it fails; success has the durable manifest and every file as written, and every failure is a fault |
| `InstallRun.SeedAndCommit` | internal/core/install.go:252-294 | From the written files to the commit, reached exactly with all its milestones, or through the sad path, with the whole final state of each |
| `InstallRun.CommittedFiles` | internal/core/install_phase_write.go:101-141 | A committed stack holds, name by name, the compose file, the environment, every further file at the path its destination joins to, the user file and the manifest |
| `FreshInstall.FailFreshInstall` | internal/core/install_phase_deploy.go:175-199 | The compensation: a clean report means the directory is gone, the networks are the earlier ones and, once a deployment was attempted, no container or volume of the project is left; unless an undo primitive fails it is clean exactly when only the install's own paths were there |
| `InstallRun.FailOnTrack` | internal/core/install_phase_deploy.go:175-199 | The sad path of a run on track: foreign entries outside the planned paths stay, and without undo faults it is clean exactly when there are none |
| `FreshInstall.DockerCleanup.RunDocker` | internal/core/install_phase_deploy.go:126-171 | The Docker half: removes what the run created, never a network that was there before, and touches no other project |
| `FreshInstall.DockerCleanup.RemoveCreatedNetworks` | internal/core/install_phase_deploy.go:152-170 | Reverse order with faults collected: success means the network set is the earlier one exactly |
| `FreshInstall.DockerCleanup.RemoveVolumes` | internal/core/install_phase_deploy.go:138-151 | Removes exactly the listed volumes unless a removal fails or the project still has a container; other projects keep theirs |
| `FreshInstall.WriteOne` | internal/core/install_phase_write.go:75-98 | One planned write with other processes acting before it: stays on track, loses no earlier file and keeps the lock; it fails only on a fault |
| `FreshInstall.NextWriteIsClear` | internal/core/install_phase_write.go:197-262 | On track, nothing ever stands in the way of the next planned write: no directory at its path, no file above it, no stray temporary |
| `FreshInstall.AfterWrite` | internal/state/atomic_write.go:61-112 | A write stopped anywhere leaves planned paths only, the lock, and every earlier file with its bytes |
| `Cleanup.CleanupFreshInstallArtifacts` | internal/core/install_phase_deploy.go:229-286 | A clean report means the directory is gone; unless a removal faults it is clean exactly when only the install's own paths were there; a path that is neither planned, nor above a planned file, nor the lock or the user file is never removed |
| `Cleanup.RemoveFiles` | internal/core/install_phase_deploy.go:236-262 | The collected directories are exactly all proper ancestors of the planned files although each upward walk stops at the first one seen |
| `Cleanup.AddAncestors` | internal/core/install_phase_deploy.go:247-253 | The early break loses no ancestor: the set stays closed upwards and gains exactly the path's ancestors |
| `Cleanup.RemoveDirs` | internal/core/install_phase_deploy.go:273-280 | Deepest first removes every listed directory when only those are left; a non-empty one is kept and reported |
| `Cleanup.NextDirIsEmpty` | internal/core/install_phase_deploy.go:264-280 | In a deepest-first list an entry has no child left once everything before it is gone |
| `Cleanup.SortDirs` | internal/core/install_phase_deploy.go:264-272 | Deepest first, the same directories |
| `Cleanup.InstallFileWrites` | internal/core/install_phase_write.go:101-141 | Accepted exactly when every join, mode and destination is; then all final paths and temporaries are apart from each other and from the lock and the user file |
| `Cleanup.PlannedUnique` | internal/core/install_phase_deploy.go:229-240 | The cleanup re-derives the same writes the install performed |
| `Machine.Host.WriteFileAtomic` | internal/state/atomic_write.go:57-112 | Whatever fails, only the path, its temporary and missing parents change and the target holds its old or its new bytes; success is the completed write; a failure without a fault means the way was blocked. The rename may be in place although an error is returned |
| `Machine.Host.EnsureParentDirectories` | internal/state/atomic_write.go:114-169 | Creates only missing ancestors, top down; every intermediate tree differs from the first in those alone |
| `Machine.Host.Interfere` | internal/core/install_phase_write.go:60-98 | Another process may add entries anywhere outside the claimed paths |
| `Machine.Host.EnsureNetworkReport` | internal/core/install_phase_deploy.go:481-530 | `created` is reported exactly for a network that was missing; an existing one is only reconciled |
| `Machine.Host.ClearStaleStackLock` | internal/state/lock_recover.go:81-140 | Unlinks a lock only when nobody holds it and it does not decode as a manifest |
| `Recovery.RecoverOrphanedStack` | internal/core/recover.go:40-135 | Removes the orphan or refuses: nothing is touched when the path is unsafe, when the project runs, when the lock is held or is a manifest, or when a non-empty directory has no lock; a success without faults has also removed every managed network that the compose file declares external, and no run removes any other; an orphan it accepts is removed unless something faults or a guard refuses |
| `Recovery.ClearOrphan` | internal/core/recover.go:97-131 | Success means the directory is gone and was recoverable; it says exactly when a refusal has already unlinked the lock |
| `Recovery.LocklessIsNotRecoverable` | internal/core/recover.go:108-121 | A directory that lost its lock is accepted by a later recovery exactly when it is empty |
| `Recovery.RemoveOrphanStackDir` | internal/core/recover.go:142-202 | Succeeds only with the directory gone, and outside the guards removes nothing |
| `Recovery.SweepRecoveredNetworks` | internal/core/recover.go:217-242 | Removes only listed networks that carry the ownership label and, without faults, all of those |
| `ArtifactLayout.DestTracker.Add` | internal/core/install_phase_write.go:289-341 | Accepts a destination exactly when it and its temporary are nested with no path claimed so far, reserved names included; a refusal records nothing |
| `ArtifactLayout.ConflictIsOverlap` | internal/core/install_phase_write.go:343-358 | The text prefix test against the tracker's maps is component nesting against the claimed paths |
| `ArtifactLayout.RenderedArtifactWrites` | internal/core/install_phase_write.go:197-262 | Accepted exactly when all destinations join below the root, all modes parse and all claimed paths are apart; one write per file, in order |
| `ArtifactLayout.KeptApartPrefix` | internal/core/install_phase_write.go:289-341 | Acceptance is prefix closed: a refused destination cannot become acceptable later |
| `ArtifactLayout.KeptApartExactly` | internal/core/install_phase_write.go:197-358 | The tracker accepts a list of destinations exactly when none is the stack directory, none begins with one of the nine reserved names, and no two of them, temporaries included, are nested |
| `Paths.CleaningRules` | internal/security/paths.go:128-150 | A name and the ".." after it cancel, "." and empty components drop out, a ".." with nothing before it is refused, and a path of names is itself: the rewriting rules that decide every join |
| `Paths.TextPrefixIsPathPrefix` | internal/core/install_phase_write.go:352-358 | On cleaned paths the string prefix test is the component prefix test |
| `FileTree.WritesCommute` | internal/state/atomic_write.go:57-112 | Two completed writes to paths that are apart commute |
| `WriteOrder.InstallOrderIsFree` | internal/core/install_phase_write.go:75-98 | Any reordering of an install's planned writes leaves the same tree, each file with its own bytes |
| `WriteOrder.TemporariesOverwriteNothing` | internal/core/install_phase_write.go:264-341 | No planned write's temporary is another write's path, temporary or parent |
| `PortPlanning.CatalogPortBindings` | internal/core/install_phase_plan.go:726-756 | Accepts exactly the lists whose entries are well formed and whose expanded (protocol, host port) pairs are distinct; collects the bindings in catalog order with the public and the range host ports |
| `PortPlanning.PortBindings` | internal/core/install_phase_plan.go:960-984 | One entry expands exactly when it is well formed, to the bindings `SingleEntryBinds` and `RangeEntryBinds` spell out |
| `PortPlanning.SingleEntryBinds` | internal/core/install_phase_plan.go:960-984 | An entry without ranges is accepted exactly with both ports in 1..65535 and binds its host port to its container port once, for its service, on its protocol or TCP, on all interfaces if public and on loopback otherwise |
| `PortPlanning.RangeEntryBinds` | internal/core/install_phase_plan.go:996-1050 | A range entry written "lo-hi" on both sides is accepted exactly for spans of equal length inside 1..65535 that agree with the single ports if those are set, and binds offset by offset |
| `PortPlanning.RangeTextReads` | internal/core/install_phase_plan.go:1060-1093 | "lo-hi" is a span exactly for 1 <= lo <= hi <= 65535 |
| `PortPlanning.CatalogOrder` | internal/core/install_phase_plan.go:726-756 | In the collected list the bindings of each entry stand together, entry after entry |
| `PortPlanning.KindPorts` | internal/core/install_phase_plan.go:744-751 | The public host ports are those some public entry binds, the range host ports those some range entry binds |
| `PortPlanning.RangePortBindings` | internal/core/install_phase_plan.go:996-1050 | A range entry expands exactly when it is well formed |
| `PortPlanning.RangeExpansion` | internal/core/install_phase_plan.go:996-1050 | hi-lo+1 bindings, a constant host-minus-container offset, every port in 1..65535 |
| `PortPlanning.CatalogBindingsShape` | internal/core/install_phase_plan.go:726-756 | Every catalog binding is a valid port pair |
| `PortPlanning.ApplyPortOverrides` | internal/core/install_phase_plan.go:764-836 | For every iteration order of the override map the acceptance and the result are those of one simultaneous substitution on the first binding of each port |
| `PortPlanning.ResolveOverrides` | internal/core/install_phase_plan.go:764-812 | Every override is validated against the unmodified plan and resolved to the first binding of its source |
| `PortPlanning.NoDuplicateKeys` | internal/core/install_phase_plan.go:818-834 | Accepts exactly the plans with distinct (protocol, host port) pairs |
| `PortPlanning.SubstitutionShape` | internal/core/install_phase_plan.go:764-836 | An accepted substitution moves nothing but the host port of remappable bindings, into 1025..65535, and keeps pairs distinct |
| `PortPlanning.SwapIsSimultaneous` | internal/core/install_phase_plan.go:764-836 | Two overrides that exchange ports exchange them |
| `PortRetry.InstallPlan.PlanPorts` | internal/core/install_phase_plan.go:658-720 | The plan's fields change only on success, and then hold the outcome of the rounds on the catalog's bindings; a catalog or public admin-port refusal comes first |
| `PortRetry.InstallPlan.Replan` | internal/core/install_phase_plan.go:672-720 | The retry loop ends within 65 rounds, each on a fresh copy of the catalog's bindings |
| `PortRetry.InstallPlan.PlanRound` | internal/core/install_phase_plan.go:680-716 | One attempt against an environment whose answers depend on the probe count |
| `PortRetry.InstallPlan.EnrichPortConflict` | internal/core/install_phase_plan.go:844-890 | A suggestion is made exactly for an in-use loopback port that is neither range nor public |
| `PortRetry.InstallPlan.SuggestFreePort` | internal/core/install_phase_plan.go:901-919 | The scan of the 1024 candidates above the conflict, skipping planned ports |
| `PortRetry.RefusePublicAdminPorts` | internal/core/install_phase_plan.go:925-950 | Refused exactly when a public port is the target URL's or the Pangolin hint's port, or that port cannot be determined; the fallback to the first non-public port never decides |
| `PortRetry.PlannedIsSound` | internal/core/install_phase_plan.go:658-720 | In an arbitrarily changing environment a success has distinct pairs, keeps explicit overrides, and each binding probed free in the last round |
| `PortRetry.PlannedPreservesCatalog` | internal/core/install_phase_plan.go:658-720 | Service, host IP, container port, protocol and order are the catalog's; public and range ports do not move; moved ports are in 1025..65535; explicit overrides are honoured verbatim |
| `PortRetry.ScanIsLeast` | internal/core/install_phase_plan.go:901-919 | On a steady host the suggestion is the least free unplanned candidate, and 0 exactly when there is none |
| `PortRetry.SuggestionIsLeastFree` | internal/core/install_phase_plan.go:901-919 | On a steady host the suggestion is the least port above the conflict, above 1024 and at most 65535, among 1024 candidates, that is unplanned and free; 0 means none is |
| `PortRetry.PlanPortsIsSinglePass` | internal/core/install_phase_plan.go:672-720 | On a steady host the loop succeeds exactly when a single left-to-right pass does and at most 64 bindings are taken, with the same bindings, in one round per taken binding plus one |
| `PortRetry.AutoPortSucceeds` | internal/core/install_phase_plan.go:672-720 | On a steady host auto-port succeeds, in one round per taken binding plus one, whenever catalog host ports are distinct, at most 64 planned bindings are taken, none of those is explicit, range, public or privileged, and each has more free ports in its window than there are bindings |
| `PortRetry.RetryIsRepair` | internal/core/install_phase_plan.go:672-720 | From any round on, what is left of the loop is what is left of the pass |
| `PortRetry.StuckBehindFirst` | internal/core/install_phase_plan.go:779-785 | A taken binding that is not the first of its host port makes every later round fail |
| `PortRetry.ConflictDecides` | internal/core/install_phase_plan.go:680-716 | Whatever the host answers meanwhile: the first conflict of a round ends the run exactly when auto-port is off, the port is explicit, range or public, the binding is off loopback, the probe was denied, no port is found or 64 retries are used up; otherwise the next round has the suggested port as one more override |
| `PortRetry.WithoutAutoPortOneRound` | internal/core/install_phase_plan.go:680-716 | Without auto-port there is one round: it succeeds exactly when the substituted bindings probe free in order, and moves nothing else |
| `PortRetry.SuggestionAccepted` | internal/core/install_phase_plan.go:764-836 | A suggested port never makes the next round's substitution unacceptable |
| `ComposePorts.ExtractAfterRewrite` | internal/core/install_port_remap.go:136-298 | Extracting after a rewrite is applying the override map to what was extracted before it, on every document |
| `ComposePorts.EntryCommutes` | internal/core/install_port_remap.go:179-364 | The same for one entry, short or long, and a match is reported exactly when something moved |
| `ComposePorts.ShortReadsBack` | internal/core/install_port_remap.go:317-340 | A rewritten short entry splits back into the same parts around the new host port |
| `ComposePorts.ShortReads` | internal/core/install_port_remap.go:179-194 | "ip:port:container", with "/protocol" or without, reads as that container key and that host port exactly when the address is loopback |
| `ComposePorts.ShortRewrites` | internal/core/install_port_remap.go:317-340 | Such an entry is rewritten by replacing the host port alone |
| `ComposePorts.LongReads` | internal/core/install_port_remap.go:201-238 | A long entry with a loopback host_ip, a numeric published port and a target reads as the target, with "/protocol" when it is set, and that port |
| `ComposePorts.LongRewrites` | internal/core/install_port_remap.go:342-364 | Of such an entry the published field alone is replaced |
| `ComposePorts.ShortRangeIsLeft` | internal/core/install_port_remap.go:179-194 | A published part that is not a number, such as a range, is neither read nor rewritten |
| `ComposePorts.ShortWithoutAddressIsLeft` | internal/core/install_port_remap.go:179-194 | An entry without an address is neither read nor rewritten |
| `ComposePorts.LastEntryWins` | internal/core/install_port_remap.go:136-177 | Per service and container key the document's port is that of the last entry that reads |
| `ComposePorts.ExtractLoopbackHostPorts` | internal/core/install_port_remap.go:136-177 | The loop computes the loopback ports per (service, container), later entries winning |
| `ComposePorts.RewriteComposeHostPorts` | internal/core/install_port_remap.go:245-298 | Every loopback entry of an overridden port moves, nothing else does, and `matched` is exactly the override keys met |
| `ComposePorts.Document.RewriteService` | internal/core/install_port_remap.go:255-290 | The in-place edit of one service's entries leaves the other services alone |
| `ComposePorts.ExtractedIsMatched` | internal/core/install_port_remap.go:136-298 | An override of an extracted port is always matched |
| `PortPreservation.PreserveUpdateHostPorts` | internal/core/install_port_remap.go:67-129 | Never refuses: the "not matched" arm is unreachable for every pair of documents and iteration order; the result is the new rendering with the recorded ports put back, entry by entry as `RecordedTextSurvives` says |
| `PortPreservation.RecordedTextSurvives` | internal/core/install_port_remap.go:67-129 | On the texts: with distinct new defaults, the entry "ip:default:container" of the new rendering becomes "ip:recorded:container" for the port recorded on disk for that service and container |
| `PortPreservation.PreservationExact` | internal/core/install_port_remap.go:67-129 | Every recorded port survives the update exactly when bindings that share a new default share their recorded port |
| `PortPreservation.DistinctDefaultsPreserve` | internal/core/install_port_remap.go:67-129 | Distinct new defaults are enough, and a newly declared binding then keeps its default |
| `PortPreservation.DistinctAfterUpdate` | internal/core/install_port_remap.go:67-129 | The host ports after an update are distinct exactly when the new defaults are, the recorded ports it keeps are, and none of those is the default of a newly declared binding |
| `PortPreservation.PreservedPortMayCollide` | internal/core/install_port_remap.go:67-129 | A concrete stack and rendering, each with distinct ports, whose update leaves two bindings on one host port |
| `PortPreservation.PortsFixedOverUpdates` | internal/core/install_port_remap.go:67-129 | A binding every rendering declares keeps its host port over any run of such updates |
| `PortPreservation.ApplyComposePortRemap` | internal/core/install_port_remap.go:20-45 | Succeeds exactly when every override key moves some loopback entry; a refusal leaves the compose as it was |
| `PortPreservation.PlanAndComposeAgree` | internal/core/install_port_remap.go:20-45 | If template and catalog agreed, compose and plan agree after a remap exactly when each carried, overridden binding is the first of the plan with its port |
| `PortPreservation.PlannedComposeAgrees` | internal/core/install_phase_plan.go:658-720 | Whatever the planner settles on, the compose remapped with its overrides carries its bindings exactly under the same condition |
| `PortPreservation.DistinctPortsAgree` | internal/core/install_port_remap.go:20-45 | Host ports distinct across protocols are enough, and then the remap is never refused |
| `PortPreservation.SharedHostPortDisagrees` | internal/core/install_phase_plan.go:779-785 | A concrete catalog and compose: plan and compose both accept the remap, the plan moves one binding and the compose two |
| `PublicBinds.VerifyPublicBindsMatchCatalog` | internal/core/install_phase_validate.go:395-480 | Accepts exactly when no service uses host networking, every entry classifies, and the rendered and declared public keys are the same set, which by `VerdictIsSameBinds` means the same protocols and ports |
| `PublicBinds.VerdictIsSameBinds` | internal/core/install_phase_validate.go:395-480 | The verdict without key texts: catalog and compose have the same public binds, protocol by protocol, port by port and span by span |
| `PublicBinds.SameKeyIffSameBind` | internal/core/install_phase_validate.go:539-571 | Two public binds have one key exactly when they have one protocol and are the same port or the same span |
| `PublicBinds.ShortPublishes` | internal/core/install_phase_validate.go:358-375 | What the three short forms publish, each with a protocol or without |
| `PublicBinds.LongPublishes` | internal/core/install_phase_validate.go:327-356 | A long entry publishes its published field, or its target when that is missing |
| `PublicBinds.PublishedIsBind` | internal/core/install_phase_validate.go:539-571 | A numeric published text is that port and "lo-hi" that span, on the entry's protocol or TCP |
| `PublicBinds.CatalogDeclares` | internal/core/install_phase_validate.go:486-508 | A public catalog entry declares its host port or its host span, on its protocol or TCP |
| `PublicBinds.MissingProtocolIsRefused` | internal/core/install_phase_validate.go:395-480 | A port declared public on TCP and UDP and rendered on TCP alone is refused |
| `PublicBinds.DeclaredPublicBinds` | internal/core/install_phase_validate.go:486-508 | The declared keys, or a refusal exactly for an unreadable public range |
| `PublicBinds.RenderedPublicBinds` | internal/core/install_phase_validate.go:513-537 | The rendered keys, or a refusal exactly for an entry that does not classify |
| `PublicBinds.RewriteKeepsVerdict` | internal/core/install_phase_validate.go:358-375 | A port rewrite changes neither the public keys nor the verdict, for every document and override map |
| `PublicBinds.RewriteKeepsEntry` | internal/core/install_phase_validate.go:539-571 | The same for one entry: it classifies alike and binds the same public key, if any |
| `CatalogStorage.Store.StoreVerifiedCatalog` | internal/catalog/storage.go:144-228 | For every layout, request and fault set: stored exactly when the request is acceptable and no forward step faults; then the snapshot holds the bundle and its provenance and is what is active; older snapshots never change; a failure whose undo works restores everything except a manifest already renamed into place |
| `CatalogStorage.Store.ActivateVerifiedSnapshot` | internal/catalog/storage.go:234-286 | Templates copied, manifest committed, and the templates put back on any failure; the manifest changes exactly when the run reaches its rename |
| `CatalogStorage.ActiveTemplatesExactly` | internal/catalog/storage.go:234-286 | After a success a path is active with an entry exactly when it begins with "templates" and the published snapshot has that entry there |
| `CatalogStorage.ActiveTemplatesAreTheBundles` | internal/catalog/storage.go:144-286 | After a success the active template files are exactly the bundle's regular members below "templates", each with its bytes |
| `CatalogStorage.SnapshotHoldsRequest` | internal/catalog/storage.go:144-228 | The published snapshot holds every provenance file and every regular member, and no other file |
| `CatalogStorage.StoredIsSound` | internal/catalog/storage.go:144-228 | A success was for the stable channel and a new, safe version name, and the active manifest is the bundle's stable/catalog.yaml, which loads |
| `CatalogStorage.AcceptableExactly` | internal/catalog/storage.go:144-405 | Faults aside a request is stored exactly under conditions told from the request and the extracted bundle: channel, free and safe names, both directories, a manifest that loads, and room for each provenance file and its temporary |
| `CatalogStorage.StoredExactly` | internal/catalog/storage.go:144-286 | Fault by fault: stored exactly when acceptable and none of the forward steps taken fails |
| `CatalogStorage.Store.WriteProvenance` | internal/catalog/storage.go:389-410 | Stops at the first fault or name that is in the way; otherwise the staged tree gains exactly the provenance files |
| `CatalogStorage.Store.ValidateProvenance` | internal/catalog/storage.go:324-351 | Accepts exactly distinct safe segments outside the bundle's own entries |
| `CatalogStorage.Store.ExtractTo` | internal/state/catalog_bundle.go:87-131 | Extracts into a fresh directory or leaves none; an existing destination is not touched |
| `CatalogStorage.FailureIsAllOrNothing` | internal/catalog/storage.go:278-285 | A failure whose undo worked changes nothing exactly when the run had not renamed a different manifest into place |
| `CatalogStorage.LateFaultKeepsNewManifest` | internal/state/atomic_write.go:98-112 | A concrete store that reports failure, undoes everything else, and leaves the new manifest active |
| `CatalogStorage.RecordedKeepsBundle` | internal/catalog/storage.go:324-410 | Provenance never disturbs the bundle's manifest or templates |
| `CatalogStorage.SnapshotIsActivated` | internal/catalog/storage.go:197-286 | The committed manifest is the one the published snapshot holds |
| `CatalogBundle.ExtractMembers` | internal/state/catalog_bundle.go:133-235 | One pass over the members that stops at the first refusal: member, file and total caps, duplicates, containment and paths in the way |
| `CatalogBundle.ExtractionIsContained` | internal/state/catalog_bundle.go:87-235 | An extracted bundle is a tree of valid paths below its directory whose files are exactly the regular members, each with its bytes, and whose directory members are directories, within all three caps |
| `BundleAcceptance.ExtractsExactly` | internal/state/catalog_bundle.go:133-235 | A bundle extracts exactly when its stream is complete, it has at most 4096 members, every name stays below the destination, only files and directories have a place of their own, nothing stands at or below a file nor before it at its temporary, no file exceeds 16 MiB and all together not 64 MiB |
| `BundleAcceptance.OrderCounts` | internal/state/catalog_bundle.go:203-235 | For every path: the member named like its temporary refuses the bundle when it comes first and is accepted when it comes second |
| `CatalogBundle.PeekAgrees` | internal/catalog/bundle_manifest.go:57-96 | Whenever a bundle extracts, the peeked manifest and the extracted one are the same bytes, or both are missing |
| `CatalogBundle.PeekExactly` | internal/catalog/bundle_manifest.go:63-96 | The peek finds the first regular member whose name cleans to stable/catalog.yaml, within 16 MiB |
| `CatalogBundle.NamesRefused` | internal/state/catalog_bundle.go:168-176 | Absolute and climbing member names are refused, the destination's own name is skipped |
| `CatalogBundle.PlaceKeepsManifest` | internal/state/catalog_bundle.go:145-199 | No other member can change the extracted manifest |
| `CatalogUpdate.Engine.ApplyCatalogUpdate` | internal/core/catalog_update_apply.go:52-154 | Refusals change nothing; an authorized apply does what storing the request does |
| `CatalogUpdate.Engine.CheckCatalogUpdate` | internal/core/catalog_update.go:62-103 | An update is reported exactly when a confirmed, unpinned apply of the same release would not be refused before the write: always when no catalog is installed, otherwise exactly for a strictly newer one; with the exact change summary |
| `CatalogUpdate.AuthorizedExactly` | internal/core/catalog_update_apply.go:84-227 | An apply is let through exactly when it is confirmed, for the stable channel and for the release on offer, which loads and is newer than the installed catalog if there is one |
| `CatalogUpdate.FirstCatalogIsStored` | internal/core/catalog_update_apply.go:211-227 | With no catalog installed any well prepared release is stored unless its version name is taken |
| `CatalogUpdate.AppliedIsTheOffer` | internal/core/catalog_update_apply.go:84-154 | A success leaves the release on offer active: its manifest, its templates and, in a snapshot named by its second, its provenance |
| `CatalogUpdate.StepNeverGoesBack` | internal/core/catalog_update_apply.go:211-227 | Whatever faults, the active manifest stays byte for byte or becomes a strictly newer candidate, and does so on every success |
| `CatalogUpdate.RunNeverGoesBack` | internal/core/catalog_update_apply.go:84-154 | Over any sequence of applies, with faults and failed undo steps anywhere: no published snapshot changes and the active catalog never gets older |
| `CatalogUpdate.RunStaysBacked` | internal/catalog/storage.go:166-227 | From the first success on, the active layout is that of the snapshot named by its own version string, as long as failures undo and none faults after the rename |
| `CatalogUpdate.NeverAppliedAgain` | internal/core/catalog_update_apply.go:211-227 | An apply that moved the manifest, reported as a success or a failure, is refused ever after |
| `CatalogUpdate.AppliedExactlyInAnotherSecond` | internal/core/catalog_update.go:44-46 | Of a newer candidate with nothing else against it, the apply succeeds exactly when it is from another second than the installed catalog, although the check reports both as available |
| `CatalogUpdate.SameSecondIsNeverApplied` | internal/catalog/storage.go:168-173 | A newer candidate from the installed catalog's own second is refused by every apply, however often it is tried |
| `CatalogUpdate.SameSecondExample` | internal/core/catalog_update.go:44-46 | A concrete newer candidate from the installed second, available and with nothing else against it, that the apply does not store |
| `CatalogUpdate.StepStaysDated` | internal/core/catalog_update_apply.go:84-154 | Snapshot names are version strings no later than the active catalog's second, after any apply whose undo works |
| `CatalogUpdate.RunStaysDated` | internal/core/catalog_update_apply.go:84-154 | The same over any sequence of applies whose undo works |
| `CatalogDiff.DiffCatalogApps` | internal/core/catalog_update.go:242-294 | Ascending ids, one entry for exactly the ids whose presence or version differs, the kind decided by presence |
| `CatalogDiff.ReplayDiff` | internal/core/catalog_update.go:242-294 | Replaying the summary on the local id-to-version map gives the candidate's |
| `CatalogDiff.EntriesTellBoth` | internal/core/catalog_update.go:242-294 | Every entry names what is in either catalog: an added id with its version, a removed id, an updated id with both versions |
| `CatalogDiff.LaterAppCounts` | internal/core/catalog_update.go:242-262 | The compared map has the list's ids, and of two entries with one id the later one counts |
| `CatalogDiff.DiffUnique` | internal/core/catalog_update.go:242-294 | The summary does not depend on map iteration order |
| `CatalogDiff.EmptyDiff` | internal/core/catalog_update.go:242-294 | The summary is empty exactly when both catalogs offer the same versions |
| `EnvFile.RewriteResourceEnvLines` | internal/core/reconfigure_apply.go:290-338 | Fails exactly when a targeted key is on two lines; otherwise edits hits in place and appends missing keys in order |
| `EnvFile.EditLines` | internal/core/reconfigure_apply.go:306-322 | One pass with the seen set: stops exactly at a repeated target |
| `EnvFile.EditIsMapUpdate` | internal/core/reconfigure_apply.go:290-338 | A file that reads as m reads as m with the three limits afterwards, comments, blank lines and whitespace included |
| `EnvFile.EditedLines` | internal/core/reconfigure_apply.go:333-337 | The result's lines are the edited ones and the missing keys, and it always ends in a newline |
| `EnvFile.NewlineRuleExact` | internal/core/reconfigure_apply.go:282-289 | The editor's text is the documented one exactly when the file was not empty and either ended in a newline or lacked one of the keys |
| `EnvFile.FullFileGrows` | internal/core/reconfigure_apply.go:333-336 | Any file of exactly the three current assignments and no final newline grows by one, although nothing is to change |
| `EnvFile.NewlineAddedUnasked` | internal/core/reconfigure_apply.go:333-336 | A concrete such file |
| `EnvFile.EmptyFileMissesKeys` | internal/core/reconfigure_apply.go:297-331 | An empty file has one blank line, which the edit keeps ahead of the appended keys |
| `EnvFile.OtherLinesStay` | internal/core/reconfigure_apply.go:307-316 | Every line whose key is not targeted keeps its place and its bytes |
| `EnvFile.LaterEditAbsorbs` | internal/core/reconfigure_apply.go:290-338 | Two edits of one service leave the bytes the second alone would have left |
| `EnvFile.ReadableNeverRepeats` | internal/state/env.go:72-110 | A file the reader accepts never makes the editor fail |
| `EnvFile.KeyedLineIsEntry` | internal/state/env.go:77-109 | A line the editor takes for a target is an entry to the reader: never blank, never a comment |
| `EnvFile.OtherServiceKeepsLimits` | internal/core/reconfigure_apply.go:290-338 | An edit of one key leaves every other key's three limits as they read |
| `EnvFile.UncommentedTextReadsAlike` | internal/state/env.go:72-118 | A file without its blank lines and comments reads as the file does, or is refused as it is |
| `EnvFile.EntryReads` | internal/state/env.go:85-109 | "KEY=VALUE" reads under the key without the white space around it, with every byte of the value |
| `EnvFile.MalformedExactly` | internal/state/env.go:77-100 | A line is malformed exactly when it is neither blank nor a comment and has no "=", or nothing but white space before the first |
| `EnvFile.ReadsItsEntries` | internal/state/env.go:72-110 | A file reads exactly when no line is malformed and no two entries share a key, and then holds its entries and nothing else |
| `EnvFile.AppendsInOrder` | internal/core/reconfigure_apply.go:323-331 | Missing keys are appended as NAME=value lines: memory, CPUs, pids |
| `ServiceKeys.ServiceKey` | internal/core/install.go:305-321 | The builder loop and trim compute the words of the upper-cased name joined by single underscores |
| `ServiceKeys.KeyOfNames` | internal/core/install.go:305-321 | The key of alphanumeric names with one other character between them is the upper-cased names joined by underscores |
| `ServiceKeys.KeyOfPlainName` | internal/core/install.go:305-321 | An alphanumeric name is its own key, character by character upper-cased |
| `ServiceKeys.KeyIgnoresPadding` | internal/core/install.go:305-321 | Other characters at either end, or more than one in a row, leave no trace in the key |
| `ServiceKeys.SameKeyIffSameWords` | internal/core/install.go:305-321 | Two services collide exactly when their names have the same words, and a key is empty exactly when there is none |
| `ServiceKeys.KeyIsShaped` | internal/core/install.go:305-321 | Keys consist of upper-case letters, digits and underscores |
| `ServiceKeys.IndexResourceProfiles` | internal/core/install_phase_plan.go:1290-1331 | Accepts exactly the profile lists whose keys are nonempty and distinct |
| `ServiceKeys.IndexableExactly` | internal/core/install_phase_plan.go:1301-1331 | The profiles are indexed exactly when every name has a letter or digit and no two names share a key |
| `ServiceKeys.IndexKeepsLimitsApart` | internal/core/install_phase_plan.go:1321-1327 | Two services of an accepted index share no limit variable |
| `Resources.MemoryIsTheExactProduct` | internal/core/install_phase_plan.go:1583-1613 | A memory value is accepted exactly when its true product is positive and fits 64 bits, and is then that product |
| `Resources.MemoryUnits` | internal/core/install_phase_plan.go:1583-1613 | b, k, m and g are 1, 1024, 1024^2 and 1024^3 bytes, and there is no other unit |
| `Resources.MemoryWithin` | internal/core/install_phase_plan.go:1529-1548 | A memory limit in the units of its band is accepted exactly between the two ends, both included |
| `Resources.ApplyResourceLimitOverride` | internal/core/install_phase_plan.go:1420-1444 | Accepted exactly when each limit that is set is in its band; the rest stays, so the band is kept |
| `Resources.ApplyResourceOverrides` | internal/core/install_phase_plan.go:1377-1418 | Accepted exactly when every override is, whatever their order; each limit is the last one set |
| `Resources.LastSettingWins` | internal/core/install_phase_plan.go:1377-1418 | Each limit is what the last override of the service that sets it says; one that leaves it unset changes nothing |
| `Resources.UnsetLimitsStay` | internal/core/install_phase_plan.go:1377-1418 | A limit that no override of the service sets stays as chosen, whatever other services' overrides say |
| `Resources.AcceptedOverrides` | internal/core/install_phase_plan.go:1390-1444 | An override is accepted exactly when a profile of its service allows overrides and holds each limit that is set |
| `Resources.SelectResourceProfiles` | internal/core/install_phase_plan.go:1357-1375 | Every service gets its recommended or minimum limits |
| `Resources.PlanResources` | internal/core/install_phase_plan.go:1235-1267 | Accepted exactly when the app has no profiles, or the index, the totalled bands and every override are; a service without overrides has its recommended memory and CPUs, or its minimum ones when those are chosen, and its default pids; given bands the catalog orders, every memory and pids limit is then in its band |
| `Resources.CheckResourceBand` | internal/core/install_phase_plan.go:1488-1527 | Totalling a band refuses exactly when some memory or CPU value of it does not parse |
| `Resources.AddSelectedResourceValues` | internal/core/install_phase_plan.go:1457-1472 | Every service's limits end up under its own names, refused exactly when a placeholder already has one |
| `Reconfigure.Stack.BuildReconfigurePlan` | internal/core/reconfigure.go:173-257 | The merged limits exactly for a request the catalog allows on a readable .env |
| `Reconfigure.PlannableExactly` | internal/core/reconfigure.go:173-305 | A reconfigure is planned exactly when some limit is set, a profile of the service allows and holds each of them, and the file reads and has the three limits with a pids number |
| `Reconfigure.Stack.Reconfigure` | internal/core/reconfigure_apply.go:40-103 | What the .env holds after each way an apply can end, restore included; the duplicate-key refusal is never reached |
| `Reconfigure.ReconfigureChangesOneService` | internal/core/reconfigure_apply.go:128-233 | After a success the service reads as planned and every other key reads as before |
| `Reconfigure.DeployedFileReads` | internal/core/reconfigure_apply.go:128-233 | After a success the file holds what it held with three entries set: the requested limits, and those not requested as they were |
| `Reconfigure.StepStaysInBand` | internal/core/reconfigure_apply.go:81-103 | However an apply ends, and whether or not the restore works, every limit stays in its band |
| `Reconfigure.RunStaysInBand` | internal/core/reconfigure.go:173-257 | Every memory and pids limit is in its band after any sequence of reconfigures |
| `Reconfigure.RunKeepsUntouchedService` | internal/core/reconfigure_apply.go:290-338 | A service no request names keeps its limits over the whole sequence |
| `Reconfigure.InstallStartsInBand` | internal/core/install_phase_plan.go:1457-1472 | A rendered .env that carries the chosen limits starts such a sequence in band |
| `Text.JoinOfSplit` | internal/core/reconfigure_apply.go:298-333 | Joining what was split gives the text back |
| `Text.SplitOfJoin` | internal/core/install_port_remap.go:317-340 | Splitting what was joined gives the parts back |
| `Text.AtoiOfItoa` | internal/core/install_port_remap.go:317-340 | A written port reads back as the same number |

## Left out

- Command line, terminal interface, progress, logging, redaction, error texts and exit codes: presentation. Refusals and faults are told apart only where a property needs it.
- YAML parsing and re-encoding, JSON Schema, text templates, signatures, attestations, registry and release clients: the model starts from parsed entries, a manifest loader and a verified bundle.
- gzip and tar decoding: a bundle is the list of its members and whether the stream ended without an error.
- Address parsing: whether a host is loopback is a parameter.
- RFC 3339 formatting: a version string is any injective function of the whole second.
- Upper-casing: one character at a time, as a parameter; runes whose upper case is several runes do not occur in it.
- Text is a sequence of characters; invalid UTF-8 in file names, .env files and port entries is not represented.
- CPU limits: they go through floating point, so their band check is a parameter and no CPU band is claimed.
- Totals of a resource band: the source adds 64-bit values without a guard; no total is claimed, only when totalling refuses. Which profile the host's size selects is a parameter, and so is whether a CPU text parses.
- Resources.PlanResources: does not model the refusal of an undetected host or an unknown profile name, because both are one comparison ahead of it.
- Placeholder resolution and .env rendering at install: the rendered file is assumed to carry the resolved limits.
- Capability, sysctl, device, address-management, host-module and socket-proxy checks: each is one set comparison.
- Symbolic links and file modes: the source refuses links on every write path; mode changes appear only as steps that can fail.
- A kill inside the cleanup or inside recovery, and a crash (as opposed to a fault) inside catalog activation: the source does not claim them.
- Locks of older schema versions and their migration: a lock decodes as a manifest or does not.
- Creating a Docker network is all or nothing; a network created by a call that then reports an error is not represented.
- A removal that fails part way through a catalog directory leaves an arbitrary tree there; the directories above the active layout and a leftover temporary manifest are not represented.
- CatalogStorage.Store.ActivateVerifiedSnapshot: does not model setting the templates aside onto an existing empty directory, which a rename would replace, because a stash name repeats only within one nanosecond; it counts as taken.
- Machine.Host.Interfere: does not model other processes changing or deleting what is there, because the install's claims are about what it leaves beside foreign entries; they only add, outside the paths the install plans to write.
- Cleanup.SortDirs: does not model the library's sorting algorithm, because only the order it produces matters; an insertion sort stands for it, here and in the change summary.
- InstallRun.FreshRun: does not state how the fault is reported, because joined error texts are presentation; `clean` stands for the original fault returned unchanged.
- Recovery.RecoverOrphanedStack: does not model the helper image's contents, because Docker is abstract; a probe of it may fail and its run either empties the directory or faults.
- Update, backup, restore, delete, redeploy, status and listing operations beyond the .env restore of a reconfigure: thin sequences over the primitives here.
