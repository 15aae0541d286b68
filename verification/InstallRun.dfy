// The whole install: from the optional recovery to the manifest commit (install.go),
// with the write phase (install_phase_write.go) and the commit phase (install_phase_deploy.go).
module InstallRun {
  import opened Paths
  import opened FileTree
  import opened ArtifactLayout
  import opened Machine
  import opened Cleanup
  import opened Recovery
  import opened FreshInstall

  ghost predicate ForeignKept(t: Tree, foreign: set<Path>, writes: seq<FileWrite>) {
    forall p :: p in foreign && p !in Own(writes) ==> p in t
  }

  /** The first tree of a fresh directory with its lock. */
  lemma FreshIsOnTrack(writes: seq<FileWrite>, t: Tree, foreign: set<Path>, dirty: bool)
    requires LaidOut(writes) && IsTree(t) && [] in t && t[[]] == Dir && t.Keys <= {[], LOCK} + foreign && foreign <= t.Keys
    requires (foreign - {LOCK}) !! (Own(writes) + TempsOf(writes)) && (LOCK in t ==> t[LOCK].File?)
    ensures OnTrack(t, foreign, dirty, writes) && AllWritten(t, writes, 0)
  {
    hide OwnFiles, OwnDirs, TempsOf;
    KindsApart(writes);
    RootIsNoFile(writes);
    TempsAvoidLock(writes);
  }

  lemma RootIsNoFile(writes: seq<FileWrite>)
    requires LaidOut(writes)
    ensures [] !in OwnFiles(writes)
  {
  }

  lemma TempsAvoidLock(writes: seq<FileWrite>)
    requires LaidOut(writes)
    ensures LOCK !in TempsOf(writes)
  {
    forall w | w in writes
      ensures w.path != [] && TempOf(w.path) != LOCK
    {
      var i :| 0 <= i < |writes| && writes[i] == w;
      assert FreeStanding(writes[i].path);
    }
  }

  lemma OnTrackKeepsForeign(t: Tree, after: Tree, foreign: set<Path>, dirty: bool, writes: seq<FileWrite>)
    requires OnTrack(t, foreign, dirty, writes) && OnlyRemoved(t, after, Own(writes))
    ensures ForeignKept(after, foreign, writes)
    ensures !dirty ==> (t.Keys <= Own(writes) <==> foreign <= Own(writes))
  {
  }

  /** The sad path of an install that is on track: what is left, and when the report is clean. */
  method FailOnTrack(h: Host, plan: Plan, cleanup: DockerCleanup?, held: bool, ghost writes: seq<FileWrite>, ghost before: map<string, Network>)
    returns (clean: bool)
    requires h.Valid() && Acceptable(plan) && IsPlanned(plan, writes) && OnTrack(h.fs, h.foreign, h.undoFaulted, writes)
    requires if cleanup != null then cleanup.project == plan.project && CreatedSince(before, h.networks, cleanup.createdNetworks) else h.networks == before
    modifies h`fs, h`networks, h`containers, h`volumes, h`undoFaulted, h`faulted, h`locked
    ensures h.Valid() && (old(h.undoFaulted) ==> h.undoFaulted) && (old(h.faulted) ==> h.faulted)
    ensures if held then clean || !h.undoFaulted ==> !h.locked else h.locked == old(h.locked)
    ensures ForeignKept(h.fs, h.foreign, writes)
    ensures !h.undoFaulted ==> (clean <==> h.foreign <= Own(writes))
    ensures forall n :: n in before ==> n in h.networks && h.networks[n] == before[n]
    ensures OtherContainersKept(old(h.containers), h.containers, plan.project) && OtherVolumesKept(old(h.volumes), h.volumes, plan.project)
    ensures cleanup == null || !cleanup.deployAttempted ==> h.containers == old(h.containers) && h.volumes == old(h.volumes)
    ensures cleanup == null || !cleanup.Armed() ==> h.networks == old(h.networks)
    ensures clean ==> h.fs == map[] && h.networks == before
    ensures clean && cleanup != null && cleanup.deployAttempted ==>
      (forall c :: c in h.containers ==> c.project != plan.project) && (forall v :: v in h.volumes ==> v.project != plan.project)
  {
    hide Acceptable, IsPlanned, IsTree, Own, OnTrack, ForeignKept, OnlyRemoved, CreatedSince, OtherContainersKept, OtherVolumesKept;
    clean := FailFreshInstall(h, plan, cleanup, held, writes, before);
    OnTrackKeepsForeign(old(h.fs), h.fs, h.foreign, old(h.undoFaulted), writes);
  }

  datatype Opened = NotCreated | LockFailed | Managed | Open

  /** Creates the directory and takes the flock, while other processes may add entries and a lock of their own. */
  method OpenStack(h: Host, writes: seq<FileWrite>) returns (r: Opened)
    requires h.Valid() && h.fs == map[] && h.foreign == {} && !h.locked
    modifies h`fs, h`foreign, h`faulted, h`trail, h`locked
    ensures h.locked <==> r.Managed? || r.Open?
    ensures h.Valid() && (old(h.faulted) ==> h.faulted) && TrailSafe(h.trail, h.foreign, |old(h.trail)|)
    ensures r.NotCreated? ==> if [] in h.foreign then h.fs.Keys == h.foreign else h.fs == map[] || h.fs == map[[] := Dir]
    ensures !r.NotCreated? ==> [] in h.fs && h.fs[[]] == Dir && h.fs.Keys <= {[], LOCK} + h.foreign && h.foreign <= h.fs.Keys
    ensures !r.NotCreated? ==> (h.foreign - {LOCK}) !! (Own(writes) + TempsOf(writes)) && (LOCK in h.fs ==> h.fs[LOCK].File?)
    ensures r.Managed? ==> LOCK in h.foreign && LOCK in h.fs && h.fs[LOCK] == File(Manifest)
    ensures r.Open? ==> LockHeld(h.fs)
    ensures !r.Open? ==> h.faulted || [] in h.foreign || LOCK in h.foreign
  {
    hide IsTree, Own, TempsOf;
    var made := h.CreateStackDir();
    if !made.Made? {
      return NotCreated;
    }
    OwnHasRoot(writes);
    h.Interfere(Own(writes) + TempsOf(writes));
    h.RaceForLock();
    var lock := h.AcquireStackLock();
    match lock {
      case NotHeld => r := LockFailed;
      case Held(managed) => r := if managed then Managed else Open;
    }
  }

  /** Mkdir, flock, and the atomic writes, with the file-only cleanup on any fault after the directory exists. */
  method WriteInstallFiles(h: Host, plan: Plan) returns (r: WriteOutcome, writes: seq<FileWrite>)
    requires h.Valid() && h.foreign == {} && !h.locked
    modifies h`fs, h`foreign, h`faulted, h`undoFaulted, h`trail, h`networks, h`containers, h`volumes, h`locked
    ensures if r.AllFilesWritten? then h.locked else (h.undoFaulted && r != RolledBack(true)) || !h.locked
    ensures h.Valid() && TrailSafe(h.trail, h.foreign, |old(h.trail)|)
    ensures (old(h.faulted) ==> h.faulted) && (old(h.undoFaulted) ==> h.undoFaulted)
    ensures h.networks == old(h.networks) && h.containers == old(h.containers) && h.volumes == old(h.volumes)
    ensures r.NotStarted? && [] !in h.foreign ==> h.fs == old(h.fs) || (old(h.fs) == map[] && h.fs == map[[] := Dir])
    ensures r.NotStarted? && [] in h.foreign ==> h.fs.Keys == h.foreign
    ensures r.ForeignManaged? ==> LOCK in h.foreign && LOCK in h.fs && h.fs[LOCK] == File(Manifest)
    ensures r.RolledBack? || r.AllFilesWritten? ==> Acceptable(plan) && IsPlanned(plan, writes) && ForeignKept(h.fs, h.foreign, writes)
    ensures r.RolledBack? && r.clean ==> h.fs == map[]
    ensures r.RolledBack? && !h.undoFaulted ==> (r.clean <==> h.foreign <= Own(writes))
    ensures r.AllFilesWritten? ==> LaidOut(writes) && OnTrack(h.fs, h.foreign, h.undoFaulted, writes) && LockHeld(h.fs)
    ensures r.AllFilesWritten? ==> AllWritten(h.fs, writes, |writes|)
    ensures !r.AllFilesWritten? ==>
      h.faulted || !Acceptable(plan) || old(h.fs) != map[] || [] in h.foreign || LOCK in h.foreign
  {
    hide Acceptable, IsPlanned, LaidOut, IsTree, Own, OnTrack, AllWritten, KillSafe, ForeignKept, OnlyRemoved, LockHeld,
         CreatedSince, OtherContainersKept, OtherVolumesKept;
    r, writes := NotStarted, [];
    var step := h.Step();
    if !step {
      return;
    }
    var planned := InstallFileWrites(plan);
    if planned.None? {
      return;
    }
    writes := planned.value;
    step := h.Step();
    RootOrNothing(h.fs);
    if !step || [] in h.fs {
      return;
    }
    ghost var from := |h.trail|;
    var start := OpenStack(h, writes);
    if start.NotCreated? {
      return;
    }
    if start.Managed? {
      var _ := h.ReleaseLock();
      return ForeignManaged, writes;
    }
    FreshIsOnTrack(planned.value, h.fs, h.foreign, h.undoFaulted);
    if start.LockFailed? {
      var clean := FailOnTrack(h, plan, null, false, writes, h.networks);
      return RolledBack(clean), writes;
    }
    var ok := WritePlanned(h, writes, from);
    if !ok {
      var clean := FailOnTrack(h, plan, null, true, writes, h.networks);
      return RolledBack(clean), writes;
    }
    OnTrackKeepsForeign(h.fs, h.fs, h.foreign, h.undoFaulted, writes) by { OnlyRemovedNothing(h.fs, writes); }
    r := AllFilesWritten;
  }

  /** The planned writes one after the other, up to the first that fails. */
  method WritePlanned(h: Host, writes: seq<FileWrite>, ghost from: nat) returns (ok: bool)
    requires h.Valid() && LaidOut(writes) && OnTrack(h.fs, h.foreign, h.undoFaulted, writes) && LockHeld(h.fs)
    requires TrailSafe(h.trail, h.foreign, from) && AllWritten(h.fs, writes, 0)
    modifies h`fs, h`foreign, h`faulted, h`undoFaulted, h`trail
    ensures h.Valid() && OnTrack(h.fs, h.foreign, h.undoFaulted, writes) && LockHeld(h.fs) && TrailSafe(h.trail, h.foreign, from)
    ensures (old(h.faulted) ==> h.faulted) && (old(h.undoFaulted) ==> h.undoFaulted)
    ensures if ok then AllWritten(h.fs, writes, |writes|) else h.faulted
  {
    hide LaidOut, IsTree, OnTrack, AllWritten, TrailSafe, LockHeld;
    for i := 0 to |writes|
      invariant h.Valid() && OnTrack(h.fs, h.foreign, h.undoFaulted, writes) && LockHeld(h.fs) && AllWritten(h.fs, writes, i)
      invariant TrailSafe(h.trail, h.foreign, from)
      invariant (old(h.faulted) ==> h.faulted) && (old(h.undoFaulted) ==> h.undoFaulted)
    {
      ok := WriteOne(h, writes, i, from);
      if !ok {
        return;
      }
    }
    ok := true;
  }

  lemma OnlyRemovedNothing(t: Tree, writes: seq<FileWrite>)
    ensures OnlyRemoved(t, t, Own(writes))
  {
  }

  // ---- Networks, deployment and the manifest ----

  /** Every declared network that exists can be used as it is, and equal names are declared alike. */
  ghost predicate SpecsReconcile(before: map<string, Network>, specs: seq<NetworkSpec>) {
    && (forall i :: 0 <= i < |specs| && specs[i].name in before ==> Reconciles(before[specs[i].name], specs[i]))
    && (forall i, j :: 0 <= i < j < |specs| && specs[i].name == specs[j].name ==> specs[i] == specs[j])
  }

  /** What is there beyond the networks before was created from one of the first n specs. */
  ghost predicate CreatedFromSpecs(before: map<string, Network>, now: map<string, Network>, specs: seq<NetworkSpec>, n: nat) {
    forall name :: name in now && name !in before ==>
      exists i :: 0 <= i < n <= |specs| && specs[i].name == name && now[name] == Network(specs[i].internal, specs[i].subnet, true)
  }

  lemma SpecServed(before: map<string, Network>, now: map<string, Network>, specs: seq<NetworkSpec>, i: nat)
    requires i < |specs| && SpecsReconcile(before, specs) && CreatedFromSpecs(before, now, specs, i)
    requires forall n :: n in before ==> n in now && now[n] == before[n]
    ensures specs[i].name in now ==> Reconciles(now[specs[i].name], specs[i])
  {
  }

  /** Every declared network is there with the declared isolation and the pinned subnet. */
  ghost predicate NetworksServe(networks: map<string, Network>, specs: seq<NetworkSpec>) {
    forall s :: s in specs ==>
      s.name in networks && networks[s.name].internal == s.internal && (s.subnet != "" ==> networks[s.name].subnet == s.subnet)
  }

  lemma NothingServed(networks: map<string, Network>, specs: seq<NetworkSpec>)
    requires specs == []
    ensures NetworksServe(networks, specs)
  {
  }

  lemma OneMoreServes(now: map<string, Network>, next: map<string, Network>, specs: seq<NetworkSpec>, i: nat)
    requires i < |specs| && NetworksServe(now, specs[..i])
    requires next == now || (specs[i].name !in now && next == now[specs[i].name := Network(specs[i].internal, specs[i].subnet, true)])
    requires specs[i].name in next && Reconciles(next[specs[i].name], specs[i])
    ensures NetworksServe(next, specs[..i + 1])
  {
    assert specs[..i + 1] == specs[..i] + [specs[i]];
  }

  /** Networks a partial run created are the ones the next run would declare. */
  lemma CreatedStillReconcile(before: map<string, Network>, now: map<string, Network>, specs: seq<NetworkSpec>, n: nat)
    requires SpecsReconcile(before, specs) && CreatedFromSpecs(before, now, specs, n)
    requires forall name :: name in before ==> name in now && now[name] == before[name]
    ensures SpecsReconcile(now, specs)
  {
    forall i | 0 <= i < |specs| && specs[i].name in now
      ensures Reconciles(now[specs[i].name], specs[i])
    {
      if specs[i].name !in before {
        var j :| 0 <= j < n <= |specs| && specs[j].name == specs[i].name
                 && now[specs[i].name] == Network(specs[j].internal, specs[j].subnet, true);
        assert specs[i] == specs[j];
      }
    }
  }

  /** The networks of every state the run went through can be used by another install of the same specs. */
  ghost predicate NetworksReusable(trail: seq<map<string, Network>>, specs: seq<NetworkSpec>, from: nat) {
    from <= |trail| && forall k :: from <= k < |trail| ==> SpecsReconcile(trail[k], specs)
  }

  method EnsureInstallNetworks(h: Host, plan: Plan, cleanup: DockerCleanup, ghost before: map<string, Network>) returns (ok: bool)
    requires h.Valid() && h.networks == before && cleanup.createdNetworks == []
    modifies h`networks, h`faulted, h`netTrail, cleanup`createdNetworks
    ensures h.Valid() && (old(h.faulted) ==> h.faulted)
    ensures |old(h.netTrail)| <= |h.netTrail|
    ensures SpecsReconcile(before, plan.networks) ==> NetworksReusable(h.netTrail, plan.networks, |old(h.netTrail)|)
    ensures CreatedSince(before, h.networks, cleanup.createdNetworks)
    ensures ok ==> NetworksServe(h.networks, plan.networks)
    ensures !ok ==> h.faulted || !SpecsReconcile(before, plan.networks)
  {
    hide IsTree, SpecsReconcile, CreatedFromSpecs, CreatedSince, Reconciles, NetworksServe;
    NothingServed(h.networks, plan.networks[..0]);
    CreatedNothing(before);
    NothingFromSpecs(before, plan.networks);
    for i := 0 to |plan.networks|
      invariant h.Valid() && (old(h.faulted) ==> h.faulted)
      invariant CreatedSince(before, h.networks, cleanup.createdNetworks)
      invariant CreatedFromSpecs(before, h.networks, plan.networks, i)
      invariant NetworksServe(h.networks, plan.networks[..i])
      invariant |old(h.netTrail)| <= |h.netTrail|
      invariant SpecsReconcile(before, plan.networks) ==> NetworksReusable(h.netTrail, plan.networks, |old(h.netTrail)|)
    {
      CreatedSinceKeeps(before, h.networks, cleanup.createdNetworks);
      if SpecsReconcile(before, plan.networks) {
        SpecServed(before, h.networks, plan.networks, i);
      }
      ghost var now := h.networks;
      var created;
      created, ok := h.EnsureNetworkReport(plan.networks[i]);
      CreatedFromNext(before, now, h.networks, plan.networks, i);
      if SpecsReconcile(before, plan.networks) {
        CreatedStillReconcile(before, h.networks, plan.networks, i + 1);
      }
      if !ok {
        return;
      }
      if created {
        CreatedSinceGrows(before, now, h.networks, cleanup.createdNetworks, plan.networks[i].name);
        cleanup.createdNetworks := cleanup.createdNetworks + [plan.networks[i].name];
      }
      OneMoreServes(now, h.networks, plan.networks, i);
    }
    assert plan.networks[..|plan.networks|] == plan.networks;
    ok := true;
  }

  lemma NothingFromSpecs(before: map<string, Network>, specs: seq<NetworkSpec>)
    ensures CreatedFromSpecs(before, before, specs, 0)
  {
  }

  lemma CreatedSinceGrows(before: map<string, Network>, now: map<string, Network>, next: map<string, Network>, created: seq<string>, name: string)
    requires CreatedSince(before, now, created) && name !in now && name in next && next == now[name := next[name]]
    ensures CreatedSince(before, next, created + [name])
  {
  }

  lemma CreatedFromNext(before: map<string, Network>, now: map<string, Network>, next: map<string, Network>, specs: seq<NetworkSpec>, i: nat)
    requires i < |specs| && CreatedFromSpecs(before, now, specs, i)
    requires next == now || next == now[specs[i].name := Network(specs[i].internal, specs[i].subnet, true)]
    ensures CreatedFromSpecs(before, next, specs, i + 1)
  {
  }

  /** Changing the seeded user file or the lock keeps the install on track. */
  lemma AfterSeeded(writes: seq<FileWrite>, t: Tree, after: Tree, p: Path, e: Entry, foreign: set<Path>, dirty: bool)
    requires LaidOut(writes) && OnTrack(t, foreign, dirty, writes) && IsTree(after)
    requires (p == LOCK || p == USER_ENV) && after == t[p := e]
    ensures OnTrack(after, foreign, dirty, writes)
    ensures forall n :: AllWritten(t, writes, n) ==> AllWritten(after, writes, n)
  {
    hide OwnFiles, OwnDirs, IsTree;
    KindsApart(writes);
    forall i | 0 <= i < |writes|
      ensures writes[i].path != LOCK && writes[i].path != USER_ENV
    {
      assert FreeStanding(writes[i].path);
    }
  }

  /** The milestones of a commit: confirmation, free ports, the deployment, the captured pins, the durable manifest. */
  function CommitLog(project: string): seq<Milestone> { [Asked, PortsFree, Deployed(project), PinsCaptured, ManifestWritten] }

  /** Confirmation, networks, port re-check, compose up, image pins, and the manifest write that commits. */
  method CommitInstall(h: Host, plan: Plan, cleanup: DockerCleanup, confirmed: bool, writes: seq<FileWrite>,
                       ghost from: nat, ghost before: map<string, Network>)
    returns (ok: bool)
    requires h.Valid() && LaidOut(writes) && cleanup.project == plan.project
    requires h.networks == before && cleanup.createdNetworks == [] && !cleanup.deployAttempted
    requires OnTrack(h.fs, h.foreign, h.undoFaulted, writes) && LockHeld(h.fs) && TrailSafe(h.trail, h.foreign, from)
    requires AllWritten(h.fs, writes, |writes|)
    modifies h`fs, h`foreign, h`faulted, h`trail, h`netTrail, h`log, h`networks, h`containers, h`volumes, cleanup
    ensures ok <==> h.log == old(h.log) + CommitLog(plan.project)
    ensures h.log <= old(h.log) + CommitLog(plan.project)
    ensures !confirmed ==> h.Now() == old(h.Now()).(fs := h.fs) && h.netTrail == old(h.netTrail) && !cleanup.Armed()
    ensures h.Valid() && OnTrack(h.fs, h.foreign, h.undoFaulted, writes) && TrailSafe(h.trail, h.foreign, from)
    ensures (old(h.faulted) ==> h.faulted) && CreatedSince(before, h.networks, cleanup.createdNetworks)
    ensures h.foreign - old(h.foreign) !! {[], LOCK} && old(h.foreign) <= h.foreign
    ensures OtherContainersKept(old(h.containers), h.containers, plan.project) && OtherVolumesKept(old(h.volumes), h.volumes, plan.project)
    ensures !cleanup.deployAttempted ==> h.containers == old(h.containers) && h.volumes == old(h.volumes)
    ensures old(h.fs).Keys <= h.fs.Keys
    ensures |old(h.netTrail)| <= |h.netTrail|
    ensures SpecsReconcile(before, plan.networks) ==> NetworksReusable(h.netTrail, plan.networks, |old(h.netTrail)|)
    ensures ok ==> confirmed && LOCK in h.fs && h.fs[LOCK] == File(Manifest) && AllWritten(h.fs, writes, |writes|)
    ensures ok ==> NetworksServe(h.networks, plan.networks)
    ensures !ok ==> !confirmed || h.faulted || !SpecsReconcile(before, plan.networks)
  {
    hide LaidOut, IsTree, OnTrack, AllWritten, SpecsReconcile, KillSafe, CreatedSince, LockHeld, TrailSafe;
    CreatedNothing(before);
    Interference(h, writes, from);
    var step := h.Reach(Asked);
    if !step || !confirmed {
      return false;
    }
    ok := EnsureInstallNetworks(h, plan, cleanup, before);
    if !ok {
      return;
    }
    ok := h.Reach(PortsFree);
    if !ok {
      return;
    }
    cleanup.deployAttempted := true;
    ok := DeployAndCommit(h, plan, writes, from);
  }

  /** Compose up, the image pins, and the manifest write that commits. */
  method DeployAndCommit(h: Host, plan: Plan, writes: seq<FileWrite>, ghost from: nat) returns (ok: bool)
    requires h.Valid() && LaidOut(writes)
    requires OnTrack(h.fs, h.foreign, h.undoFaulted, writes) && LockHeld(h.fs) && TrailSafe(h.trail, h.foreign, from)
    requires AllWritten(h.fs, writes, |writes|)
    modifies h`fs, h`foreign, h`faulted, h`trail, h`log, h`containers, h`volumes
    ensures ok <==> h.log == old(h.log) + CommitLog(plan.project)[2..]
    ensures h.log <= old(h.log) + CommitLog(plan.project)[2..]
    ensures h.Valid() && OnTrack(h.fs, h.foreign, h.undoFaulted, writes) && TrailSafe(h.trail, h.foreign, from)
    ensures (old(h.faulted) ==> h.faulted) && (!ok ==> h.faulted)
    ensures h.foreign - old(h.foreign) !! {[], LOCK} && old(h.foreign) <= h.foreign
    ensures OtherContainersKept(old(h.containers), h.containers, plan.project) && OtherVolumesKept(old(h.volumes), h.volumes, plan.project)
    ensures old(h.fs).Keys <= h.fs.Keys
    ensures ok ==> LOCK in h.fs && h.fs[LOCK] == File(Manifest) && AllWritten(h.fs, writes, |writes|)
  {
    hide LaidOut, IsTree, OnTrack, AllWritten, KillSafe, TrailSafe, OtherContainersKept, OtherVolumesKept;
    ok := h.ComposeUp(plan.project);
    // The deployment, failing or not, creates the mount points its services bind below the stack directory.
    Interference(h, writes, from);
    if !ok {
      return;
    }
    ok := h.Reach(PinsCaptured);
    if !ok {
      return;
    }
    ghost var t := h.fs;
    ok := h.WriteLockManifest();
    AfterSeeded(writes, t, h.fs, LOCK, h.fs[LOCK], h.foreign, h.undoFaulted);
  }

  // ---- The whole run ----

  datatype InstallResult =
    | NotInstalled              // nothing was created, or the stack directory step itself failed
    | ManagedElsewhere          // another actor's manifest appeared in the new directory
    | Failed(clean: bool)       // the sad path ran; clean means the original fault is reported unchanged
    | Committed(verified: bool) // the manifest is durable

  /** In every run: earlier networks stay as they were, and no other project is touched. */
  ghost predicate OthersUntouched(before: Snapshot, after: Snapshot, project: string) {
    && (forall n :: n in before.networks ==> n in after.networks && after.networks[n] == before.networks[n])
    && OtherContainersKept(before.containers, after.containers, project)
    && OtherVolumesKept(before.volumes, after.volumes, project)
  }

  /** Nothing of the install is left: no directory, the earlier networks, no new project container or volume. */
  ghost predicate NothingLeft(before: Snapshot, after: Snapshot, project: string) {
    && after.fs == map[] && after.networks == before.networks
    && (forall c :: c in after.containers && c.project == project ==> c in before.containers)
    && (forall v :: v in after.volumes && v.project == project ==> v in before.volumes)
  }

  /** The stack is complete on disk, its manifest is durable, and every network it declares exists as declared. */
  ghost predicate StackInPlace(after: Snapshot, plan: Plan, writes: seq<FileWrite>) {
    && LOCK in after.fs && after.fs[LOCK] == File(Manifest) && USER_ENV in after.fs
    && AllWritten(after.fs, writes, |writes|)
    && NetworksServe(after.networks, plan.networks)
  }

  /** What a committed stack holds, name by name: the compose file, the environment, every further file where its
      destination joins, the user file and the manifest. */
  lemma CommittedFiles(after: Snapshot, plan: Plan, writes: seq<FileWrite>)
    requires IsPlanned(plan, writes) && StackInPlace(after, plan, writes)
    ensures ["docker-compose.yml"] in after.fs && after.fs[["docker-compose.yml"]] == File(Data(plan.compose))
    ensures [".env"] in after.fs && after.fs[[".env"]] == File(Data(plan.env))
    ensures forall f :: f in plan.files ==>
              SafeJoin(plan.rootAbsolute, f.dest).Some? && SafeJoin(plan.rootAbsolute, f.dest).value in after.fs &&
              after.fs[SafeJoin(plan.rootAbsolute, f.dest).value] == File(Data(f.bytes))
    ensures [".env.user"] in after.fs && [".wdm.lock"] in after.fs && after.fs[[".wdm.lock"]] == File(Manifest)
  {
    hide SafeJoin, NetworksServe;
    assert after.fs[writes[0].path] == File(Data(writes[0].data)) && after.fs[writes[1].path] == File(Data(writes[1].data));
    forall f | f in plan.files
      ensures SafeJoin(plan.rootAbsolute, f.dest).Some? && SafeJoin(plan.rootAbsolute, f.dest).value in after.fs
      ensures after.fs[SafeJoin(plan.rootAbsolute, f.dest).value] == File(Data(f.bytes))
    {
      var k :| 0 <= k < |plan.files| && plan.files[k] == f;
      assert writes[k + 2] == writes[2..][k];
    }
  }

  /** From the written files to the commit, or through the sad path. */
  method SeedAndCommit(h: Host, plan: Plan, confirmed: bool, writes: seq<FileWrite>, ghost from: nat)
    returns (r: InstallResult)
    requires h.Valid() && Acceptable(plan) && IsPlanned(plan, writes) && LaidOut(writes)
    requires OnTrack(h.fs, h.foreign, h.undoFaulted, writes) && LockHeld(h.fs) && TrailSafe(h.trail, h.foreign, from)
    requires AllWritten(h.fs, writes, |writes|)
    modifies h
    ensures h.Valid() && TrailSafe(h.trail, h.foreign, from) && (old(h.faulted) ==> h.faulted)
    ensures r.Failed? || r.Committed?
    ensures !confirmed ==> h.Now() == old(h.Now()).(fs := h.fs) && h.netTrail == old(h.netTrail)
    ensures !h.undoFaulted || r == Failed(true) || r == Committed(true) ==> !h.locked
    ensures h.foreign - old(h.foreign) !! {[], LOCK} && ForeignKept(h.fs, h.foreign, writes)
    ensures OthersUntouched(old(h.Now()), h.Now(), plan.project)
    ensures r.Failed? && r.clean ==> NothingLeft(old(h.Now()), h.Now(), plan.project)
    ensures r.Failed? && !h.undoFaulted ==> (r.clean <==> h.foreign <= Own(writes))
    ensures |old(h.netTrail)| <= |h.netTrail|
    ensures SpecsReconcile(old(h.networks), plan.networks) ==> NetworksReusable(h.netTrail, plan.networks, |old(h.netTrail)|)
    ensures r.Committed? ==> confirmed && StackInPlace(h.Now(), plan, writes)
    ensures r.Committed? <==> old(h.log) + CommitLog(plan.project) <= h.log
    ensures h.log <= old(h.log) + CommitLog(plan.project) + [StatusRead]
    ensures r == Committed(true) ==> h.log == old(h.log) + CommitLog(plan.project) + [StatusRead]
    ensures r.Failed? ==> !confirmed || h.faulted || !SpecsReconcile(old(h.networks), plan.networks)
  {
    hide Acceptable, IsPlanned, LaidOut, IsTree, OnTrack, AllWritten, KillSafe, SpecsReconcile, Own, CreatedSince, OnlyRemoved, ForeignKept,
         TrailSafe, LockHeld, NetworksReusable, OtherContainersKept, OtherVolumesKept, NetworksServe;
    var cleanup := new DockerCleanup(plan.project);
    ghost var before := h.networks;
    CreatedNothing(before);
    NothingCreatedYet(h.netTrail, plan.networks);
    NothingDeployed(h.containers, h.volumes, plan.project);
    var ok := SeedUserEnv(h, writes, from);
    if ok {
      ok := CommitInstall(h, plan, cleanup, confirmed, writes, from, before);
    }
    label Attempted:
    if !ok {
      var clean := FailOnTrack(h, plan, cleanup, true, writes, before);
      OthersKeptTwice(old(h.containers), old@Attempted(h.containers), h.containers, old(h.volumes), old@Attempted(h.volumes), h.volumes, plan.project);
      return Failed(clean);
    }
    CreatedSinceKeeps(before, h.networks, cleanup.createdNetworks);
    OnlyRemovedNothing(h.fs, writes);
    OnTrackKeepsForeign(h.fs, h.fs, h.foreign, h.undoFaulted, writes);
    r := ReportCommitted(h);
  }

  /** After the commit: a status problem or a release fault changes no file. */
  method ReportCommitted(h: Host) returns (r: InstallResult)
    requires h.Valid()
    modifies h`faulted, h`undoFaulted, h`log, h`locked
    ensures h.Valid() && (old(h.faulted) ==> h.faulted) && (old(h.undoFaulted) ==> h.undoFaulted)
    ensures r.Committed? && (!h.undoFaulted || r.verified ==> !h.locked)
    ensures h.log == old(h.log) || h.log == old(h.log) + [StatusRead]
    ensures r.verified ==> h.log == old(h.log) + [StatusRead]
  {
    var verified := h.Reach(StatusRead);
    var released := h.ReleaseLock();
    r := Committed(verified && released);
  }

  /** ensureUserEnvFile, as far as the whole install is concerned. */
  method SeedUserEnv(h: Host, writes: seq<FileWrite>, ghost from: nat) returns (ok: bool)
    requires h.Valid() && LaidOut(writes) && OnTrack(h.fs, h.foreign, h.undoFaulted, writes) && LockHeld(h.fs)
    requires TrailSafe(h.trail, h.foreign, from) && AllWritten(h.fs, writes, |writes|)
    modifies h`fs, h`faulted, h`trail
    ensures h.Valid() && OnTrack(h.fs, h.foreign, h.undoFaulted, writes) && LockHeld(h.fs)
    ensures TrailSafe(h.trail, h.foreign, from) && AllWritten(h.fs, writes, |writes|)
    ensures (old(h.faulted) ==> h.faulted) && if ok then USER_ENV in h.fs else h.faulted
  {
    hide LaidOut, IsTree, OnTrack, AllWritten, KillSafe, LockHeld;
    ghost var t := h.fs;
    OnTrackHasRoot(t, h.foreign, h.undoFaulted, writes);
    ok := h.EnsureUserEnvFile();
    AfterUserEnv(writes, t, h.fs, h.foreign, h.undoFaulted);
  }

  lemma NothingDeployed(containers: set<Container>, volumes: set<Volume>, project: string)
    ensures OtherContainersKept(containers, containers, project) && OtherVolumesKept(volumes, volumes, project)
  {
  }

  lemma OthersKeptTwice(c0: set<Container>, c1: set<Container>, c2: set<Container>, v0: set<Volume>, v1: set<Volume>, v2: set<Volume>,
                        project: string)
    requires OtherContainersKept(c0, c1, project) && OtherContainersKept(c1, c2, project)
    requires OtherVolumesKept(v0, v1, project) && OtherVolumesKept(v1, v2, project)
    ensures OtherContainersKept(c0, c2, project) && OtherVolumesKept(v0, v2, project)
  {
  }

  lemma OnTrackHasRoot(t: Tree, foreign: set<Path>, dirty: bool, writes: seq<FileWrite>)
    requires OnTrack(t, foreign, dirty, writes)
    ensures [] in t && t[[]] == Dir
  {
  }

  lemma CreatedSinceKeeps(before: map<string, Network>, now: map<string, Network>, created: seq<string>)
    requires CreatedSince(before, now, created)
    ensures forall n :: n in before ==> n in now && now[n] == before[n]
  {
  }

  lemma CreatedNothing(before: map<string, Network>)
    ensures CreatedSince(before, before, [])
  {
  }

  lemma AfterUserEnv(writes: seq<FileWrite>, t: Tree, after: Tree, foreign: set<Path>, dirty: bool)
    requires LaidOut(writes) && OnTrack(t, foreign, dirty, writes) && IsTree(after) && LockHeld(t)
    requires AllWritten(t, writes, |writes|)
    requires after == t || after == t[USER_ENV := File(Empty)]
    ensures OnTrack(after, foreign, dirty, writes) && LockHeld(after) && AllWritten(after, writes, |writes|) && KillSafe(after)
  {
    if after != t {
      AfterSeeded(writes, t, after, USER_ENV, File(Empty), foreign, dirty);
    }
    assert USER_ENV != LOCK;
  }

  /** Every fault point of an install at once: whatever fails and whatever other processes drop meanwhile. */
  method FreshRun(h: Host, plan: Plan, confirmed: bool) returns (r: InstallResult, writes: seq<FileWrite>)
    requires h.Valid() && h.foreign == {} && !h.locked
    modifies h
    ensures h.Valid() && (old(h.faulted) ==> h.faulted)
    ensures !h.undoFaulted || r == Failed(true) || r == Committed(true) ==> !h.locked
    ensures OthersUntouched(old(h.Now()), h.Now(), plan.project)
    ensures r.NotInstalled? && [] !in h.foreign ==>
              h.Now() == old(h.Now()) || (old(h.fs) == map[] && h.Now() == old(h.Now()).(fs := map[[] := Dir]))
    ensures r.NotInstalled? && [] in h.foreign ==> h.fs.Keys == h.foreign && h.Now() == old(h.Now()).(fs := h.fs)
    // A clean failure leaves nothing; when no undo primitive fails, it is clean exactly when nobody put anything
    // into the stack directory outside the planned paths.
    ensures r.Failed? && r.clean ==> NothingLeft(old(h.Now()), h.Now(), plan.project)
    ensures r.Failed? && !h.undoFaulted ==> (r.clean <==> h.foreign <= Own(writes))
    ensures r.Failed? || r.Committed? ==> Acceptable(plan) && IsPlanned(plan, writes) && ForeignKept(h.fs, h.foreign, writes)
    ensures r.Committed? ==> confirmed && StackInPlace(h.Now(), plan, writes)
    // Without confirmation no network, container or volume changes.
    ensures !confirmed ==> h.Now() == old(h.Now()).(fs := h.fs) && h.netTrail == old(h.netTrail)
    // A run commits exactly when it confirmed, found its ports free, deployed, captured the pins and wrote the
    // manifest, in that order; no run does these in another order.
    ensures r.Committed? <==> old(h.log) + CommitLog(plan.project) <= h.log
    ensures h.log <= old(h.log) + CommitLog(plan.project) + [StatusRead]
    ensures r == Committed(true) ==> h.log == old(h.log) + CommitLog(plan.project) + [StatusRead]
    // What a kill anywhere up to the manifest write leaves: see ForceAfterKill.
    ensures TrailSafe(h.trail, h.foreign, |old(h.trail)|)
    ensures |old(h.netTrail)| <= |h.netTrail|
    ensures SpecsReconcile(old(h.networks), plan.networks) ==> NetworksReusable(h.netTrail, plan.networks, |old(h.netTrail)|)
    // Without faults, refusals or collisions it commits.
    ensures (old(h.fs) == map[] && Acceptable(plan) && confirmed && !h.faulted && [] !in h.foreign && LOCK !in h.foreign
             && SpecsReconcile(old(h.networks), plan.networks)) ==> r.Committed?
  {
    hide Acceptable, IsPlanned, LaidOut, IsTree, OnTrack, AllWritten, SpecsReconcile, OthersUntouched, NothingLeft, StackInPlace, ForeignKept, TrailSafe, LockHeld, Own;
    NothingCreatedYet(h.netTrail, plan.networks);
    ghost var before := h.Now();
    var written;
    written, writes := WriteInstallFiles(h, plan);
    ghost var afterWrite := h.Now();
    OnlyFilesChanged(before, afterWrite, afterWrite, plan.project);
    match written {
      case NotStarted => return NotInstalled, writes;
      case ForeignManaged => return ManagedElsewhere, writes;
      case RolledBack(clean) => return Failed(clean), writes;
      case AllFilesWritten =>
    }
    var joins := InstallComposeProject(plan);
    AcceptableIsAbsolute(plan);
    if !joins {
      assert false;
      return NotInstalled, writes;
    }
    r := SeedAndCommit(h, plan, confirmed, writes, |old(h.trail)|);
    OnlyFilesChanged(before, afterWrite, h.Now(), plan.project);
  }

  lemma NothingCreatedYet(trail: seq<map<string, Network>>, specs: seq<NetworkSpec>)
    ensures NetworksReusable(trail, specs, |trail|)
  {
  }

  /** The compose and env paths of the deployed project: the joins that already succeeded for the writes. */
  method InstallComposeProject(plan: Plan) returns (ok: bool)
    ensures ok <==> plan.rootAbsolute
  {
    hide SafeJoin;
    var composePath := SafeJoin(plan.rootAbsolute, COMPOSE[0]);
    var envPath := SafeJoin(plan.rootAbsolute, ENV[0]);
    JoinsOfReserved(plan.rootAbsolute);
    ok := composePath.Some? && envPath.Some?;
  }

  /** Writing files changes no Docker state, so what is judged against it may start before or after. */
  lemma OnlyFilesChanged(before: Snapshot, mid: Snapshot, after: Snapshot, project: string)
    requires mid == before.(fs := mid.fs)
    ensures OthersUntouched(before, after, project) <==> OthersUntouched(mid, after, project)
    ensures NothingLeft(before, after, project) <==> NothingLeft(mid, after, project)
    ensures OthersUntouched(mid, mid, project) && (mid.fs == map[] ==> NothingLeft(mid, mid, project))
  {
  }

  /** An install, with the opt-in recovery of an orphan first. */
  method Install(h: Host, plan: Plan, force: bool, ctx: RecoveryContext, confirmed: bool)
    returns (r: InstallResult, writes: seq<FileWrite>)
    requires h.Valid() && h.foreign == {} && !h.locked && ctx.project == plan.project
    modifies h
    ensures h.Valid()
    ensures !confirmed && !force ==> h.Now() == old(h.Now()).(fs := h.fs) && h.netTrail == old(h.netTrail)
    ensures r.Failed? && r.clean ==> h.fs == map[] && (!force ==> NothingLeft(old(h.Now()), h.Now(), plan.project))
    ensures r.Committed? ==> confirmed && IsPlanned(plan, writes) && StackInPlace(h.Now(), plan, writes)
    ensures r.Committed? <==> old(h.log) + CommitLog(plan.project) <= h.log
    ensures r == Committed(true) ==> h.log == old(h.log) + CommitLog(plan.project) + [StatusRead]
    ensures !h.undoFaulted || r == Failed(true) || r == Committed(true) ==> !h.locked
    ensures TrailSafe(h.trail, h.foreign, |old(h.trail)|)
    ensures |old(h.netTrail)| <= |h.netTrail|
    ensures SpecsReconcile(old(h.networks), plan.networks) ==> NetworksReusable(h.netTrail, plan.networks, |old(h.netTrail)|)
    // After a kill before compose up, a forced install on a healthy host goes all the way through.
    ensures (force && KillSafe(old(h.fs)) && !IsLive(old(h.containers), plan.project) && !old(h.lockBusy) && ctx.rootSafe && ctx.underHome
             && Acceptable(plan) && confirmed && !h.faulted && [] !in h.foreign && LOCK !in h.foreign
             && SpecsReconcile(old(h.networks), plan.networks)) ==> r.Committed?
    // What recovery does not accept, a forced install refuses and leaves alone.
    ensures force && !KillSafe(old(h.fs)) ==> r.NotInstalled? && h.fs == old(h.fs)
  {
    hide Acceptable, IsPlanned, LaidOut, IsTree, OnTrack, AllWritten, KillSafe, SpecsReconcile, Own;
    NothingCreatedYet(h.netTrail, plan.networks);
    writes := [];
    var step := h.Step();
    if !step {
      return NotInstalled, writes;
    }
    if force {
      var recovered := RecoverOrphanedStack(h, ctx);
      if !recovered {
        return NotInstalled, writes;
      }
      SweptStillReconcile(old(h.networks), h.networks, plan.networks);
    }
    r, writes := FreshRun(h, plan, confirmed);
  }

  /** The state is one of those a run recorded from the given point on. */
  ghost predicate LeftBy<T>(trail: seq<T>, from: nat, state: T) {
    exists k :: from <= k < |trail| && trail[k] == state
  }

  /** Kill and recover: from whatever tree and networks an install left where it was killed, unless another process had
      raced in a lock, the next forced install of the same plan on a healthy host goes all the way through exactly
      when the lock is there or the directory holds nothing else. */
  method ForceAfterKill(killed: Host, next: Host, plan: Plan, confirmed: bool, ctx: RecoveryContext)
    returns (r: InstallResult, writes: seq<FileWrite>)
    requires killed != next && killed.Valid() && next.Valid() && killed.foreign == {} && next.foreign == {}
    requires !killed.locked && !next.locked && ctx.project == plan.project
    modifies killed, next
    ensures (LeftBy(killed.trail, |old(killed.trail)|, old(next.fs)) && LOCK !in killed.foreign
             && (old(next.networks) == old(killed.networks) || LeftBy(killed.netTrail, |old(killed.netTrail)|, old(next.networks)))
             && SpecsReconcile(old(killed.networks), plan.networks) && Acceptable(plan) && ctx.rootSafe && ctx.underHome
             && !IsLive(old(next.containers), plan.project) && !old(next.lockBusy)
             && !next.faulted && [] !in next.foreign && LOCK !in next.foreign)
            ==> (r.Committed? <==> LOCK in old(next.fs) || old(next.fs).Keys <= {[]})
    // The directory is refused and left alone where that fails, on a healthy host or not.
    ensures (LeftBy(killed.trail, |old(killed.trail)|, old(next.fs)) && LOCK !in killed.foreign
             && LOCK !in old(next.fs) && !(old(next.fs).Keys <= {[]})) ==> r.NotInstalled? && next.fs == old(next.fs)
    ensures r.Committed? ==> IsPlanned(plan, writes) && StackInPlace(next.Now(), plan, writes)
  {
    hide Acceptable, IsPlanned, IsTree, AllWritten, KillSafe, SpecsReconcile, OthersUntouched, NothingLeft, StackInPlace,
         ForeignKept, Own, TrailSafe;
    var _, _ := FreshRun(killed, plan, confirmed);
    if LOCK !in killed.foreign && LeftBy(killed.trail, |old(killed.trail)|, old(next.fs)) {
      ghost var k :| |old(killed.trail)| <= k < |killed.trail| && killed.trail[k] == old(next.fs);
      TrailTreeIsKillSafe(killed.trail, killed.foreign, |old(killed.trail)|, k);
    }
    r, writes := Install(next, plan, true, ctx, true);
  }

  const NOTES: Path := ["notes"]

  /** The window between mkdir and the flock: one file dropped there and a kill leave a tree of the trail that no forced
      install accepts. */
  lemma DroppedBeforeLockIsRefused()
    ensures var t: Tree := map[[] := Dir, NOTES := File(Data("x"))];
            IsTree(t) && TrailSafe([t], {NOTES}, 0) && LOCK !in t && !KillSafe(t)
  {
    var t: Tree := map[[] := Dir, NOTES := File(Data("x"))];
    assert Parent(NOTES) == [];
    assert NOTES != LOCK && t.Keys == {[], NOTES};
  }

  lemma SweptStillReconcile(before: map<string, Network>, now: map<string, Network>, specs: seq<NetworkSpec>)
    requires forall n :: n in now ==> n in before && now[n] == before[n]
    ensures SpecsReconcile(before, specs) ==> SpecsReconcile(now, specs)
  {
  }

  lemma AcceptableIsAbsolute(plan: Plan)
    requires Acceptable(plan)
    ensures plan.rootAbsolute
  {
  }
}
