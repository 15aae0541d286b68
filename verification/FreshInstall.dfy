// The fresh-install transaction: mkdir, lock, atomic writes, confirmation, networks,
// port re-check, compose up and the manifest commit, with its compensation path
// (install.go, install_phase_write.go, install_phase_deploy.go).
module FreshInstall {
  import opened Paths
  import opened FileTree
  import opened ArtifactLayout
  import opened Machine
  import opened Cleanup
  import opened Recovery

  // ---- The Docker half of the rollback ----

  /** The networks in the list are distinct and were not there before; everything that was is untouched. */
  ghost predicate CreatedSince(before: map<string, Network>, now: map<string, Network>, created: seq<string>) {
    && (forall n :: n in before ==> n in now && now[n] == before[n])
    && (forall n :: n in now ==> n in before || n in created)
    && (forall i :: 0 <= i < |created| ==> created[i] in now && created[i] !in before)
    && (forall i, j :: 0 <= i < j < |created| ==> created[i] != created[j])
  }

  class DockerCleanup {
    const project: string
    var createdNetworks: seq<string>
    var deployAttempted: bool

    constructor (project: string)
      ensures this.project == project && createdNetworks == [] && !deployAttempted
    {
      this.project, createdNetworks, deployAttempted := project, [], false;
    }

    predicate Armed()
      reads this
    {
      deployAttempted || |createdNetworks| > 0
    }

    method RemoveVolumes(h: Host, listed: set<Volume>) returns (ok: bool)
      requires h.Valid() && forall v :: v in listed ==> v.project == project
      modifies h`volumes, h`undoFaulted, h`faulted
      ensures h.Valid()
      ensures (old(h.undoFaulted) ==> h.undoFaulted) && (old(h.faulted) ==> h.faulted)
      ensures OtherVolumesKept(old(h.volumes), h.volumes, project)
      ensures ok ==> h.volumes == old(h.volumes) - listed
      ensures !ok ==> h.undoFaulted || exists c :: c in h.containers && c.project == project
    {
      ok := true;
      var pending := listed;
      while pending != {}
        invariant h.Valid() && (old(h.undoFaulted) ==> h.undoFaulted) && (old(h.faulted) ==> h.faulted)
        invariant pending <= listed && OtherVolumesKept(old(h.volumes), h.volumes, project)
        invariant ok ==> h.volumes == old(h.volumes) - (listed - pending)
        invariant !ok ==> h.undoFaulted || exists c :: c in h.containers && c.project == project
        decreases pending
      {
        var v :| v in pending;
        var removed := h.RemoveNamedVolume(v);
        ok := ok && removed;
        pending := pending - {v};
      }
    }

    /** The networks this install created, newest first; a fault on one does not stop the rest. */
    method RemoveCreatedNetworks(h: Host, ghost before: map<string, Network>) returns (ok: bool)
      requires h.Valid() && CreatedSince(before, h.networks, createdNetworks)
      modifies h`networks, h`undoFaulted, h`faulted
      ensures h.Valid()
      ensures (old(h.undoFaulted) ==> h.undoFaulted) && (old(h.faulted) ==> h.faulted)
      ensures forall n :: n in before ==> n in h.networks && h.networks[n] == before[n]
      ensures ok ==> h.networks == before
      ensures !ok ==> h.undoFaulted
    {
      ok := true;
      var i := |createdNetworks|;
      assert createdNetworks[..i] == createdNetworks;
      while i > 0
        invariant 0 <= i <= |createdNetworks|
        invariant h.Valid() && (old(h.undoFaulted) ==> h.undoFaulted) && (old(h.faulted) ==> h.faulted)
        invariant !ok ==> h.undoFaulted
        invariant forall n :: n in before ==> n in h.networks && h.networks[n] == before[n]
        invariant forall j :: 0 <= j < i ==> createdNetworks[j] in h.networks
        invariant ok ==> forall n :: n in h.networks ==> n in before || n in createdNetworks[..i]
      {
        i := i - 1;
        var removed := h.RemoveNetwork(createdNetworks[i]);
        ok := ok && removed;
        assert createdNetworks[..i + 1] == createdNetworks[..i] + [createdNetworks[i]];
      }
      assert createdNetworks[..0] == [];
    }

    /** Compose down, the project's volumes, then the created networks in reverse order. */
    method RunDocker(h: Host, ghost before: map<string, Network>) returns (ok: bool)
      requires h.Valid() && CreatedSince(before, h.networks, createdNetworks)
      modifies h`networks, h`containers, h`volumes, h`undoFaulted, h`faulted
      ensures h.Valid()
      ensures (old(h.undoFaulted) ==> h.undoFaulted) && (old(h.faulted) ==> h.faulted)
      ensures forall n :: n in before ==> n in h.networks && h.networks[n] == before[n]
      ensures OtherContainersKept(old(h.containers), h.containers, project) && OtherVolumesKept(old(h.volumes), h.volumes, project)
      ensures !deployAttempted ==> h.containers == old(h.containers) && h.volumes == old(h.volumes)
      ensures ok ==> h.networks == before
      ensures ok && deployAttempted ==>
        (forall c :: c in h.containers ==> c.project != project) && (forall v :: v in h.volumes ==> v.project != project)
      ensures !ok ==> h.undoFaulted
    {
      hide CreatedSince;
      ok := true;
      if deployAttempted {
        var down := h.ComposeDown(project);
        var pending, listed := h.ListProjectNamedVolumes(project);
        var removed := RemoveVolumes(h, pending);
        ok := down && listed && removed;
      }
      var removed := RemoveCreatedNetworks(h, before);
      ok := ok && removed;
    }
  }

  // ---- Progress of the forward path ----

  /** Nothing is in the stack directory but planned paths and what others put there, and theirs is still there. */
  ghost predicate OnTrack(t: Tree, foreign: set<Path>, dirty: bool, writes: seq<FileWrite>) {
    && IsTree(t) && [] in t && t[[]] == Dir
    && (dirty || t.Keys <= Own(writes) + foreign)
    && foreign !! TempsOf(writes) && KindsOk(t, writes)
    && forall p :: p in foreign && p !in Own(writes) ==> p in t
  }

  /** Planned files are files and planned directories are directories. */
  ghost predicate KindsOk(t: Tree, writes: seq<FileWrite>) {
    forall p :: p in t ==> (p in OwnFiles(writes) ==> t[p] != Dir) && (p in OwnDirs(writes) ==> t[p] == Dir)
  }

  function TempsOf(writes: seq<FileWrite>): set<Path> {
    set w | w in writes && w.path != [] :: TempOf(w.path)
  }

  ghost predicate LockHeld(t: Tree) {
    LOCK in t && t[LOCK].File? && t[LOCK] != File(Manifest)
  }

  /** Before the flock: no lock yet, and nothing but the directory and what others put there. */
  ghost predicate BeforeLock(t: Tree, foreign: set<Path>) {
    LOCK !in t && [] in t && t[[]] == Dir && t.Keys <= {[]} + foreign
  }

  /** Unless another process raced in a lock of its own, every tree of the trail is one recovery can deal with, or a
      lock-less directory of foreign entries from before the flock. */
  ghost predicate TrailSafe(trail: seq<Tree>, foreign: set<Path>, from: nat) {
    from <= |trail| &&
    (LOCK !in foreign ==> forall k :: from <= k < |trail| ==> KillSafe(trail[k]) || BeforeLock(trail[k], foreign))
  }

  /** Of the trees on a trail, recovery can deal with exactly those that have the lock or nothing else. */
  lemma TrailTreeIsKillSafe(trail: seq<Tree>, foreign: set<Path>, from: nat, k: nat)
    requires TrailSafe(trail, foreign, from) && LOCK !in foreign && from <= k < |trail|
    ensures KillSafe(trail[k]) <==> LOCK in trail[k] || trail[k].Keys <= {[]}
  {
    assert LOCK != [];
  }

  ghost predicate AllWritten(t: Tree, writes: seq<FileWrite>, n: int) {
    forall i :: 0 <= i < n <= |writes| ==> writes[i].path in t && t[writes[i].path] == File(Data(writes[i].data))
  }

  // ---- The sad path ----

  /** Docker rollback when armed, then the file cleanup, then the lock release; the report is clean only if all are. */
  method FailFreshInstall(h: Host, plan: Plan, cleanup: DockerCleanup?, held: bool,
                          ghost writes: seq<FileWrite>, ghost before: map<string, Network>)
    returns (clean: bool)
    requires h.Valid() && Acceptable(plan) && IsPlanned(plan, writes)
    requires if cleanup != null then cleanup.project == plan.project && CreatedSince(before, h.networks, cleanup.createdNetworks) else h.networks == before
    modifies h`fs, h`networks, h`containers, h`volumes, h`undoFaulted, h`faulted, h`locked
    ensures h.Valid() && (old(h.undoFaulted) ==> h.undoFaulted) && (old(h.faulted) ==> h.faulted)
    ensures if held then clean || !h.undoFaulted ==> !h.locked else h.locked == old(h.locked)
    ensures forall n :: n in before ==> n in h.networks && h.networks[n] == before[n]
    ensures OtherContainersKept(old(h.containers), h.containers, plan.project) && OtherVolumesKept(old(h.volumes), h.volumes, plan.project)
    ensures cleanup == null || !cleanup.deployAttempted ==> h.containers == old(h.containers) && h.volumes == old(h.volumes)
    ensures cleanup == null || !cleanup.Armed() ==> h.networks == old(h.networks)
    ensures clean ==> h.fs == map[] && h.networks == before
    ensures clean && cleanup != null && cleanup.deployAttempted ==>
      (forall c :: c in h.containers ==> c.project != plan.project) && (forall v :: v in h.volumes ==> v.project != plan.project)
    ensures OnlyRemoved(old(h.fs), h.fs, Own(writes))
    ensures old(h.fs).Keys <= Own(writes) ==> clean || h.undoFaulted
    ensures clean ==> old(h.fs).Keys <= Own(writes)
  {
    hide Acceptable, IsPlanned, Own, IsTree;
    var dockerClean := true;
    if cleanup != null {
      if cleanup.Armed() {
        dockerClean := cleanup.RunDocker(h, before);
      } else {
        NothingCreated(before, h.networks);
      }
    }
    var filesClean := CleanupFreshInstallArtifacts(h, plan, writes);
    var released := true;
    if held {
      released := h.ReleaseLock();
    }
    clean := dockerClean && filesClean && released;
  }

  lemma NothingCreated(before: map<string, Network>, now: map<string, Network>)
    requires CreatedSince(before, now, [])
    ensures now == before
  {
  }

  // ---- Writing the files ----

  datatype WriteOutcome =
    | NotStarted       // refused, or the stack directory step failed
    | ForeignManaged   // another actor's manifest appeared; nothing is removed
    | RolledBack(clean: bool)
    | AllFilesWritten

  lemma WritePreservesOthers(writes: seq<FileWrite>, i: nat, j: nat)
    requires LaidOut(writes) && i < |writes| && j < |writes| && i != j
    ensures writes[i].path != [] && writes[j].path !in Touched(writes[i].path)
  {
    assert if i < j then PairApart(writes[i].path, writes[j].path) else PairApart(writes[j].path, writes[i].path);
    AncestorIsPrefix(writes[j].path, writes[i].path);
  }

  lemma WriteStaysInside(writes: seq<FileWrite>, i: nat)
    requires LaidOut(writes) && i < |writes|
    ensures writes[i].path != [] && LOCK !in Touched(writes[i].path) && [] !in Touched(writes[i].path)
    ensures Touched(writes[i].path) - {TempOf(writes[i].path)} <= Own(writes)
    ensures TempOf(writes[i].path) in TempsOf(writes)
  {
    assert FreeStanding(writes[i].path);
    AncestorIsPrefix(LOCK, writes[i].path);
    assert writes[i] in writes;
  }

  lemma FilePrefixesNoOther(writes: seq<FileWrite>, i: nat, j: nat)
    requires LaidOut(writes) && i < |writes| && j < |writes|
    ensures i != j ==> !(writes[i].path <= writes[j].path)
  {
    if i < j {
      assert PairApart(writes[i].path, writes[j].path);
    } else if j < i {
      assert PairApart(writes[j].path, writes[i].path);
    }
  }

  lemma PrefixOfNoneIsNotOwn(writes: seq<FileWrite>, p: Path)
    requires forall j :: 0 <= j < |writes| ==> !(p <= writes[j].path)
    ensures p !in OwnFiles(writes) && p !in OwnDirs(writes)
  {
    assert forall w :: w in writes ==> !(p <= w.path);
  }

  /** No planned file is a planned directory, and the two seeded files are neither. */
  lemma KindsApart(writes: seq<FileWrite>)
    requires LaidOut(writes)
    ensures OwnFiles(writes) !! OwnDirs(writes)
    ensures LOCK !in OwnFiles(writes) + OwnDirs(writes) && USER_ENV !in OwnFiles(writes) + OwnDirs(writes)
  {
    forall p | p in OwnFiles(writes)
      ensures p !in OwnDirs(writes)
    {
      var i :| 0 <= i < |writes| && writes[i].path == p;
      forall w, k | w in writes && 0 < k < |w.path|
        ensures w.path[..k] != p
      {
        var j :| 0 <= j < |writes| && writes[j] == w;
        FilePrefixesNoOther(writes, i, j);
      }
    }
    forall j | 0 <= j < |writes|
      ensures !(LOCK <= writes[j].path) && !(USER_ENV <= writes[j].path)
    {
      assert FreeStanding(writes[j].path);
    }
    PrefixOfNoneIsNotOwn(writes, LOCK);
    PrefixOfNoneIsNotOwn(writes, USER_ENV);
  }

  lemma KindsAfterWrite(writes: seq<FileWrite>, i: nat, before: Tree, t: Tree)
    requires LaidOut(writes) && i < |writes| && writes[i].path != []
    requires KindsOk(before, writes) && MidWrite(before, t, writes[i].path, writes[i].data)
    ensures KindsOk(t, writes)
  {
    hide LaidOut, IsTree, OwnFiles, OwnDirs, Ancestors;
    KindsApart(writes);
    TempIsNotOwn(writes, i);
    PlacesOfWrite(writes, i);
  }

  lemma PlacesOfWrite(writes: seq<FileWrite>, i: nat)
    requires i < |writes|
    ensures writes[i].path in OwnFiles(writes) && Ancestors(writes[i].path) <= OwnDirs(writes)
  {
    assert writes[i] in writes;
  }

  /** On track and without a stray temporary, nothing stands in the way of the next write. */
  lemma NextWriteIsClear(writes: seq<FileWrite>, i: nat, t: Tree, foreign: set<Path>)
    requires LaidOut(writes) && i < |writes| && OnTrack(t, foreign, false, writes)
    ensures writes[i].path != [] && ClearFor(t, writes[i].path)
  {
    hide LaidOut, IsTree, OwnFiles, OwnDirs, TempsOf;
    WriteStaysInside(writes, i);
    TempIsNotOwn(writes, i);
    PlacesOfWrite(writes, i);
    var p := writes[i].path;
    forall k | 0 < k < |p|
      ensures p[..k] in OwnDirs(writes)
    {
      assert p[..k] in Ancestors(p);
    }
  }

  lemma TempPrefixesNothing(writes: seq<FileWrite>, i: nat, j: nat)
    requires LaidOut(writes) && i < |writes| && j < |writes|
    ensures writes[i].path != [] && !(TempOf(writes[i].path) <= writes[j].path)
  {
    if i < j {
      assert PairApart(writes[i].path, writes[j].path);
    } else if j < i {
      assert PairApart(writes[j].path, writes[i].path);
    }
  }

  lemma TempIsNotOwn(writes: seq<FileWrite>, i: nat)
    requires LaidOut(writes) && i < |writes|
    ensures writes[i].path != [] && TempOf(writes[i].path) !in Own(writes)
  {
    hide OwnFiles, OwnDirs;
    assert FreeStanding(writes[i].path);
    forall j | 0 <= j < |writes|
      ensures !(TempOf(writes[i].path) <= writes[j].path)
    {
      TempPrefixesNothing(writes, i, j);
    }
    PrefixOfNoneIsNotOwn(writes, TempOf(writes[i].path));
  }

  /** A write that stopped anywhere leaves the install on track, the lock and the earlier files in place. */
  lemma AfterWrite(writes: seq<FileWrite>, i: nat, before: Tree, t: Tree, foreign: set<Path>, wasDirty: bool, dirty: bool)
    requires LaidOut(writes) && i < |writes| && writes[i].path != []
    requires OnTrack(before, foreign, wasDirty, writes) && LockHeld(before) && AllWritten(before, writes, i)
    requires MidWrite(before, t, writes[i].path, writes[i].data) && (wasDirty ==> dirty)
    requires TempOf(writes[i].path) in t ==> dirty || TempOf(writes[i].path) in before
    requires KindsOk(t, writes)
    ensures OnTrack(t, foreign, dirty, writes) && LockHeld(t) && AllWritten(t, writes, i)
    ensures writes[i].path in t && t[writes[i].path] == File(Data(writes[i].data)) ==> AllWritten(t, writes, i + 1)
  {
    hide Own, TempsOf, LaidOut, IsTree, Touched, Ancestors, KindsOk;
    var p := writes[i].path;
    WriteStaysInside(writes, i);
    TempIsNotOwn(writes, i);
    assert TempOf(p) in before ==> wasDirty;
    forall j | 0 <= j < i
      ensures writes[j].path in t && t[writes[j].path] == before[writes[j].path]
    {
      WritePreservesOthers(writes, i, j);
    }
    forall q | q in t && !dirty
      ensures q in Own(writes) + foreign
    {
      if q in Touched(p) && q != TempOf(p) {
        assert q in Own(writes);
      }
    }
    forall q | q in foreign && q !in Own(writes)
      ensures q in t
    {
      assert q !in Touched(p);
    }
  }

  /** Dropping foreign entries keeps the install on track. */
  lemma AfterInterference(writes: seq<FileWrite>, before: Tree, t: Tree, foreignBefore: set<Path>, foreign: set<Path>, dirty: bool)
    requires OnTrack(before, foreignBefore, dirty, writes) && IsTree(t)
    requires before.Keys <= t.Keys && forall p :: p in before ==> t[p] == before[p]
    requires foreign == foreignBefore + (t.Keys - before.Keys)
    requires (t.Keys - before.Keys) !! (Own(writes) + TempsOf(writes))
    ensures OnTrack(t, foreign, dirty, writes)
    ensures forall n :: AllWritten(before, writes, n) ==> AllWritten(t, writes, n)
  {
    hide IsTree, TempsOf;
  }

  /** Another process acts between two steps of the engine. */
  method Interference(h: Host, writes: seq<FileWrite>, ghost from: nat)
    requires h.Valid() && OnTrack(h.fs, h.foreign, h.undoFaulted, writes) && LockHeld(h.fs) && TrailSafe(h.trail, h.foreign, from)
    modifies h`fs, h`foreign, h`trail
    ensures h.Valid() && OnTrack(h.fs, h.foreign, h.undoFaulted, writes) && LockHeld(h.fs) && TrailSafe(h.trail, h.foreign, from)
    ensures old(h.foreign) <= h.foreign && old(h.fs).Keys <= h.fs.Keys && forall p :: p in old(h.fs) ==> h.fs[p] == old(h.fs)[p]
    ensures forall n :: AllWritten(old(h.fs), writes, n) ==> AllWritten(h.fs, writes, n)
    ensures h.foreign - old(h.foreign) !! {[], LOCK}
  {
    hide IsTree, Own, TempsOf;
    OwnHasRoot(writes);
    h.Interfere(Own(writes) + TempsOf(writes));
    AfterInterference(writes, old(h.fs), h.fs, old(h.foreign), h.foreign, h.undoFaulted);
  }

  /** One planned write, as far as the whole install is concerned. */
  method WriteOne(h: Host, writes: seq<FileWrite>, i: nat, ghost from: nat) returns (ok: bool)
    requires LaidOut(writes) && i < |writes| && h.Valid()
    requires OnTrack(h.fs, h.foreign, h.undoFaulted, writes) && LockHeld(h.fs)
    requires TrailSafe(h.trail, h.foreign, from) && AllWritten(h.fs, writes, i)
    modifies h`fs, h`foreign, h`faulted, h`undoFaulted, h`trail
    ensures h.Valid() && OnTrack(h.fs, h.foreign, h.undoFaulted, writes) && LockHeld(h.fs)
    ensures TrailSafe(h.trail, h.foreign, from) && AllWritten(h.fs, writes, i)
    ensures (old(h.faulted) ==> h.faulted) && (old(h.undoFaulted) ==> h.undoFaulted)
    ensures old(h.foreign) <= h.foreign && h.foreign - old(h.foreign) !! {[], LOCK}
    ensures if ok then AllWritten(h.fs, writes, i + 1) else h.faulted
  {
    hide LaidOut, IsTree, Own, Touched, TempsOf, MidWrite, Written, KindsOk;
    WriteStaysInside(writes, i);
    Interference(h, writes, from);
    ghost var before, trailed, wasDirty := h.fs, h.trail, h.undoFaulted;
    var path, data := writes[i].path, writes[i].data;
    if !h.undoFaulted {
      NextWriteIsClear(writes, i, before, h.foreign);
    }
    var checked := h.Step();
    if !checked || exists k :: 0 < k < |path| && path[..k] in h.fs && h.fs[path[..k]] != Dir {
      return false;
    }
    ok := h.WriteFileAtomic(path, data);
    OnTrackKinds(before, h.foreign, wasDirty, writes);
    KindsAfterWrite(writes, i, before, h.fs);
    AfterWrite(writes, i, before, h.fs, h.foreign, wasDirty, h.undoFaulted);
    forall k | |trailed| <= k < |h.trail|
      ensures KillSafe(h.trail[k])
    {
      assert LOCK in h.trail[k] && h.trail[k][LOCK] == before[LOCK];
    }
    assert forall k :: 0 <= k < |trailed| ==> h.trail[k] == trailed[k];
  }

  lemma OnTrackKinds(t: Tree, foreign: set<Path>, dirty: bool, writes: seq<FileWrite>)
    requires OnTrack(t, foreign, dirty, writes)
    ensures KindsOk(t, writes)
  {
  }

  lemma OwnHasRoot(writes: seq<FileWrite>)
    ensures [] in Own(writes) && LOCK in Own(writes) && USER_ENV in Own(writes)
  {
  }
}
