// The host an install runs on: the stack directory and the Docker daemon. Every
// primitive may fail, chosen nondeterministically, and other processes may drop
// files into the stack directory between the engine's steps.
module Machine {
  import opened Paths
  import opened FileTree
  import opened ArtifactLayout

  datatype Network = Network(internal: bool, subnet: string, managed: bool)

  datatype NetworkSpec = NetworkSpec(name: string, internal: bool, subnet: string)

  /** An existing network serves a spec: same internal flag, and the pinned subnet if one is pinned. */
  predicate Reconciles(existing: Network, spec: NetworkSpec) {
    existing.internal == spec.internal && (spec.subnet == "" || existing.subnet == spec.subnet)
  }

  // running: running or restarting.
  datatype Container = Container(project: string, id: nat, running: bool)

  datatype Volume = Volume(project: string, name: string)

  ghost predicate OtherContainersKept(before: set<Container>, after: set<Container>, project: string) {
    forall c: Container :: c.project != project ==> (c in before <==> c in after)
  }

  ghost predicate OtherVolumesKept(before: set<Volume>, after: set<Volume>, project: string) {
    forall v: Volume :: v.project != project ==> (v in before <==> v in after)
  }

  datatype StackDir = Made | AlreadyThere | DirFault

  datatype ClearOutcome = Cleared | Absent | Refused

  datatype RemoveOutcome = Removed | Denied | RemoveFault

  datatype LockState = Held(managed: bool) | NotHeld

  // What an install gets done after its files are written, in the order it does: the last comes after the commit.
  datatype Milestone = Asked | PortsFree | Deployed(project: string) | PinsCaptured | ManifestWritten | StatusRead

  // The state of a host that outlives a run.
  datatype Snapshot = Snapshot(fs: Tree, networks: map<string, Network>, containers: set<Container>, volumes: set<Volume>)

  class Host {
    var fs: Tree
    var networks: map<string, Network>
    var containers: set<Container>
    var volumes: set<Volume>
    // Another process holds the stack flock; files below the stack directory belong to a container's subuid range.
    var lockBusy: bool
    var guarded: bool

    // Paths put into the stack directory by other processes.
    ghost var foreign: set<Path>
    // Some primitive failed; some undo primitive (rollback, cleanup, temporary-file removal) failed.
    ghost var faulted: bool
    ghost var undoFaulted: bool
    // The trees and the networks a kill could have left on the forward path, oldest first.
    ghost var trail: seq<Tree>
    ghost var netTrail: seq<map<string, Network>>
    // The milestones reached, oldest first.
    ghost var log: seq<Milestone>
    // This run holds the stack flock.
    ghost var locked: bool

    ghost predicate Valid()
      reads this
    {
      IsTree(fs) && (undoFaulted ==> faulted)
    }

    ghost function Now(): Snapshot
      reads this
    {
      Snapshot(fs, networks, containers, volumes)
    }

    // ---- Other processes ----

    /** Another process may create files and directories anywhere the install does not claim. */
    method Interfere(claimed: set<Path>)
      requires Valid() && [] in claimed
      modifies this`fs, this`foreign, this`trail
      ensures Valid() && old(fs).Keys <= fs.Keys && (forall p :: p in old(fs) ==> fs[p] == old(fs)[p])
      ensures foreign == old(foreign) + (fs.Keys - old(fs).Keys)
      ensures (fs.Keys - old(fs).Keys) !! claimed
      ensures trail == old(trail) + [fs]
    {
      var drop: Tree := *;
      if drop.Keys !! fs.Keys && drop.Keys !! claimed && IsTree(fs + drop) {
        fs := fs + drop;
        foreign := foreign + drop.Keys;
      }
      trail := trail + [fs];
    }

    // ---- Filesystem primitives ----

    method MkdirEntry(p: Path) returns (ok: bool)
      requires Valid() && p != [] && p !in fs && Parent(p) in fs && fs[Parent(p)] == Dir
      modifies this`fs, this`faulted, this`trail
      ensures Valid() && (old(faulted) ==> faulted)
      ensures fs == old(fs) || fs == old(fs)[p := Dir]
      ensures if ok then fs == old(fs)[p := Dir] else faulted
      ensures trail == old(trail) + [fs]
    {
      // The directory entry may exist although setting its mode or syncing its parent failed.
      ok := *;
      var made: bool := *;
      if ok || made {
        fs := fs[p := Dir];
      }
      if !ok {
        faulted := true;
      }
      trail := trail + [fs];
    }

    /** Creates the missing directories above a file, top down. */
    method EnsureParentDirectories(p: Path) returns (ok: bool)
      requires Valid() && p != [] && [] in fs && fs[[]] == Dir
      modifies this`fs, this`faulted, this`trail
      ensures Valid() && (old(faulted) ==> faulted)
      ensures AfterParents(old(fs), fs, p)
      ensures ok ==> Parent(p) in fs && fs[Parent(p)] == Dir
      ensures !ok ==> faulted || exists k :: 0 < k < |p| && p[..k] in fs && fs[p[..k]] != Dir
      ensures old(trail) <= trail
      ensures forall k :: |old(trail)| <= k < |trail| ==> AfterParents(old(fs), trail[k], p)
    {
      hide IsTree, Ancestors, AfterParents;
      AfterParentsStart(fs, p);
      var k := |p| - 1;
      while k > 0 && p[..k] !in fs
        invariant 0 <= k <= |p| - 1
        invariant forall j :: k < j < |p| ==> p[..j] !in fs
      {
        k := k - 1;
      }
      assert p[..0] == [];
      if fs[p[..k]] != Dir {
        return false;
      }
      ghost var found := k;
      while k < |p| - 1
        invariant found <= k <= |p| - 1 && Valid() && (old(faulted) ==> faulted)
        invariant p[..k] in fs && fs[p[..k]] == Dir
        invariant forall j :: k < j < |p| ==> p[..j] !in fs
        invariant AfterParents(old(fs), fs, p)
        invariant old(trail) <= trail
        invariant forall x :: |old(trail)| <= x < |trail| ==> AfterParents(old(fs), trail[x], p)
      {
        var dir := p[..k + 1];
        assert Parent(dir) == p[..k];
        AfterParentsMkdir(old(fs), fs, p, k + 1);
        ok := MkdirEntry(dir);
        if !ok {
          return;
        }
        assert forall j :: k + 1 < j < |p| ==> p[..j] != dir;
        k := k + 1;
      }
      assert p[..k] == Parent(p);
      ok := true;
    }

    /** os.Remove as undo code uses it: a missing entry is success, a directory with children is refused. */
    method Remove(p: Path) returns (ok: bool)
      requires Valid()
      modifies this`fs, this`undoFaulted, this`faulted
      ensures Valid() && (old(undoFaulted) ==> undoFaulted) && (old(faulted) ==> faulted)
      ensures ok ==> fs == old(fs) - {p} && (p in old(fs) ==> !HasChild(old(fs), p))
      ensures !ok ==> fs == old(fs) && (undoFaulted || HasChild(fs, p))
    {
      var fault: bool := *;
      if fault {
        undoFaulted, faulted := true, true;
        return false;
      }
      if p !in fs {
        assert fs - {p} == fs;
        return true;
      }
      if HasChild(fs, p) {
        return false;
      }
      RemoveLeaf(fs, p);
      fs := fs - {p};
      ok := true;
    }

    /** Gives up on a write: the temporary goes, the target stays as it was. */
    method AbandonTemp(ghost mid: Tree, p: Path, data: string)
      requires Valid() && p != [] && fs - {TempOf(p)} == mid - {TempOf(p)}
      modifies this`fs, this`undoFaulted, this`faulted
      ensures Valid()
      ensures MidRename(mid, fs, p, data)
      ensures (old(faulted) ==> faulted) && (old(undoFaulted) ==> undoFaulted)
      ensures TempOf(p) in fs ==> TempOf(p) in old(fs) && (undoFaulted || HasChild(old(fs), TempOf(p)))
    {
      hide IsTree, HasChild;
      var _ := Remove(TempOf(p));
      RenameNotReached(mid, fs, p, data);
    }

    /** Creates the temporary exclusively and fills it. */
    method StageTemp(p: Path, data: string) returns (ok: bool)
      requires Valid() && p != [] && Parent(p) in fs && fs[Parent(p)] == Dir
      modifies this`fs, this`faulted, this`undoFaulted, this`trail
      ensures Valid() || ok
      ensures undoFaulted ==> faulted
      ensures (old(faulted) ==> faulted) && (old(undoFaulted) ==> undoFaulted)
      ensures ok ==> TempOf(p) !in old(fs) && fs == old(fs)[TempOf(p) := File(Data(data))]
      ensures !ok ==> MidRename(old(fs), fs, p, data)
      ensures !ok ==> TempOf(p) in fs ==> undoFaulted || TempOf(p) in old(fs)
      ensures !ok ==> faulted || TempOf(p) in old(fs)
      ensures old(trail) <= trail
      ensures forall k :: |old(trail)| <= k < |trail| ==> AgreeOutside(old(fs), trail[k], {p, TempOf(p)})
    {
      hide IsTree, HasChild, AgreeOutside, MidRename;
      var temp := TempOf(p);
      var stage: bool := *;
      if temp in fs || !stage {
        faulted := faulted || temp !in fs;
        AbandonTemp(fs, p, data);
        return false;
      }
      TempStaged(fs, p, File(Empty));
      fs := fs[temp := File(Empty)];
      trail := trail + [fs];
      stage := *;
      if !stage {
        faulted := true;
        AbandonTemp(old(fs), p, data);
        return false;
      }
      TempStaged(old(fs), p, File(Data(data)));
      fs := fs[temp := File(Data(data))];
      assert fs == old(fs)[temp := File(Data(data))];
      trail := trail + [fs];
      ok := true;
    }

    /** Temporary file, write, rename, then checks and a sync that can still fail with the file in place. */
    method WriteThroughTemp(p: Path, data: string) returns (ok: bool)
      requires Valid() && p != [] && Parent(p) in fs && fs[Parent(p)] == Dir
      modifies this`fs, this`faulted, this`undoFaulted, this`trail
      ensures Valid() && MidRename(old(fs), fs, p, data)
      ensures (old(faulted) ==> faulted) && (old(undoFaulted) ==> undoFaulted)
      ensures TempOf(p) in fs ==> undoFaulted || TempOf(p) in old(fs)
      ensures ok ==> fs == (old(fs) - {TempOf(p)})[p := File(Data(data))]
      ensures !ok ==> faulted || TempOf(p) in old(fs) || (p in old(fs) && old(fs)[p] == Dir)
      ensures old(trail) <= trail
      ensures forall k :: |old(trail)| <= k < |trail| ==> AgreeOutside(old(fs), trail[k], {p, TempOf(p)})
    {
      hide IsTree, HasChild, AgreeOutside, MidRename;
      ok := StageTemp(p, data);
      if !ok {
        return;
      }
      TempStaged(old(fs), p, File(Data(data)));
      var stage: bool := *;
      if !stage || (p in fs && fs[p] == Dir) {
        faulted := faulted || !stage;
        AbandonTemp(old(fs), p, data);
        return false;
      }
      TempRenamed(old(fs), p, data);
      fs := (fs - {TempOf(p)})[p := File(Data(data))];
      assert fs == (old(fs) - {TempOf(p)})[p := File(Data(data))];
      trail := trail + [fs];
      stage := *;
      faulted := faulted || !stage;
      ok := stage;
    }

    method WriteFileAtomic(p: Path, data: string) returns (ok: bool)
      requires Valid() && p != [] && [] in fs && fs[[]] == Dir
      modifies this`fs, this`faulted, this`undoFaulted, this`trail
      ensures Valid() && MidWrite(old(fs), fs, p, data)
      ensures (old(faulted) ==> faulted) && (old(undoFaulted) ==> undoFaulted)
      ensures TempOf(p) in fs ==> undoFaulted || TempOf(p) in old(fs)
      ensures ok ==> fs == Written(old(fs), p, data) - {TempOf(p)}
      ensures ok ==> p in fs && fs[p] == File(Data(data))
      ensures !ok ==> faulted || !ClearFor(old(fs), p)
      ensures old(trail) <= trail
      ensures forall k :: |old(trail)| <= k < |trail| ==> AgreeOutside(old(fs), trail[k], Touched(p))
    {
      hide IsTree, MidWrite, AfterParents, MidRename, AgreeOutside, Written;
      ok := EnsureParentDirectories(p);
      ghost var mid, made := fs, trail;
      forall k | |old(trail)| <= k < |trail|
        ensures AgreeOutside(old(fs), trail[k], Touched(p))
      {
        ParentsWithinTouched(old(fs), trail[k], p);
      }
      ParentsWithinTouched(old(fs), mid, p);
      if ok {
        ok := WriteThroughTemp(p, data);
        forall k | |made| <= k < |trail|
          ensures AgreeOutside(old(fs), trail[k], Touched(p))
        {
          AgreeAfterParents(old(fs), mid, trail[k], p);
        }
        assert forall k :: 0 <= k < |made| ==> trail[k] == made[k];
        if ok {
          WrittenAfterParents(old(fs), mid, fs, p, data);
        }
      } else {
        NothingRenamed(mid, p, data);
      }
      MidWriteAfterParents(old(fs), mid, fs, p, data);
    }

    // ---- The stack directory and its lock ----

    /** mkdir of the stack directory; its mode or the parent's sync may fail with the directory in place, and
        another process may have created and filled it meanwhile. */
    method CreateStackDir() returns (r: StackDir)
      requires Valid() && fs == map[]
      modifies this`fs, this`faulted, this`foreign, this`trail
      ensures Valid() && (old(faulted) ==> faulted) && trail == old(trail) + [fs]
      ensures r.Made? ==> fs == map[[] := Dir] && foreign == old(foreign)
      ensures r.AlreadyThere? ==> [] in fs && fs[[]] == Dir && foreign == old(foreign) + fs.Keys
      ensures r.DirFault? ==> faulted && (fs == map[] || fs == map[[] := Dir]) && foreign == old(foreign)
    {
      r := *;
      var made: bool := *;
      if !r.DirFault? || made {
        fs := map[[] := Dir];
      }
      if r.AlreadyThere? {
        var theirs: Tree := *;
        if IsTree(theirs) && [] in theirs && theirs[[]] == Dir {
          fs := theirs;
        }
        foreign := foreign + fs.Keys;
      }
      faulted := faulted || r.DirFault?;
      trail := trail + [fs];
    }

    /** Another process may put a .wdm.lock of its own between mkdir and flock. */
    method RaceForLock()
      requires Valid() && [] in fs && fs[[]] == Dir
      modifies this`fs, this`foreign, this`trail
      ensures Valid() && trail == old(trail) + [fs]
      ensures (fs == old(fs) && foreign == old(foreign))
              || (LOCK !in old(fs) && LOCK in fs && fs == old(fs)[LOCK := fs[LOCK]] && fs[LOCK].File? && foreign == old(foreign) + {LOCK})
    {
      var race: bool := *;
      if race && LOCK !in fs {
        var content: Content := *;
        PutLeaf(fs, LOCK, File(content));
        fs := fs[LOCK := File(content)];
        foreign := foreign + {LOCK};
      }
      trail := trail + [fs];
    }

    /** Opens or creates the lock and takes the flock; an existing file that does not decode is refused. */
    method AcquireStackLock() returns (r: LockState)
      requires Valid() && [] in fs && fs[[]] == Dir
      modifies this`fs, this`faulted, this`trail, this`locked
      ensures Valid() && (old(faulted) ==> faulted) && trail == old(trail) + [fs]
      ensures locked == r.Held?
      ensures fs == old(fs) || (LOCK !in old(fs) && fs == old(fs)[LOCK := File(Empty)])
      ensures r.Held? ==> LOCK in fs && fs[LOCK].File? && (r.managed <==> fs[LOCK] == File(Manifest))
      ensures r.Held? && LOCK in old(fs) ==> r.managed
      ensures r.NotHeld? ==> faulted || LOCK in old(fs)
    {
      var stage: bool := *;
      if !stage {
        faulted := true;
        r := NotHeld;
      } else if LOCK in fs {
        r := if fs[LOCK] == File(Manifest) then Held(true) else NotHeld;
      } else {
        PutLeaf(fs, LOCK, File(Empty));
        fs := fs[LOCK := File(Empty)];
        stage := *;
        faulted := faulted || !stage;
        r := if stage then Held(false) else NotHeld;
      }
      locked := r.Held?;
      trail := trail + [fs];
    }

    /** Exclusive create of an empty user file; an existing one is kept. The close may fail with the file in place. */
    method EnsureUserEnvFile() returns (ok: bool)
      requires Valid() && [] in fs && fs[[]] == Dir
      modifies this`fs, this`faulted, this`trail
      ensures Valid() && (old(faulted) ==> faulted) && trail == old(trail) + [fs]
      ensures fs == old(fs) || (USER_ENV !in old(fs) && fs == old(fs)[USER_ENV := File(Empty)])
      ensures ok ==> USER_ENV in fs
      ensures !ok ==> faulted
    {
      ok := *;
      var made: bool := *;
      if USER_ENV !in fs && (ok || made) {
        PutLeaf(fs, USER_ENV, File(Empty));
        fs := fs[USER_ENV := File(Empty)];
      }
      faulted := faulted || !ok;
      trail := trail + [fs];
    }

    /** Truncate, write, sync through the held lock; a fault may leave it empty, torn or complete. */
    method WriteLockManifest() returns (ok: bool)
      requires Valid() && LOCK in fs && fs[LOCK].File?
      modifies this`fs, this`faulted, this`log
      ensures Valid() && (old(faulted) ==> faulted)
      ensures log == if ok then old(log) + [ManifestWritten] else old(log)
      ensures LOCK in fs && fs[LOCK].File? && fs == old(fs)[LOCK := fs[LOCK]]
      ensures if ok then fs[LOCK] == File(Manifest) else faulted
    {
      ok := *;
      var torn: Content := *;
      NoFileChild(fs, LOCK);
      PutLeaf(fs, LOCK, File(if ok then Manifest else torn));
      fs := fs[LOCK := File(if ok then Manifest else torn)];
      faulted := faulted || !ok;
      if ok {
        log := log + [ManifestWritten];
      }
    }

    // ---- Docker primitives ----

    /** An existing network is only reconciled; created is reported exactly for a network that was missing. */
    method EnsureNetworkReport(spec: NetworkSpec) returns (created: bool, ok: bool)
      requires Valid()
      modifies this`networks, this`faulted, this`netTrail
      ensures Valid() && netTrail == old(netTrail) + [networks]
      ensures old(faulted) ==> faulted
      ensures created ==> ok && spec.name !in old(networks)
      ensures networks == if created then old(networks)[spec.name := Network(spec.internal, spec.subnet, true)] else old(networks)
      ensures ok ==> spec.name in networks && Reconciles(networks[spec.name], spec)
      ensures !ok ==> faulted || (spec.name in networks && !Reconciles(networks[spec.name], spec))
    {
      ok, created := *, false;
      if !ok {
        faulted := true;
      } else if spec.name in networks {
        ok := Reconciles(networks[spec.name], spec);
      } else {
        networks := networks[spec.name := Network(spec.internal, spec.subnet, true)];
        created := true;
      }
      netTrail := netTrail + [networks];
    }

    method RemoveNetwork(name: string) returns (ok: bool)
      requires Valid()
      modifies this`networks, this`undoFaulted, this`faulted
      ensures Valid()
      ensures (old(undoFaulted) ==> undoFaulted) && (old(faulted) ==> faulted)
      ensures networks == if ok then old(networks) - {name} else old(networks)
      ensures ok ==> name in old(networks)
      ensures !ok ==> undoFaulted || name !in old(networks)
    {
      ok := *;
      if !ok {
        undoFaulted, faulted := true, true;
      } else if name in networks {
        networks := networks - {name};
      } else {
        ok := false;
      }
    }

    /** Whether or not it succeeds, compose up may have created containers and volumes of the project; only a
        success counts as a deployment. */
    method ComposeUp(project: string) returns (ok: bool)
      requires Valid()
      modifies this`containers, this`volumes, this`faulted, this`log
      ensures Valid()
      ensures log == if ok then old(log) + [Deployed(project)] else old(log)
      ensures old(faulted) ==> faulted
      ensures OtherContainersKept(old(containers), containers, project) && OtherVolumesKept(old(volumes), volumes, project)
      ensures !ok ==> faulted
    {
      var ups: set<Container>, made: set<Volume> := *, *;
      if forall c :: c in ups ==> c.project == project {
        containers := containers + ups;
      }
      if forall v :: v in made ==> v.project == project {
        volumes := volumes + made;
      }
      ok := *;
      faulted := faulted || !ok;
      if ok {
        log := log + [Deployed(project)];
      }
    }

    method ComposeDown(project: string) returns (ok: bool)
      requires Valid()
      modifies this`containers, this`undoFaulted, this`faulted
      ensures Valid()
      ensures (old(undoFaulted) ==> undoFaulted) && (old(faulted) ==> faulted)
      ensures OtherContainersKept(old(containers), containers, project)
      ensures if ok then forall c :: c in containers ==> c.project != project else undoFaulted
    {
      ok := *;
      var downed: set<Container> := *;
      if ok {
        containers := set c | c in containers && c.project != project;
      } else {
        containers := set c | c in containers && !(c in downed && c.project == project);
        undoFaulted, faulted := true, true;
      }
    }

    method ListProjectNamedVolumes(project: string) returns (names: set<Volume>, ok: bool)
      requires Valid()
      modifies this`undoFaulted, this`faulted
      ensures Valid()
      ensures (old(undoFaulted) ==> undoFaulted) && (old(faulted) ==> faulted)
      ensures if ok then names == (set v | v in volumes && v.project == project) else names == {} && undoFaulted
    {
      ok := *;
      names := if ok then set v | v in volumes && v.project == project else {};
      if !ok {
        undoFaulted, faulted := true, true;
      }
    }

    /** A volume is not removed while its project has a container left. */
    method RemoveNamedVolume(v: Volume) returns (ok: bool)
      requires Valid()
      modifies this`volumes, this`undoFaulted, this`faulted
      ensures Valid()
      ensures (old(undoFaulted) ==> undoFaulted) && (old(faulted) ==> faulted)
      ensures volumes == if ok then old(volumes) - {v} else old(volumes)
      ensures !ok ==> undoFaulted || exists c :: c in containers && c.project == v.project
    {
      if exists c :: c in containers && c.project == v.project {
        return false;
      }
      ok := *;
      if ok {
        volumes := volumes - {v};
      } else {
        undoFaulted, faulted := true, true;
      }
    }

    /** Releasing the flock; a failed release may leave it held until the process ends. */
    method ReleaseLock() returns (ok: bool)
      requires Valid()
      modifies this`undoFaulted, this`faulted, this`locked
      ensures Valid() && locked == (!ok && old(locked))
      ensures (old(undoFaulted) ==> undoFaulted) && (old(faulted) ==> faulted) && (!ok ==> undoFaulted)
    {
      ok := *;
      if ok {
        locked := false;
      } else {
        undoFaulted, faulted := true, true;
      }
    }

    /** A step outside this model: a context check, a port probe, an inspection. It may fail and changes nothing. */
    method Step() returns (ok: bool)
      requires Valid()
      modifies this`faulted
      ensures Valid()
      ensures (old(faulted) ==> faulted) && (!ok ==> faulted)
    {
      ok := *;
      faulted := faulted || !ok;
    }

    /** A step outside this model that a commit depends on. */
    method Reach(m: Milestone) returns (ok: bool)
      requires Valid()
      modifies this`faulted, this`log
      ensures Valid()
      ensures (old(faulted) ==> faulted) && (!ok ==> faulted)
      ensures log == if ok then old(log) + [m] else old(log)
    {
      ok := Step();
      if ok {
        log := log + [m];
      }
    }

    // ---- Recovery primitives ----

    /** Unlinks a lock that nobody holds and that does not decode; reports an absent one. */
    method ClearStaleStackLock() returns (r: ClearOutcome)
      requires Valid()
      modifies this`fs, this`undoFaulted, this`faulted
      ensures Valid() && (old(faulted) ==> faulted)
      ensures r.Cleared? ==> LOCK in old(fs) && old(fs)[LOCK].File? && old(fs)[LOCK] != File(Manifest) && !lockBusy
      ensures fs == if r.Cleared? then old(fs) - {LOCK} else old(fs)
      ensures r.Absent? ==> LOCK !in fs
      ensures r.Refused? ==> faulted || (LOCK in fs && (lockBusy || fs[LOCK] == Dir || fs[LOCK] == File(Manifest)))
    {
      var fault: bool := *;
      if fault {
        undoFaulted, faulted := true, true;
        return Refused;
      }
      if LOCK !in fs {
        return Absent;
      }
      if lockBusy || fs[LOCK] == Dir || fs[LOCK] == File(Manifest) {
        return Refused;
      }
      NoFileChild(fs, LOCK);
      RemoveLeaf(fs, LOCK);
      fs := fs - {LOCK};
      r := Cleared;
    }

    /** os.RemoveAll of the stack directory; a failure may have removed any part of the tree. */
    method RemoveAll() returns (r: RemoveOutcome)
      requires Valid()
      modifies this`fs, this`undoFaulted, this`faulted
      ensures Valid() && (old(faulted) ==> faulted)
      ensures fs.Keys <= old(fs).Keys && forall p :: p in fs ==> fs[p] == old(fs)[p]
      ensures r.Removed? ==> fs == map[]
      ensures r.RemoveFault? ==> faulted
      ensures r.Denied? ==> guarded
    {
      var fault: bool := *;
      if !fault && !guarded {
        fs := map[];
        return Removed;
      }
      var gone: set<Path> := *;
      if IsTree(fs - gone) {
        fs := fs - gone;
      }
      if fault {
        undoFaulted, faulted := true, true;
        return RemoveFault;
      }
      r := Denied;
    }

    /** The pinned helper container empties the directory as the owner of the guarded files. */
    method RemoveBindMountContents() returns (ok: bool)
      requires Valid()
      modifies this`fs, this`guarded, this`undoFaulted, this`faulted
      ensures Valid() && (old(faulted) ==> faulted)
      ensures fs.Keys <= old(fs).Keys && forall p :: p in fs ==> fs[p] == old(fs)[p]
      ensures if ok then !guarded else faulted
    {
      ok := *;
      if ok {
        guarded := false;
        fs := map p | p in fs && p == [] :: fs[p];
      } else {
        undoFaulted, faulted := true, true;
      }
    }

    /** Removes a network only if it carries the ownership label; an absent one is fine. */
    method RemoveNetworkIfManaged(name: string)
      requires Valid()
      modifies this`networks, this`undoFaulted, this`faulted
      ensures Valid() && (old(faulted) ==> faulted)
      ensures networks == old(networks) || (name in old(networks) && old(networks)[name].managed && networks == old(networks) - {name})
      ensures !faulted && name in networks ==> !networks[name].managed
    {
      var fault: bool := *;
      if fault {
        undoFaulted, faulted := true, true;
      } else if name in networks && networks[name].managed {
        networks := networks - {name};
      }
    }
  }
}
