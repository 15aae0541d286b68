// `install --force`: removing the orphan a hard kill leaves behind (recover.go).
module Recovery {
  import opened Paths
  import opened FileTree
  import opened ArtifactLayout
  import opened Machine

  /** What recovery can deal with: nothing, an empty directory, or a directory whose lock does not decode. */
  ghost predicate KillSafe(t: Tree) {
    t == map[] || (t.Keys == {[]} && t[[]] == Dir) || (LOCK in t && t[LOCK].File? && t[LOCK] != File(Manifest))
  }

  // What the guards know about the stack path, and how external networks are read from compose bytes.
  datatype RecoveryContext = RecoveryContext(
    project: string, rootSafe: bool, underHome: bool, externals: string -> seq<string>)

  ghost predicate IsLive(containers: set<Container>, project: string) {
    exists c :: c in containers && c.project == project && c.running
  }

  /** The only networks recovery may remove: declared external by the orphan's compose, and managed. */
  ghost predicate OnlySwept(before: map<string, Network>, after: map<string, Network>, declared: seq<string>) {
    && (forall n :: n in after ==> n in before && after[n] == before[n])
    && (forall n :: n in before && n !in after ==> n in declared && before[n].managed)
  }

  /** Whatever of the list is still there is not wdm's. */
  ghost predicate NoneManaged(networks: map<string, Network>, names: seq<string>) {
    forall n :: n in names && n in networks ==> !networks[n].managed
  }

  method RemoveOrphanStackDir(h: Host, ctx: RecoveryContext) returns (ok: bool)
    requires h.Valid()
    modifies h`fs, h`guarded, h`undoFaulted, h`faulted
    ensures h.Valid() && (old(h.faulted) ==> h.faulted)
    ensures h.fs.Keys <= old(h.fs).Keys
    ensures ok ==> h.fs == map[]
    ensures !ok ==> h.faulted || !ctx.rootSafe || !ctx.underHome
    ensures !ctx.rootSafe || !ctx.underHome ==> !ok && h.fs == old(h.fs)
  {
    if !ctx.rootSafe || !ctx.underHome {
      return false;
    }
    var removed := h.RemoveAll();
    match removed {
      case Removed => return true;
      case RemoveFault => return false;
      case Denied =>
        var emptied := h.RemoveBindMountContents();
        if !emptied {
          return false;
        }
        removed := h.RemoveAll();
        ok := removed.Removed?;
    }
  }

  method SweepRecoveredNetworks(h: Host, names: seq<string>)
    requires h.Valid()
    modifies h`networks, h`undoFaulted, h`faulted
    ensures h.Valid() && (old(h.faulted) ==> h.faulted)
    ensures OnlySwept(old(h.networks), h.networks, names)
    ensures !h.faulted ==> NoneManaged(h.networks, names)
  {
    for i := 0 to |names|
      invariant h.Valid() && (old(h.faulted) ==> h.faulted)
      invariant OnlySwept(old(h.networks), h.networks, names)
      invariant !h.faulted ==> forall k :: 0 <= k < i && names[k] in h.networks ==> !h.networks[names[k]].managed
    {
      h.RemoveNetworkIfManaged(names[i]);
    }
  }

  ghost function Declared(t: Tree, externals: string -> seq<string>): seq<string> {
    if COMPOSE in t && t[COMPOSE].File? && t[COMPOSE].content.Data? then externals(t[COMPOSE].content.bytes) else []
  }

  /** The reading is best effort: any fault yields no names. */
  method ReadExternalNetworkNames(h: Host, ctx: RecoveryContext) returns (names: seq<string>)
    requires h.Valid()
    modifies h`faulted
    ensures h.Valid() && (old(h.faulted) ==> h.faulted)
    ensures names == [] || names == Declared(h.fs, ctx.externals)
    ensures !h.faulted ==> names == Declared(h.fs, ctx.externals)
  {
    var readable := h.Step();
    if readable && COMPOSE in h.fs && h.fs[COMPOSE].File? && h.fs[COMPOSE].content.Data? {
      names := ctx.externals(h.fs[COMPOSE].content.bytes);
    } else {
      names := [];
    }
  }

  datatype Verdict = NothingThere | Refuse | Proceed

  /** The probes that come before any change: path, liveness, and the helper image. */
  method ProbeOrphan(h: Host, ctx: RecoveryContext) returns (v: Verdict)
    requires h.Valid()
    modifies h`faulted
    ensures h.Valid() && (old(h.faulted) ==> h.faulted)
    ensures v.NothingThere? ==> h.fs == map[] && ctx.rootSafe
    ensures v.Proceed? ==> [] in h.fs && h.fs[[]] == Dir && ctx.rootSafe && !IsLive(h.containers, ctx.project)
    ensures v.Refuse? ==> h.faulted || !ctx.rootSafe || ([] in h.fs && (h.fs[[]] != Dir || IsLive(h.containers, ctx.project)))
  {
    hide IsTree;
    RootOrNothing(h.fs);
    var inspected := h.Step();
    if !ctx.rootSafe || !inspected {
      return Refuse;
    }
    if [] !in h.fs {
      return NothingThere;
    }
    if h.fs[[]] != Dir {
      return Refuse;
    }
    inspected := h.Step();
    if !inspected || exists c :: c in h.containers && c.project == ctx.project && c.running {
      return Refuse;
    }
    var helper := h.Step();
    v := if helper then Proceed else Refuse;
  }

  /** The changes: clear the lock and remove the directory, or remove an empty lock-less directory. */
  method ClearOrphan(h: Host, ctx: RecoveryContext) returns (ok: bool)
    requires h.Valid() && [] in h.fs && h.fs[[]] == Dir && ctx.rootSafe
    modifies h`fs, h`guarded, h`undoFaulted, h`faulted
    ensures h.Valid() && (old(h.faulted) ==> h.faulted)
    ensures ok ==> h.fs == map[] && KillSafe(old(h.fs))
    ensures !KillSafe(old(h.fs)) || (LOCK in old(h.fs) && h.lockBusy) ==> !ok && h.fs == old(h.fs)
    ensures KillSafe(old(h.fs)) && !h.lockBusy && ctx.underHome && !h.faulted ==> ok
    ensures !ok && h.fs != old(h.fs) ==> LOCK in old(h.fs) && LOCK !in h.fs
    ensures KillSafe(old(h.fs)) && LOCK in old(h.fs) && !h.lockBusy && !ctx.underHome && !h.faulted ==> h.fs == old(h.fs) - {LOCK}
  {
    hide IsTree, HasChild;
    var outcome := h.ClearStaleStackLock();
    match outcome {
      case Refused => return false;
      case Cleared =>
        ok := RemoveOrphanStackDir(h, ctx);
      case Absent =>
        if h.fs.Keys == {[]} {
          LoneRootHasNoChild(h.fs);
        } else {
          OtherRootHasChild(h.fs);
        }
        ok := h.Remove([]);
        RootOrNothing(h.fs);
    }
  }

  /** Recovery removes the directory or refuses; a live project, a managed or held stack, and a directory not
      proven to be wdm's are refused with nothing touched; volumes and containers never change. */
  method RecoverOrphanedStack(h: Host, ctx: RecoveryContext) returns (ok: bool)
    requires h.Valid()
    modifies h`fs, h`networks, h`guarded, h`undoFaulted, h`faulted
    ensures h.Valid() && (old(h.faulted) ==> h.faulted)
    ensures ok ==> h.fs == map[]
    ensures ok && old(h.fs) != map[] ==> !IsLive(h.containers, ctx.project) && KillSafe(old(h.fs))
    ensures !ctx.rootSafe ==> !ok && h.fs == old(h.fs)
    ensures IsLive(h.containers, ctx.project) && [] in old(h.fs) ==> !ok && h.fs == old(h.fs)
    ensures !KillSafe(old(h.fs)) || (LOCK in old(h.fs) && h.lockBusy) ==> !ok && h.fs == old(h.fs)
    ensures !ok ==> h.networks == old(h.networks)
    ensures OnlySwept(old(h.networks), h.networks, Declared(old(h.fs), ctx.externals))
    ensures ok && old(h.fs) != map[] && !h.faulted ==> NoneManaged(h.networks, Declared(old(h.fs), ctx.externals))
    ensures (ok && !h.faulted && ["docker-compose.yml"] in old(h.fs) && old(h.fs)[["docker-compose.yml"]].File?
             && old(h.fs)[["docker-compose.yml"]].content.Data?)
            ==> NoneManaged(h.networks, ctx.externals(old(h.fs)[["docker-compose.yml"]].content.bytes))
    ensures KillSafe(old(h.fs)) && !IsLive(h.containers, ctx.project) && !h.lockBusy && ctx.rootSafe && ctx.underHome && !h.faulted ==> ok
    // The lock goes before the directory: a removal that is refused or fails leaves a lock-less directory behind.
    ensures !ok && h.fs != old(h.fs) ==> LOCK in old(h.fs) && LOCK !in h.fs
    ensures (KillSafe(old(h.fs)) && LOCK in old(h.fs) && !IsLive(h.containers, ctx.project) && !h.lockBusy && ctx.rootSafe
             && !ctx.underHome && !h.faulted) ==> h.fs == old(h.fs) - {LOCK}
  {
    hide IsTree, HasChild;
    LockNeedsRoot(h.fs);
    var verdict := ProbeOrphan(h, ctx);
    match verdict {
      case Refuse => return false;
      case NothingThere => return true;
      case Proceed =>
        var names := ReadExternalNetworkNames(h, ctx);
        ok := ClearOrphan(h, ctx);
        if ok {
          SweepRecoveredNetworks(h, names);
        }
    }
  }

  lemma LockNeedsRoot(t: Tree)
    requires IsTree(t)
    ensures LOCK in t ==> [] in t && t[[]] == Dir
  {
    assert Parent(LOCK) == [];
  }

  lemma LoneRootHasNoChild(t: Tree)
    requires t.Keys == {[]}
    ensures !HasChild(t, [])
  {
  }

  lemma OtherRootHasChild(t: Tree)
    requires IsTree(t) && [] in t && t.Keys != {[]}
    ensures HasChild(t, [])
  {
    var p :| p in t && p != [];
    RootHasChild(t, p);
  }

  /** What is left when the lock went first: unless the directory is empty, no later recovery accepts it. */
  lemma LocklessIsNotRecoverable(t: Tree)
    requires IsTree(t) && [] in t && t[[]] == Dir && LOCK !in t
    ensures KillSafe(t) <==> !HasChild(t, [])
  {
    if t.Keys == {[]} {
      LoneRootHasNoChild(t);
    } else {
      OtherRootHasChild(t);
    }
  }
}
