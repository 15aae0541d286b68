// Removing exactly what a fresh install wrote: planned files, the lock, the seeded
// user file, and the directories that become empty, deepest first
// (install_phase_deploy.go, cleanupFreshInstallArtifacts).
module Cleanup {
  import opened Wrappers
  import opened Text
  import opened Paths
  import opened FileTree
  import opened ArtifactLayout
  import opened Machine

  datatype Plan = Plan(
    rootAbsolute: bool, compose: string, env: string, files: seq<RenderedFile>,
    project: string, networks: seq<NetworkSpec>)

  // ---- The planned writes ----

  ghost predicate Acceptable(plan: Plan) {
    plan.rootAbsolute && FilesAcceptable(plan.rootAbsolute, plan.files)
  }

  /** A planned path and its temporary stay clear of the lock and the seeded user file. */
  ghost predicate FreeStanding(p: Path)
    requires p != []
  {
    Apart(p, LOCK) && Apart(TempOf(p), LOCK) && Apart(p, USER_ENV) && Apart(TempOf(p), USER_ENV)
  }

  ghost predicate PairApart(p: Path, q: Path)
    requires p != [] && q != []
  {
    Apart(p, q) && Apart(p, TempOf(q)) && Apart(TempOf(p), q) && Apart(TempOf(p), TempOf(q))
  }

  ghost predicate LaidOut(writes: seq<FileWrite>) {
    && (forall i :: 0 <= i < |writes| ==> writes[i].path != [] && FreeStanding(writes[i].path))
    && (forall i, j :: 0 <= i < j < |writes| ==> PairApart(writes[i].path, writes[j].path))
  }

  ghost predicate IsPlanned(plan: Plan, writes: seq<FileWrite>) {
    && |writes| == 2 + |plan.files|
    && writes[0] == FileWrite(COMPOSE, plan.compose) && writes[1] == FileWrite(ENV, plan.env)
    && WritesFor(plan.rootAbsolute, plan.files, writes[2..])
  }

  lemma SafeJoinName(n: Name)
    requires ValidName(n)
    ensures SafeJoin(true, n) == Some([n])
  {
    SplitPrefix(n, "", '/');
    assert n[0] in n;
    assert [n][1..] == [] && [] + [n] == [n];
    assert Clean([n], []) == Clean([], [n]) == Some([n]);
  }

  lemma {:induction false} ClaimedAt(dests: seq<Path>, k: nat)
    requires k < |dests| && forall i :: 0 <= i < |dests| ==> dests[i] != []
    ensures |Claimed(dests)| == 9 + 2 * |dests|
    ensures Claimed(dests)[..9] == RESERVED_FINAL + RESERVED_TEMP
    ensures Claimed(dests)[9 + 2 * k] == dests[k] && Claimed(dests)[10 + 2 * k] == TempOf(dests[k])
  {
    var n := |dests| - 1;
    var front, last := dests[..n], dests[n];
    if n == 0 {
      assert Claimed(front) == RESERVED_FINAL + RESERVED_TEMP;
    } else if k < n {
      ClaimedAt(front, k);
    } else {
      ClaimedAt(front, 0);
    }
    assert Claimed(dests) == Claimed(front) + [last, TempOf(last)];
  }

  lemma TempNames()
    ensures TempOf(COMPOSE) == COMPOSE_TEMP && TempOf(ENV) == ENV_TEMP
  {
    assert COMPOSE[0] + TEMP_SUFFIX == COMPOSE_TEMP[0];
    assert ENV[0] + TEMP_SUFFIX == ENV_TEMP[0];
  }

  /** Where planned write i and its temporary sit in the list of claimed paths. */
  ghost function Slot(i: nat): nat { if i < 2 then i else 9 + 2 * (i - 2) }

  ghost function TempSlot(i: nat): nat { if i < 2 then 6 + i else 10 + 2 * (i - 2) }

  lemma PlannedSlots(plan: Plan, writes: seq<FileWrite>, i: nat)
    requires IsPlanned(plan, writes) && KeptApart(Destinations(writes[2..])) && i < |writes|
    ensures var claimed := Claimed(Destinations(writes[2..]));
            && writes[i].path != []
            && |claimed| == 9 + 2 * (|writes| - 2) && claimed[2] == USER_ENV && claimed[4] == LOCK
            && claimed[Slot(i)] == writes[i].path && claimed[TempSlot(i)] == TempOf(writes[i].path)
  {
    hide SafeJoin, WritesFor, Separate, TempOf;
    var dests := Destinations(writes[2..]);
    TempNames();
    if dests == [] {
      assert Claimed(dests) == RESERVED_FINAL + RESERVED_TEMP;
    } else {
      ClaimedAt(dests, 0);
    }
    assert Claimed(dests)[..9] == RESERVED_FINAL + RESERVED_TEMP;
    assert forall r :: 0 <= r < 9 ==> Claimed(dests)[r] == Claimed(dests)[..9][r];
    if i >= 2 {
      assert writes[i].path == dests[i - 2];
      ClaimedAt(dests, i - 2);
    }
  }

  lemma SeparateAt(claimed: seq<Path>, i: nat, j: nat)
    requires Separate(claimed) && i < |claimed| && j < |claimed| && i != j
    ensures Apart(claimed[i], claimed[j])
  {
    if j < i {
      assert Apart(claimed[j], claimed[i]);
    }
  }

  lemma WriteStands(plan: Plan, writes: seq<FileWrite>, i: nat)
    requires IsPlanned(plan, writes) && KeptApart(Destinations(writes[2..])) && i < |writes|
    ensures writes[i].path != [] && FreeStanding(writes[i].path)
  {
    hide WritesFor, Separate, Claimed, Apart, Destinations, TempOf;
    var claimed := Claimed(Destinations(writes[2..]));
    PlannedSlots(plan, writes, i);
    SeparateAt(claimed, Slot(i), 4);
    SeparateAt(claimed, Slot(i), 2);
    SeparateAt(claimed, TempSlot(i), 4);
    SeparateAt(claimed, TempSlot(i), 2);
  }

  lemma WritesPair(plan: Plan, writes: seq<FileWrite>, i: nat, j: nat)
    requires IsPlanned(plan, writes) && KeptApart(Destinations(writes[2..])) && i < j < |writes|
    ensures writes[i].path != [] && writes[j].path != [] && PairApart(writes[i].path, writes[j].path)
  {
    hide WritesFor, Separate, Claimed, Apart, Destinations, TempOf;
    var claimed := Claimed(Destinations(writes[2..]));
    PlannedSlots(plan, writes, i);
    PlannedSlots(plan, writes, j);
    SeparateAt(claimed, Slot(i), Slot(j));
    SeparateAt(claimed, Slot(i), TempSlot(j));
    SeparateAt(claimed, TempSlot(i), Slot(j));
    SeparateAt(claimed, TempSlot(i), TempSlot(j));
  }

  /** What the tracker keeps apart is all an install needs. */
  lemma PlannedLaidOut(plan: Plan, writes: seq<FileWrite>)
    requires IsPlanned(plan, writes) && KeptApart(Destinations(writes[2..]))
    ensures LaidOut(writes)
  {
    hide WritesFor, KeptApart, FreeStanding, PairApart, Destinations;
    forall i | 0 <= i < |writes|
      ensures writes[i].path != [] && FreeStanding(writes[i].path)
    {
      WriteStands(plan, writes, i);
    }
    forall i, j | 0 <= i < j < |writes|
      ensures PairApart(writes[i].path, writes[j].path)
    {
      WritesPair(plan, writes, i, j);
    }
  }

  /** The same plan yields the same writes every time it is asked, and every join succeeds. */
  method InstallFileWrites(plan: Plan) returns (r: Option<seq<FileWrite>>)
    ensures r.Some? <==> Acceptable(plan)
    ensures r.Some? ==> IsPlanned(plan, r.value) && LaidOut(r.value)
  {
    hide SafeJoin, FilesAcceptable;
    var composePath := SafeJoin(plan.rootAbsolute, COMPOSE[0]);
    var envPath := SafeJoin(plan.rootAbsolute, ENV[0]);
    JoinsOfReserved(plan.rootAbsolute);
    if composePath.None? || envPath.None? {
      return None;
    }
    var artifacts := RenderedArtifactWrites(plan.rootAbsolute, plan.files);
    if artifacts.None? {
      return None;
    }
    var writes := [FileWrite(composePath.value, plan.compose), FileWrite(envPath.value, plan.env)] + artifacts.value;
    assert writes[2..] == artifacts.value;
    PlannedLaidOut(plan, writes);
    r := Some(writes);
  }

  lemma JoinsOfReserved(rootAbsolute: bool)
    ensures SafeJoin(rootAbsolute, COMPOSE[0]) == (if rootAbsolute then Some(COMPOSE) else None)
    ensures SafeJoin(rootAbsolute, ENV[0]) == (if rootAbsolute then Some(ENV) else None)
  {
    if rootAbsolute {
      ReservedValid(COMPOSE);
      ReservedValid(ENV);
      SafeJoinName(COMPOSE[0]);
      SafeJoinName(ENV[0]);
    }
  }

  lemma PlannedUnique(plan: Plan, a: seq<FileWrite>, b: seq<FileWrite>)
    requires IsPlanned(plan, a) && IsPlanned(plan, b)
    ensures a == b
  {
    hide SafeJoin;
    forall i | 0 <= i < |a|
      ensures a[i] == b[i]
    {
      if i >= 2 {
        assert a[i] == a[2..][i - 2] && b[i] == b[2..][i - 2];
      }
    }
  }

  // ---- What an install owns on disk ----

  function OwnFiles(writes: seq<FileWrite>): set<Path> { set w | w in writes :: w.path }

  function OwnDirs(writes: seq<FileWrite>): set<Path> { set w, k | w in writes && 0 < k < |w.path| :: w.path[..k] }

  function Own(writes: seq<FileWrite>): set<Path> { {[], LOCK, USER_ENV} + OwnFiles(writes) + OwnDirs(writes) }

  lemma OwnFileIsBelowRoot(writes: seq<FileWrite>, p: Path)
    requires LaidOut(writes) && (p in OwnFiles(writes) || p == LOCK || p == USER_ENV)
    ensures p != []
  {
  }

  /** A planned file has nothing of the install's own below it. */
  lemma OwnFileIsLeaf(writes: seq<FileWrite>, t: Tree, p: Path)
    requires LaidOut(writes) && t.Keys <= Own(writes)
    requires p in OwnFiles(writes) || p == LOCK || p == USER_ENV
    ensures !HasChild(t, p)
  {
    hide LaidOut;
    OwnFileIsBelowRoot(writes, p);
    forall q | q in t
      ensures !IsChild(p, q)
    {
      if q in OwnFiles(writes) || q in OwnDirs(writes) {
        var w :| w in writes && q <= w.path;
        if p != w.path {
          OwnFilePrefix(writes, p, w);
        }
      }
    }
  }

  lemma OwnFilePrefix(writes: seq<FileWrite>, p: Path, w: FileWrite)
    requires LaidOut(writes) && w in writes && p != w.path
    requires p in OwnFiles(writes) || p == LOCK || p == USER_ENV
    ensures !(p <= w.path)
  {
    hide TempOf, OwnDirs;
    var j :| 0 <= j < |writes| && writes[j] == w;
    if p in OwnFiles(writes) {
      var i :| 0 <= i < |writes| && writes[i].path == p;
      assert i < j ==> PairApart(writes[i].path, writes[j].path);
      assert j < i ==> PairApart(writes[j].path, writes[i].path);
    } else {
      assert FreeStanding(writes[j].path);
    }
  }

  // ---- Directories, deepest first ----

  ghost predicate ClosedUp(dirs: set<Path>) {
    [] !in dirs && forall d :: d in dirs ==> Ancestors(d) <= dirs
  }

  /** The upward walk stops at the first directory already seen, yet misses none. */
  method AddAncestors(p: Path, seenBefore: set<Path>, dirsBefore: seq<Path>) returns (seen: set<Path>, dirs: seq<Path>)
    requires ClosedUp(seenBefore) && seenBefore == (set d | d in dirsBefore)
    ensures ClosedUp(seen) && seen == seenBefore + Ancestors(p)
    ensures seen == set d | d in dirs
  {
    seen, dirs := seenBefore, dirsBefore;
    var k := |p| - 1;
    while k > 0
      invariant k < |p|
      invariant seen == seenBefore + set j | (if k < 0 then 0 else k) < j < |p| :: p[..j]
      invariant seen == set d | d in dirs
    {
      if p[..k] in seen {
        assert p[..k] in seenBefore by {
          assert forall j :: k < j < |p| ==> |p[..j]| == j;
        }
        WalkStops(p, k, seenBefore);
        break;
      }
      seen := seen + {p[..k]};
      dirs := dirs + [p[..k]];
      k := k - 1;
    }
    assert seen == seenBefore + Ancestors(p);
    ClosedUpUnion(seenBefore, p);
  }

  lemma WalkStops(p: Path, k: nat, seen: set<Path>)
    requires ClosedUp(seen) && 0 < k < |p| && p[..k] in seen
    ensures forall j :: 0 < j <= k ==> p[..j] in seen
  {
    forall j | 0 < j < k
      ensures p[..j] in seen
    {
      assert p[..k][..j] == p[..j];
      assert p[..j] in Ancestors(p[..k]);
    }
  }

  lemma ClosedUpUnion(seen: set<Path>, p: Path)
    requires ClosedUp(seen)
    ensures ClosedUp(seen + Ancestors(p))
  {
    forall d | d in Ancestors(p)
      ensures Ancestors(d) <= Ancestors(p)
    {
      forall x | x in Ancestors(d)
        ensures x in Ancestors(p)
      {
        AncestorIsPrefix(x, d);
        AncestorIsPrefix(d, p);
        AncestorIsPrefix(x, p);
      }
    }
  }

  ghost predicate DeepestFirst(dirs: seq<Path>) {
    forall i, j :: 0 <= i < j < |dirs| ==> |dirs[i]| >= |dirs[j]|
  }

  /** The sort's order: more separators first, then the larger text in byte order. */
  predicate Before(a: Path, b: Path) {
    if |a| != |b| then |a| > |b| else TextLess(PathText(b), PathText(a))
  }

  method InsertDir(dirs: seq<Path>, d: Path) returns (sorted: seq<Path>)
    requires DeepestFirst(dirs)
    ensures DeepestFirst(sorted) && (set x | x in sorted) == (set x | x in dirs) + {d}
  {
    hide Before;
    var k := 0;
    while k < |dirs| && Before(dirs[k], d)
      invariant 0 <= k <= |dirs|
      invariant forall i :: 0 <= i < k ==> |dirs[i]| >= |d|
    {
      BeforeIsDeeper(dirs[k], d);
      k := k + 1;
    }
    if k < |dirs| {
      BeforeIsDeeper(dirs[k], d);
    }
    sorted := dirs[..k] + [d] + dirs[k..];
    assert dirs == dirs[..k] + dirs[k..];
  }

  lemma BeforeIsDeeper(a: Path, b: Path)
    ensures if Before(a, b) then |a| >= |b| else |a| <= |b|
  {
  }

  method SortDirs(dirs: seq<Path>) returns (sorted: seq<Path>)
    ensures DeepestFirst(sorted) && (set x | x in sorted) == (set x | x in dirs)
  {
    sorted := [];
    for i := 0 to |dirs|
      invariant DeepestFirst(sorted) && (set x | x in sorted) == (set x | x in dirs[..i])
    {
      sorted := InsertDir(sorted, dirs[i]);
      assert dirs[..i + 1] == dirs[..i] + [dirs[i]];
    }
    assert dirs[..|dirs|] == dirs;
  }

  /** In a deepest-first list, once everything before index k is gone, entry k has no child left. */
  lemma NextDirIsEmpty(t: Tree, dirs: seq<Path>, k: nat)
    requires DeepestFirst(dirs) && k < |dirs|
    requires forall p :: p in t ==> p == [] || p in dirs[k..]
    ensures !HasChild(t, dirs[k])
  {
    forall q | q in t
      ensures !IsChild(dirs[k], q)
    {
      if q != [] {
        var j :| k <= j < |dirs| && dirs[j] == q;
        assert |dirs[k]| >= |dirs[j]|;
      }
    }
  }

  // ---- The cleanup ----

  ghost predicate OnlyRemoved(before: Tree, after: Tree, may: set<Path>) {
    && (forall p :: p in after ==> p in before && after[p] == before[p])
    && (forall p :: p in before && p !in may ==> p in after)
  }

  /** Removes the planned files, the lock and the user file, collecting the directories above the planned files. */
  method RemoveFiles(h: Host, writes: seq<FileWrite>) returns (clean: bool, dirs: seq<Path>)
    requires h.Valid() && LaidOut(writes)
    modifies h`fs, h`undoFaulted, h`faulted
    ensures h.Valid() && (old(h.undoFaulted) ==> h.undoFaulted) && (old(h.faulted) ==> h.faulted)
    ensures OnlyRemoved(old(h.fs), h.fs, Own(writes) - {[]})
    ensures (set d | d in dirs) == OwnDirs(writes)
    ensures clean ==> h.fs.Keys !! (OwnFiles(writes) + {LOCK, USER_ENV})
    ensures old(h.fs).Keys <= Own(writes) ==> clean || h.undoFaulted
  {
    hide LaidOut, HasChild, IsTree, OwnDirs, Ancestors;
    clean, dirs := true, [];
    var seen: set<Path> := {};
    OwnDirsNone();
    for i := 0 to |writes|
      invariant h.Valid() && (old(h.undoFaulted) ==> h.undoFaulted) && (old(h.faulted) ==> h.faulted)
      invariant OnlyRemoved(old(h.fs), h.fs, Own(writes) - {[]})
      invariant ClosedUp(seen) && seen == OwnDirs(writes[..i]) && seen == set d | d in dirs
      invariant clean ==> forall w :: w in writes[..i] ==> w.path !in h.fs
      invariant old(h.fs).Keys <= Own(writes) ==> clean || h.undoFaulted
    {
      var path := writes[i].path;
      assert path in OwnFiles(writes);
      assert path != [] by { LaidOutNonRoot(writes, i); }
      if h.fs.Keys <= Own(writes) {
        OwnFileIsLeaf(writes, h.fs, path);
      }
      var ok := h.Remove(path);
      clean := clean && ok;
      seen, dirs := AddAncestors(path, seen, dirs);
      OwnDirsNext(writes, i);
      assert writes[..i + 1] == writes[..i] + [writes[i]];
    }
    assert writes[..|writes|] == writes;
    if h.fs.Keys <= Own(writes) {
      OwnFileIsLeaf(writes, h.fs, LOCK);
    }
    var ok := h.Remove(LOCK);
    clean := clean && ok;
    if h.fs.Keys <= Own(writes) {
      OwnFileIsLeaf(writes, h.fs, USER_ENV);
    }
    ok := h.Remove(USER_ENV);
    clean := clean && ok;
  }

  lemma OwnDirsNone()
    ensures OwnDirs([]) == {}
  {
  }

  lemma LaidOutNonRoot(writes: seq<FileWrite>, i: nat)
    requires LaidOut(writes) && i < |writes|
    ensures writes[i].path != []
  {
  }

  lemma OwnDirsNext(writes: seq<FileWrite>, i: nat)
    requires i < |writes|
    ensures OwnDirs(writes[..i + 1]) == OwnDirs(writes[..i]) + Ancestors(writes[i].path)
  {
    assert writes[..i + 1] == writes[..i] + [writes[i]];
    forall d
      ensures d in OwnDirs(writes[..i + 1]) <==> d in OwnDirs(writes[..i]) || d in Ancestors(writes[i].path)
    {
    }
  }

  method RemoveDirs(h: Host, writes: seq<FileWrite>, dirs: seq<Path>) returns (clean: bool)
    requires h.Valid() && DeepestFirst(dirs) && (set d | d in dirs) == OwnDirs(writes)
    modifies h`fs, h`undoFaulted, h`faulted
    ensures h.Valid() && (old(h.undoFaulted) ==> h.undoFaulted) && (old(h.faulted) ==> h.faulted)
    ensures OnlyRemoved(old(h.fs), h.fs, OwnDirs(writes))
    ensures old(h.fs).Keys <= {[]} + OwnDirs(writes) ==> clean || h.undoFaulted
    ensures clean && old(h.fs).Keys <= {[]} + OwnDirs(writes) ==> h.fs.Keys <= {[]}
  {
    hide HasChild, IsTree, OwnDirs;
    clean := true;
    for k := 0 to |dirs|
      invariant h.Valid() && (old(h.undoFaulted) ==> h.undoFaulted) && (old(h.faulted) ==> h.faulted)
      invariant OnlyRemoved(old(h.fs), h.fs, OwnDirs(writes))
      invariant old(h.fs).Keys <= {[]} + OwnDirs(writes) ==> clean || h.undoFaulted
      invariant clean && old(h.fs).Keys <= {[]} + OwnDirs(writes) ==> forall p :: p in h.fs ==> p == [] || p in dirs[k..]
    {
      assert dirs[k] in OwnDirs(writes);
      if clean && old(h.fs).Keys <= {[]} + OwnDirs(writes) {
        NextDirIsEmpty(h.fs, dirs, k);
      }
      var ok := h.Remove(dirs[k]);
      clean := clean && ok;
    }
  }

  /** A clean report means the stack directory is gone; unless a removal faults it is clean exactly when only the
      install's own paths were there; and no other path is ever removed. */
  method CleanupFreshInstallArtifacts(h: Host, plan: Plan, ghost planned: seq<FileWrite>) returns (clean: bool)
    requires h.Valid() && Acceptable(plan) && IsPlanned(plan, planned)
    modifies h`fs, h`undoFaulted, h`faulted
    ensures h.Valid() && (old(h.undoFaulted) ==> h.undoFaulted) && (old(h.faulted) ==> h.faulted)
    ensures clean ==> h.fs == map[]
    ensures OnlyRemoved(old(h.fs), h.fs, Own(planned))
    ensures clean ==> old(h.fs).Keys <= Own(planned)
    ensures old(h.fs).Keys <= Own(planned) ==> clean || h.undoFaulted
  {
    hide HasChild, IsTree, OwnDirs, OwnFiles, LaidOut, Acceptable, IsPlanned;
    var writes := InstallFileWrites(plan);
    if writes.None? {
      assert false;
      return false;
    }
    PlannedUnique(plan, planned, writes.value);
    var dirs;
    clean, dirs := RemoveFiles(h, writes.value);
    ghost var filesGone := h.fs;
    dirs := SortDirs(dirs);
    var ok := RemoveDirs(h, writes.value, dirs);
    clean := clean && ok;
    if h.fs.Keys <= {[]} {
      LoneRoot(h.fs);
    }
    ok := h.Remove([]);
    clean := clean && ok;
    RootOrNothing(h.fs);
  }

  lemma LoneRoot(t: Tree)
    requires t.Keys <= {[]}
    ensures !HasChild(t, [])
  {
  }
}
