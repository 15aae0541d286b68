// Checking for and applying catalog updates (internal/core/catalog_update.go,
// internal/core/catalog_update_apply.go), and what holds over any sequence of applies.
module CatalogUpdate {
  import opened Wrappers
  import opened Text
  import opened FileTree
  import opened CatalogBundle
  import opened CatalogStorage
  import opened CatalogDiff

  const NANOS := 1_000_000_000

  // time.Format(time.RFC3339) in UTC, as a function of the whole second.
  type Stamp = int -> string

  function Seconds(nanos: int): int { nanos / NANOS }

  /** catalogVersionString: one-second precision. */
  function VersionString(ts: Stamp, generatedAt: int): string { ts(Seconds(generatedAt)) }

  datatype Local = NotInstalled | Corrupt | Installed(catalog: Catalog)

  /** The active catalog as both the check and the apply read it. */
  function ReadActive(f: Formats, l: Layout): Local {
    if l.manifest.None? then NotInstalled
    else
      var c := f.load(l.manifest.value);
      if c.None? then Corrupt else Installed(c.value)
  }

  datatype Offer = Offer(bundle: string, provenance: seq<Provenance>)

  // ready: not closed, not cancelled, the runtime lock taken and the disk readable.
  // offer: the downloaded and verified release, None when that failed.
  datatype Attempt = Attempt(
    ready: bool,
    channel: string,
    target: string,
    offer: Option<Offer>,
    confirmed: bool,
    stagingStamp: nat,
    stashStamp: nat,
    faults: set<Step>)

  /** ReadBundleManifest. */
  function Candidate(f: Formats, bundle: string): Option<Catalog> {
    var bytes := if bundle == "" then None else Peek(f.unpack(bundle).members);
    if bytes.None? then None else f.load(bytes.value)
  }

  /** catalogUpdateAvailable; refuseCatalogRollback refuses exactly its negation. */
  predicate Newer(local: Local, candidate: Catalog)
    requires local != Corrupt
  {
    local == NotInstalled || candidate.generatedAt > local.catalog.generatedAt
  }

  /** Everything before the write lets the attempt through. */
  predicate Authorized(f: Formats, ts: Stamp, l: Layout, a: Attempt) {
    && a.ready && a.channel == CHANNEL_DIR && ReadActive(f, l) != Corrupt
    && a.offer.Some? && Candidate(f, a.offer.value.bundle).Some?
    && a.target in {"", VersionString(ts, Candidate(f, a.offer.value.bundle).value.generatedAt)}
    && Newer(ReadActive(f, l), Candidate(f, a.offer.value.bundle).value)
    && a.confirmed
  }

  function RequestOf(f: Formats, ts: Stamp, a: Attempt): Request
    requires a.offer.Some? && Candidate(f, a.offer.value.bundle).Some?
  {
    Request(a.channel, VersionString(ts, Candidate(f, a.offer.value.bundle).value.generatedAt),
            a.offer.value.bundle, a.offer.value.provenance, a.stagingStamp, a.stashStamp)
  }

  /** What one apply may do. */
  predicate ApplyStep(f: Formats, ts: Stamp, before: Layout, a: Attempt, after: Layout, applied: bool) {
    if Authorized(f, ts, before, a)
    then Outcome(f, before, RequestOf(f, ts, a), a.faults, after, applied)
    else after == before && !applied
  }

  // available, and the change summary when it is.
  datatype Status = Status(available: bool, changes: seq<Change>)

  function AppsOf(local: Local): map<string, string> {
    if local.Installed? then ById(local.catalog.apps) else map[]
  }

  class Engine {
    const store: Store
    const stamp: Stamp

    constructor (store: Store, stamp: Stamp)
      ensures this.store == store && this.stamp == stamp
    {
      this.store, this.stamp := store, stamp;
    }

    /** CheckCatalogUpdate: an update is available exactly when a confirmed apply of the same release would be let through. */
    method CheckCatalogUpdate(ready: bool, channel: string, offer: Option<Offer>) returns (status: Option<Status>)
      ensures status.Some? <==>
                ready && channel == CHANNEL_DIR && ReadActive(store.formats, store.Now()) != Corrupt &&
                offer.Some? && Candidate(store.formats, offer.value.bundle).Some?
      ensures status.Some? ==> forall i, j, faults ::
                status.value.available <==>
                Authorized(store.formats, stamp, store.Now(), Attempt(true, channel, "", offer, true, i, j, faults))
      ensures status.Some? && status.value.available ==>
                IsDiff(status.value.changes, AppsOf(ReadActive(store.formats, store.Now())),
                       ById(Candidate(store.formats, offer.value.bundle).value.apps))
      ensures status.Some? && store.manifest.None? ==> status.value.available
      ensures status.Some? && store.manifest.Some? ==>
                store.formats.load(store.manifest.value).Some? &&
                (status.value.available <==>
                 Candidate(store.formats, offer.value.bundle).value.generatedAt > store.formats.load(store.manifest.value).value.generatedAt)
    {
      hide Candidate, IsDiff, ById;
      if !ready || channel != CHANNEL_DIR {
        return None;
      }
      var local := ReadActive(store.formats, store.Now());
      if local == Corrupt || offer.None? {
        return None;
      }
      var candidate := Candidate(store.formats, offer.value.bundle);
      if candidate.None? {
        return None;
      }
      if !Newer(local, candidate.value) {
        return Some(Status(false, []));
      }
      var changes := DiffCatalogApps(if local.Installed? then Some(local.catalog) else None, candidate.value);
      status := Some(Status(true, changes));
    }

    /** ApplyCatalogUpdate. */
    method ApplyCatalogUpdate(a: Attempt, left: Tree) returns (applied: bool)
      modifies store
      ensures ApplyStep(store.formats, stamp, old(store.Now()), a, store.Now(), applied)
    {
      hide Outcome, Candidate;
      if !a.ready || a.channel != CHANNEL_DIR {
        return false;
      }
      var local := ReadActive(store.formats, store.Now());
      if local == Corrupt || a.offer.None? {
        return false;
      }
      var candidate := Candidate(store.formats, a.offer.value.bundle);
      if candidate.None? {
        return false;
      }
      var version := VersionString(stamp, candidate.value.generatedAt);
      if a.target != "" && a.target != version {
        return false;
      }
      if !Newer(local, candidate.value) || !a.confirmed {
        return false;
      }
      applied := store.StoreVerifiedCatalog(RequestOf(store.formats, stamp, a), a.faults, left);
    }
  }

  // ---- What lets an apply through, and what it leaves ----

  /** Spelled out: confirmed, for the stable channel and for the release on offer, which loads and is newer than the
      installed catalog, if one is installed. */
  lemma AuthorizedExactly(f: Formats, ts: Stamp, l: Layout, a: Attempt)
    ensures Authorized(f, ts, l, a) <==>
              && a.ready && a.confirmed && a.channel == "stable"
              && a.offer.Some? && Candidate(f, a.offer.value.bundle).Some?
              && (a.target == "" || a.target == ts(Candidate(f, a.offer.value.bundle).value.generatedAt / 1_000_000_000))
              && (l.manifest.None? ||
                  (f.load(l.manifest.value).Some? &&
                   f.load(l.manifest.value).value.generatedAt < Candidate(f, a.offer.value.bundle).value.generatedAt))
  {
    hide Candidate;
  }

  /** With no catalog installed, any release that loads is let through and, faults aside, stored unless its version name is
      already taken. */
  lemma FirstCatalogIsStored(f: Formats, ts: Stamp, l: Layout, a: Attempt, after: Layout, applied: bool)
    requires l.manifest.None? && a.ready && a.confirmed && a.channel == "stable" && a.target == ""
    requires a.offer.Some? && Candidate(f, a.offer.value.bundle).Some?
    requires WellPrepared(f, ts, l, a) && ApplyStep(f, ts, l, a, after, applied)
    ensures applied <==> ts(Candidate(f, a.offer.value.bundle).value.generatedAt / 1_000_000_000) !in l.versions
  {
    hide Candidate, SnapshotOf, ValidSegment, ProvenanceAccepted, StoredAs;
    AuthorizedExactly(f, ts, l, a);
    CandidateHasBytes(f, a.offer.value.bundle);
  }

  /** A success leaves the release on offer active: its manifest, its templates and, in a snapshot of its own that is named
      by its second, its provenance. */
  lemma AppliedIsTheOffer(f: Formats, ts: Stamp, before: Layout, a: Attempt, after: Layout)
    requires ApplyStep(f, ts, before, a, after, true)
    ensures a.offer.Some? && Candidate(f, a.offer.value.bundle).Some? && after.manifest.Some? && after.templates.Some?
    ensures f.load(after.manifest.value) == Candidate(f, a.offer.value.bundle)
    ensures var version := ts(Candidate(f, a.offer.value.bundle).value.generatedAt / 1_000_000_000);
            && version !in before.versions && version in after.versions
            && FileAt(after.versions[version], ["stable", "catalog.yaml"]) == after.manifest
            && forall p :: p in a.offer.value.provenance ==> FileAt(after.versions[version], [p.name]) == Some(p.data)
    ensures forall m :: m in f.unpack(a.offer.value.bundle).members && Lands(m, Regular) && Dest(m)[0] == "templates" ==>
              FileAt(after.templates.value, Dest(m)) == Some(m.data)
  {
    hide Commits, SnapshotOf, FileAt, Candidate, TemplatesOf, Lands, ProvenanceAccepted, Outcome, StoredAs;
    var r := RequestOf(f, ts, a);
    StoredIsSound(f, before, after, r, a.faults);
    SnapshotHoldsRequest(f, before, after, r);
    ActiveTemplatesAreTheBundles(f, before, after, r);
    ActiveManifestIsTheSnapshots(f, before, after, r);
    StepNeverGoesBack(f, ts, before, a, after, true);
  }

  lemma ActiveManifestIsTheSnapshots(f: Formats, before: Layout, after: Layout, r: Request)
    requires StoredAs(f, before, after, r)
    ensures r.version in after.versions && FileAt(after.versions[r.version], ["stable", "catalog.yaml"]) == after.manifest
  {
    hide SnapshotOf, FileAt, TemplatesOf;
  }

  // ---- One apply ----

  /** The bundle an authorized, committing apply stores is the one whose manifest it compared. */
  lemma CommitsTheCandidate(f: Formats, ts: Stamp, l: Layout, a: Attempt)
    requires Authorized(f, ts, l, a) && Commits(f, l, RequestOf(f, ts, a), a.faults)
    ensures var s := SnapshotOf(f, RequestOf(f, ts, a));
            s.Some? && FileAt(s.value, BUNDLE_MANIFEST).Some? &&
            f.load(FileAt(s.value, BUNDLE_MANIFEST).value) == Candidate(f, a.offer.value.bundle)
  {
    hide Commits, SnapshotOf, Extracted, FileAt, Peek;
    var r := RequestOf(f, ts, a);
    SnapshotIsActivated(f, l, r, a.faults);
    PeekAgrees(f.unpack(r.bundle));
    ManifestIsThere(f, Extracted(f.unpack(r.bundle)).value);
  }

  lemma ManifestIsThere(f: Formats, t: Tree)
    requires BundleManifest(f, t).Some?
    ensures BundleManifest(f, t) == FileAt(t, BUNDLE_MANIFEST)
  {
  }

  /** The manifest changes hands: the attempt was authorized and reached the rename. */
  predicate Moves(f: Formats, ts: Stamp, before: Layout, a: Attempt) {
    Authorized(f, ts, before, a) && Commits(f, before, RequestOf(f, ts, a), a.faults)
  }

  /** Whatever faults: the active manifest stays byte for byte, or becomes the strictly newer candidate. */
  lemma StepNeverGoesBack(f: Formats, ts: Stamp, before: Layout, a: Attempt, after: Layout, applied: bool)
    requires ApplyStep(f, ts, before, a, after, applied)
    ensures applied ==> Moves(f, ts, before, a)
    ensures !Moves(f, ts, before, a) ==> after.manifest == before.manifest
    ensures Moves(f, ts, before, a) ==>
              ReadActive(f, after) == Installed(Candidate(f, a.offer.value.bundle).value) &&
              Newer(ReadActive(f, before), Candidate(f, a.offer.value.bundle).value)
    ensures SnapshotsKept(before.versions, after.versions)
  {
    hide Commits, SnapshotOf, FileAt, Candidate;
    if Moves(f, ts, before, a) {
      CommitsTheCandidate(f, ts, before, a);
    }
  }

  // ---- Invariants ----

  /** The active layout is that of the snapshot named by its own version string. */
  predicate Backed(f: Formats, ts: Stamp, l: Layout) {
    var local := ReadActive(f, l);
    && local.Installed?
    && VersionString(ts, local.catalog.generatedAt) in l.versions
    && Activates(l, l.versions[VersionString(ts, local.catalog.generatedAt)])
  }

  ghost predicate DatedBy(ts: Stamp, version: string, latest: int) { exists s :: s <= latest && ts(s) == version }

  /** Every stored version is the version string of a second no later than the active catalog's. */
  ghost predicate Dated(f: Formats, ts: Stamp, l: Layout) {
    forall v :: v in l.versions ==>
      ReadActive(f, l).Installed? && DatedBy(ts, v, Seconds(ReadActive(f, l).catalog.generatedAt))
  }

  /** A success puts a snapshot behind the active layout, whatever was there before. */
  lemma SuccessIsBacked(f: Formats, ts: Stamp, before: Layout, a: Attempt, after: Layout)
    requires ApplyStep(f, ts, before, a, after, true)
    ensures Backed(f, ts, after)
  {
    hide Commits, SnapshotOf, FileAt, Candidate, TemplatesOf;
    StepNeverGoesBack(f, ts, before, a, after, true);
  }

  /** A failed apply leaves the snapshot behind the active layout unless it faulted after the manifest's rename. */
  lemma FailureStaysBacked(f: Formats, ts: Stamp, before: Layout, a: Attempt, after: Layout)
    requires ApplyStep(f, ts, before, a, after, false) && Backed(f, ts, before)
    requires UndoWorks(a.faults) && SyncManifest !in a.faults
    ensures after == before
  {
    hide Commits, SnapshotOf, FileAt, Candidate;
  }

  lemma StepStaysDated(f: Formats, ts: Stamp, before: Layout, a: Attempt, after: Layout, applied: bool)
    requires ApplyStep(f, ts, before, a, after, applied) && Dated(f, ts, before) && UndoWorks(a.faults)
    ensures Dated(f, ts, after)
  {
    hide Commits, SnapshotOf, FileAt, Candidate, Activates;
    StepNeverGoesBack(f, ts, before, a, after, applied);
    if Moves(f, ts, before, a) {
      var c := Candidate(f, a.offer.value.bundle).value;
      assert DatedBy(ts, VersionString(ts, c.generatedAt), Seconds(c.generatedAt));
      forall v | v in after.versions
        ensures DatedBy(ts, v, Seconds(c.generatedAt))
      {
        if v in before.versions {
          var s :| s <= Seconds(ReadActive(f, before).catalog.generatedAt) && ts(s) == v;
          SecondsMonotone(ReadActive(f, before).catalog.generatedAt, c.generatedAt);
        }
      }
    }
  }

  lemma SecondsMonotone(a: int, b: int)
    requires a <= b
    ensures Seconds(a) <= Seconds(b)
  {
  }

  // ---- Runs ----

  // A run: the layouts between applies, the attempts, and what each apply reported.
  predicate IsRun(f: Formats, ts: Stamp, states: seq<Layout>, attempts: seq<Attempt>, applied: seq<bool>) {
    && |states| == |attempts| + 1 && |applied| == |attempts|
    && forall i :: 0 <= i < |attempts| ==> ApplyStep(f, ts, states[i], attempts[i], states[i + 1], applied[i])
  }

  lemma RunStep(f: Formats, ts: Stamp, states: seq<Layout>, attempts: seq<Attempt>, applied: seq<bool>, i: nat)
    requires IsRun(f, ts, states, attempts, applied) && i < |attempts|
    ensures ApplyStep(f, ts, states[i], attempts[i], states[i + 1], applied[i])
  {
    hide ApplyStep;
  }

  /** l's active catalog is at least as new as k's. */
  predicate NoOlder(f: Formats, k: Layout, l: Layout) {
    ReadActive(f, k).Installed? ==>
      ReadActive(f, l).Installed? && ReadActive(f, k).catalog.generatedAt <= ReadActive(f, l).catalog.generatedAt
  }

  lemma StepIsNoOlder(f: Formats, ts: Stamp, before: Layout, a: Attempt, after: Layout, applied: bool)
    requires ApplyStep(f, ts, before, a, after, applied)
    ensures NoOlder(f, before, after) && SnapshotsKept(before.versions, after.versions)
  {
    hide ApplyStep, Candidate, Moves;
    StepNeverGoesBack(f, ts, before, a, after, applied);
  }

  /** Faults and failed undo steps included: no published snapshot ever changes and the active catalog never gets older. */
  lemma {:induction false} RunNeverGoesBack(f: Formats, ts: Stamp, states: seq<Layout>, attempts: seq<Attempt>,
                                            applied: seq<bool>, i: nat, j: nat)
    requires IsRun(f, ts, states, attempts, applied) && i <= j < |states|
    ensures SnapshotsKept(states[i].versions, states[j].versions)
    ensures NoOlder(f, states[i], states[j])
    decreases j
  {
    hide ApplyStep, ReadActive;
    if i < j {
      RunNeverGoesBack(f, ts, states, attempts, applied, i, j - 1);
      RunStep(f, ts, states, attempts, applied, j - 1);
      StepIsNoOlder(f, ts, states[j - 1], attempts[j - 1], states[j], applied[j - 1]);
    }
  }

  /** An attempt that moved the manifest, reported as a success or not, is never let through again. */
  lemma NeverAppliedAgain(f: Formats, ts: Stamp, states: seq<Layout>, attempts: seq<Attempt>,
                          applied: seq<bool>, i: nat, j: nat)
    requires IsRun(f, ts, states, attempts, applied) && i < j < |attempts|
    requires Moves(f, ts, states[i], attempts[i])
    requires attempts[j].offer.Some? && Candidate(f, attempts[j].offer.value.bundle) == Candidate(f, attempts[i].offer.value.bundle)
    ensures !Authorized(f, ts, states[j], attempts[j]) && !applied[j] && states[j + 1] == states[j]
  {
    hide ApplyStep, Commits, Candidate, Outcome, RequestOf, SnapshotsKept, VersionString;
    RunStep(f, ts, states, attempts, applied, i);
    RunStep(f, ts, states, attempts, applied, j);
    RunNeverGoesBack(f, ts, states, attempts, applied, i + 1, j);
    StepNeverGoesBack(f, ts, states[i], attempts[i], states[i + 1], applied[i]);
    UnauthorizedStep(f, ts, states[j], attempts[j], states[j + 1], applied[j]);
  }

  lemma UnauthorizedStep(f: Formats, ts: Stamp, before: Layout, a: Attempt, after: Layout, applied: bool)
    requires ApplyStep(f, ts, before, a, after, applied)
    ensures !Authorized(f, ts, before, a) ==> !applied && after == before
  {
    hide Outcome, Authorized;
  }

  /** From the first success on, through failures whose undo works and which did not fault after the rename. */
  lemma {:induction false} RunStaysBacked(f: Formats, ts: Stamp, states: seq<Layout>, attempts: seq<Attempt>,
                                          applied: seq<bool>, i: nat, j: nat)
    requires IsRun(f, ts, states, attempts, applied) && i < j < |states| && applied[i]
    requires forall k :: i < k < j && !applied[k] ==> UndoWorks(attempts[k].faults) && SyncManifest !in attempts[k].faults
    ensures Backed(f, ts, states[j])
    decreases j
  {
    hide Backed, UndoWorks, ApplyStep;
    RunStep(f, ts, states, attempts, applied, j - 1);
    if applied[j - 1] {
      SuccessIsBacked(f, ts, states[j - 1], attempts[j - 1], states[j]);
    } else {
      RunStaysBacked(f, ts, states, attempts, applied, i, j - 1);
      FailureStaysBacked(f, ts, states[j - 1], attempts[j - 1], states[j]);
    }
  }

  lemma {:induction false} RunStaysDated(f: Formats, ts: Stamp, states: seq<Layout>, attempts: seq<Attempt>, applied: seq<bool>, j: nat)
    requires IsRun(f, ts, states, attempts, applied) && j < |states| && Dated(f, ts, states[0])
    requires forall k :: 0 <= k < j ==> UndoWorks(attempts[k].faults)
    ensures Dated(f, ts, states[j])
    decreases j
  {
    hide ApplyStep, Dated, UndoWorks;
    if j > 0 {
      RunStaysDated(f, ts, states, attempts, applied, j - 1);
      RunStep(f, ts, states, attempts, applied, j - 1);
      StepStaysDated(f, ts, states[j - 1], attempts[j - 1], states[j], applied[j - 1]);
    }
  }

  // ---- Available is not the same as applicable ----

  ghost predicate InjectiveStamp(ts: Stamp) { forall a, b :: ts(a) == ts(b) ==> a == b }

  /** Faults and the candidate's name aside, nothing in the attempt is refused. */
  predicate WellPrepared(f: Formats, ts: Stamp, l: Layout, a: Attempt)
    requires a.offer.Some? && Candidate(f, a.offer.value.bundle).Some?
  {
    var r := RequestOf(f, ts, a);
    && ValidSegment(r.version) && ProvenanceAccepted(r.provenance) && SnapshotOf(f, r).Some?
    && StagingName(r) !in l.versions && r.stashStamp !in l.stashes && a.faults == {}
  }

  /** The check calls an update available exactly when it is newer; the apply stores it exactly when it is also
      from another second than the installed catalog. */
  lemma AppliedExactlyInAnotherSecond(f: Formats, ts: Stamp, l: Layout, a: Attempt, after: Layout, applied: bool)
    requires InjectiveStamp(ts) && Backed(f, ts, l) && Dated(f, ts, l)
    requires Authorized(f, ts, l, a) && WellPrepared(f, ts, l, a) && ApplyStep(f, ts, l, a, after, applied)
    ensures applied <==> Seconds(Candidate(f, a.offer.value.bundle).value.generatedAt) != Seconds(ReadActive(f, l).catalog.generatedAt)
    ensures !applied ==> after == l
  {
    hide Candidate, SnapshotOf, ValidSegment, ProvenanceAccepted, Activates, StoredAs;
    var c := Candidate(f, a.offer.value.bundle).value;
    var active := ReadActive(f, l).catalog;
    var version := VersionString(ts, c.generatedAt);
    SecondsMonotone(active.generatedAt, c.generatedAt);
    if version in l.versions {
      var s :| s <= Seconds(active.generatedAt) && ts(s) == version;
      assert s == Seconds(c.generatedAt);
    }
    assert a.offer.value.bundle != "" by { CandidateHasBytes(f, a.offer.value.bundle); }
  }

  lemma CandidateHasBytes(f: Formats, bundle: string)
    requires Candidate(f, bundle).Some?
    ensures bundle != ""
  {
  }

  /** A newer candidate from the installed catalog's own second is refused by every apply, however often it is tried. */
  lemma {:induction false} SameSecondIsNeverApplied(f: Formats, ts: Stamp, states: seq<Layout>, attempts: seq<Attempt>, applied: seq<bool>, j: nat)
    requires IsRun(f, ts, states, attempts, applied) && Backed(f, ts, states[0]) && j < |states|
    requires forall k :: 0 <= k < |attempts| ==>
               attempts[k].offer.Some? && Candidate(f, attempts[k].offer.value.bundle).Some? && UndoWorks(attempts[k].faults) &&
               Seconds(Candidate(f, attempts[k].offer.value.bundle).value.generatedAt) == Seconds(ReadActive(f, states[0]).catalog.generatedAt)
    ensures states[j] == states[0]
    ensures forall k :: 0 <= k < j ==> !applied[k]
    decreases j
  {
    hide Candidate, Activates, SnapshotOf, EarlyFault, StoredAs, RecordFault;
    if j > 0 {
      SameSecondIsNeverApplied(f, ts, states, attempts, applied, j - 1);
      var a := attempts[j - 1];
      RunStep(f, ts, states, attempts, applied, j - 1);
      assert RequestOf(f, ts, a).version in states[0].versions;
      assert Authorized(f, ts, states[0], a) ==> !Commits(f, states[0], RequestOf(f, ts, a), a.faults);
    }
  }

  const EXAMPLE_STAMP: Stamp := second => Itoa(second)
  const OLD_TREE: Tree := BOTH_DIRS[BUNDLE_MANIFEST := File(Data("old"))]
  const INSTALLED: Layout := Layout(Some("old"), Some(TemplatesOf(OLD_TREE)), map[], map[Itoa(0) := OLD_TREE])
  const SAME_SECOND := Attempt(true, CHANNEL_DIR, "", Some(Offer("newer", [])), true, 0, 0, {})

  lemma ExampleCandidate()
    ensures Candidate(EXAMPLE, "newer") == Some(Catalog(5, []))
    ensures ReadActive(EXAMPLE, INSTALLED) == Installed(Catalog(3, []))
  {
    hide Peek, Extracted;
    SmallBundleExtracts("newer");
    PeekAgrees(SmallBundle("newer"));
    assert EXAMPLE.unpack("newer") == SmallBundle("newer");
    assert |"newer"| == 5 && |"old"| == 3;
  }

  /** A concrete case: two nanoseconds newer, no fault, nothing else against it, reported as available and not stored. */
  lemma SameSecondExample(after: Layout, applied: bool)
    requires ApplyStep(EXAMPLE, EXAMPLE_STAMP, INSTALLED, SAME_SECOND, after, applied)
    ensures Backed(EXAMPLE, EXAMPLE_STAMP, INSTALLED) && Authorized(EXAMPLE, EXAMPLE_STAMP, INSTALLED, SAME_SECOND)
    ensures WellPrepared(EXAMPLE, EXAMPLE_STAMP, INSTALLED, SAME_SECOND)
    ensures !applied && after == INSTALLED
  {
    hide Candidate, SnapshotOf, TemplatesOf, FileAt, Itoa, ValidSegment, StoredAs;
    ExampleCandidate();
    assert Seconds(5) == 0 && Seconds(3) == 0;
    assert FileAt(OLD_TREE, BUNDLE_MANIFEST) == Some("old") by { OldManifest(); }
    ExamplePrepared();
  }

  lemma OldManifest()
    ensures FileAt(OLD_TREE, BUNDLE_MANIFEST) == Some("old")
  {
  }

  lemma ExamplePrepared()
    ensures ValidSegment(Itoa(0)) && ".staging-" + Itoa(0) != Itoa(0)
    ensures SnapshotOf(EXAMPLE, Request(CHANNEL_DIR, Itoa(0), "newer", [], 0, 0)).Some?
  {
    hide Extracted, SmallBundle;
    SmallBundleExtracts("newer");
    assert EXAMPLE.unpack("newer") == SmallBundle("newer");
    var t := BOTH_DIRS[BUNDLE_MANIFEST := File(Data("newer"))];
    assert FileAt(t, BUNDLE_MANIFEST) == Some("newer");
    ExampleLayout(t);
    assert |".staging-" + Itoa(0)| > |Itoa(0)|;
    assert Itoa(0) == "0";
  }
}
