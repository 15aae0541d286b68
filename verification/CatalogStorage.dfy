// Storing a verified catalog (internal/catalog/storage.go): stage, publish an immutable
// snapshot, set the active templates aside, copy, commit the manifest, and the layered undo.
// Every primitive fails exactly when its step is in the given fault set, so a claim for
// all fault sets is a claim for faults anywhere.
module CatalogStorage {
  import opened Wrappers
  import opened Text
  import opened Paths
  import opened FileTree
  import opened CatalogBundle

  datatype App = App(id: string, templateVersion: string)

  // generatedAt in nanoseconds.
  datatype Catalog = Catalog(generatedAt: int, apps: seq<App>)

  // The formats this model does not look into: gzip and tar, and the YAML manifest with its schema.
  datatype Formats = Formats(unpack: string -> Archive, load: string -> Option<Catalog>)

  datatype Provenance = Provenance(name: string, data: string)

  // The catalogs root. Trees are relative to it or to their snapshot, so the active
  // templates and a snapshot's templates have the same paths below "templates".
  datatype Layout = Layout(
    manifest: Option<string>,
    templates: Option<Tree>,
    stashes: map<nat, Tree>,
    versions: map<string, Tree>)

  datatype Request = Request(
    channel: string,
    version: string,
    bundle: string,
    provenance: seq<Provenance>,
    stagingStamp: nat,
    stashStamp: nat)

  // SyncManifest is the part of the manifest write after its rename: the mode check and the
  // directory sync. The last six are the undo steps.
  datatype Step =
    | Cancel | Lookup | MakeDirs | Extract | Inspect | Record(k: nat) | Publish | SyncVersions
    | LookupTemplates | SetAside | CopyTemplates | WriteManifest | SyncManifest | DropStash
    | UndoExtract | UndoCopy | ClearTemplates | RestoreTemplates | RemoveSnapshot | RemoveStaging

  /** No undo step faults. */
  predicate UndoWorks(faults: set<Step>) {
    faults !! {UndoExtract, UndoCopy, ClearTemplates, RestoreTemplates, RemoveSnapshot, RemoveStaging}
  }

  // ---- What a request needs to be accepted ----

  /** validVersionSegment: a safe single path segment. */
  predicate ValidSegment(s: string) { ValidName(s) && (0 as char) !in s }

  predicate ProvenanceAccepted(p: seq<Provenance>) {
    && (forall k :: 0 <= k < |p| ==> ValidSegment(p[k].name) && p[k].name !in {MANIFEST_NAME, CHANNEL_DIR, TEMPLATES_DIR})
    && (forall i, j :: 0 <= i < j < |p| ==> p[i].name != p[j].name)
  }

  predicate InputsAccepted(r: Request) {
    r.channel == CHANNEL_DIR && ValidSegment(r.version) && r.bundle != ""
  }

  function StagingName(r: Request): string { ".staging-" + Itoa(r.stagingStamp) }

  /** The manifest of a bundle tree with the expected layout and a loadable manifest. */
  function BundleManifest(f: Formats, t: Tree): Option<string> {
    if [CHANNEL_DIR] in t && t[[CHANNEL_DIR]] == Dir && [TEMPLATES_DIR] in t && t[[TEMPLATES_DIR]] == Dir then
      var bytes := FileAt(t, BUNDLE_MANIFEST);
      if bytes.Some? && f.load(bytes.value).Some? then bytes else None
    else None
  }

  /** One provenance file written at the top of the staged tree. */
  function RecordOne(t: Tree, p: Provenance): Option<Tree> {
    if ClearFor(t, [p.name]) then Some(Written(t, [p.name], p.data)) else None
  }

  /** The staged tree with the provenance files beside the bundle's own entries. */
  function Recorded(t: Tree, p: seq<Provenance>): Option<Tree>
    decreases |p|
  {
    if p == [] then Some(t)
    else
      var before := Recorded(t, p[..|p| - 1]);
      if before.None? then None else RecordOne(before.value, p[|p| - 1])
  }

  /** The snapshot a request publishes, or None when its bundle or provenance is refused. */
  function SnapshotOf(f: Formats, r: Request): Option<Tree> {
    var t := Extracted(f.unpack(r.bundle));
    if t.None? || BundleManifest(f, t.value).None? then None else Recorded(t.value, r.provenance)
  }

  /** What has to hold, faults aside, for a request to be stored. */
  predicate Acceptable(f: Formats, l: Layout, r: Request) {
    && InputsAccepted(r) && ProvenanceAccepted(r.provenance)
    && r.version !in l.versions && StagingName(r) !in l.versions
    && SnapshotOf(f, r).Some?
    && (l.templates.Some? ==> r.stashStamp !in l.stashes)
  }

  predicate RecordFault(files: nat, faults: set<Step>) { exists k :: 0 <= k < files && Record(k) in faults }

  /** A forward step before the manifest is renamed into place faults. */
  predicate EarlyFault(l: Layout, r: Request, faults: set<Step>) {
    || !(faults !! {Cancel, Lookup, MakeDirs, Extract, Inspect, Publish, SyncVersions})
    || RecordFault(|r.provenance|, faults)
    || ActivationFault(l.templates.Some?, faults)
  }

  predicate ActivationFault(hadTemplates: bool, faults: set<Step>) {
    !(faults !! {LookupTemplates, CopyTemplates, WriteManifest}) || (hadTemplates && SetAside in faults)
  }

  /** The run reaches the rename that commits the manifest. */
  predicate Commits(f: Formats, l: Layout, r: Request, faults: set<Step>) {
    Acceptable(f, l, r) && !EarlyFault(l, r, faults)
  }

  /** From a staged tree on, no step up to the manifest's rename refuses or faults. */
  predicate StagedCommits(f: Formats, l: Layout, t: Tree, r: Request, faults: set<Step>) {
    && BundleManifest(f, t).Some? && Recorded(t, r.provenance).Some?
    && faults !! {Inspect, Publish, SyncVersions} && !RecordFault(|r.provenance|, faults)
    && (l.templates.Some? ==> r.stashStamp !in l.stashes) && !ActivationFault(l.templates.Some?, faults)
  }

  // ---- The states a run ends in ----

  function TemplatesOf(t: Tree): Tree { map q | q in t && q != [] && q[0] == TEMPLATES_DIR :: t[q] }

  /** The active layout is exactly what the snapshot holds. */
  predicate Activates(l: Layout, snapshot: Tree) {
    l.manifest == FileAt(snapshot, BUNDLE_MANIFEST) && l.manifest.Some? && l.templates == Some(TemplatesOf(snapshot))
  }

  /** A stored request: the snapshot is published under its version and is what is active; nothing else moved. */
  predicate StoredAs(f: Formats, before: Layout, after: Layout, r: Request) {
    && SnapshotOf(f, r).Some?
    && after.versions == before.versions[r.version := SnapshotOf(f, r).value]
    && Activates(after, SnapshotOf(f, r).value)
    && after.stashes - {r.stashStamp} == before.stashes - {r.stashStamp}
  }

  /** A refused or failed request whose undo worked: everything is as before, except the manifest of a run that committed it. */
  function Undone(f: Formats, before: Layout, r: Request, faults: set<Step>): Layout {
    if Commits(f, before, r, faults) && SnapshotOf(f, r).Some?
    then before.(manifest := FileAt(SnapshotOf(f, r).value, BUNDLE_MANIFEST))
    else before
  }

  predicate SnapshotsKept(before: map<string, Tree>, after: map<string, Tree>) {
    forall v :: v in before ==> v in after && after[v] == before[v]
  }

  /** Everything storing a catalog promises, for every request, layout and fault set. */
  predicate Outcome(f: Formats, before: Layout, r: Request, faults: set<Step>, after: Layout, stored: bool) {
    && (stored <==> Commits(f, before, r, faults) && SyncManifest !in faults)
    && (stored ==> StoredAs(f, before, after, r))
    && (stored && DropStash !in faults ==> after.stashes == before.stashes - {r.stashStamp})
    && (!stored && UndoWorks(faults) ==> after == Undone(f, before, r, faults))
    && (!stored ==> after.manifest == Undone(f, before, r, faults).manifest)
    && SnapshotsKept(before.versions, after.versions)
  }

  // ---- Facts about the snapshot ----

  lemma TemplatesAfterWrite(t: Tree, name: string, data: string)
    requires name != TEMPLATES_DIR
    ensures TemplatesOf(Written(t, [name], data)) == TemplatesOf(t)
  {
    assert Ancestors([name]) == {};
  }

  lemma RecordOneKeepsBundle(t: Tree, p: Provenance)
    requires p.name != TEMPLATES_DIR && RecordOne(t, p).Some?
    ensures FileAt(RecordOne(t, p).value, BUNDLE_MANIFEST) == FileAt(t, BUNDLE_MANIFEST)
    ensures TemplatesOf(RecordOne(t, p).value) == TemplatesOf(t)
  {
    hide Written, TemplatesOf, FileAt, ClearFor;
    TemplatesAfterWrite(t, p.name, p.data);
    FileAfterWrite(t, [p.name], p.data, BUNDLE_MANIFEST);
    assert |[p.name]| != |BUNDLE_MANIFEST|;
  }

  /** Provenance lands beside the bundle: its manifest and templates stay as extracted. */
  lemma {:induction false} RecordedKeepsBundle(t: Tree, p: seq<Provenance>)
    requires (forall k :: 0 <= k < |p| ==> p[k].name != TEMPLATES_DIR) && Recorded(t, p).Some?
    ensures FileAt(Recorded(t, p).value, BUNDLE_MANIFEST) == FileAt(t, BUNDLE_MANIFEST)
    ensures TemplatesOf(Recorded(t, p).value) == TemplatesOf(t)
    decreases |p|
  {
    hide RecordOne, FileAt, TemplatesOf;
    if p != [] {
      RecordedKeepsBundle(t, p[..|p| - 1]);
      RecordOneKeepsBundle(Recorded(t, p[..|p| - 1]).value, p[|p| - 1]);
    }
  }

  /** Once a bundle is staged, whether the run commits depends on the staged tree alone. */
  lemma CommitsOnceStaged(f: Formats, l: Layout, r: Request, faults: set<Step>)
    requires InputsAccepted(r) && ProvenanceAccepted(r.provenance) && faults !! {Cancel, Lookup, MakeDirs, Extract}
    requires r.version !in l.versions && StagingName(r) !in l.versions && Extracted(f.unpack(r.bundle)).Some?
    ensures Commits(f, l, r, faults) <==> StagedCommits(f, l, Extracted(f.unpack(r.bundle)).value, r, faults)
    ensures Commits(f, l, r, faults) ==> Recorded(Extracted(f.unpack(r.bundle)).value, r.provenance).Some?
  {
    hide Extracted, BundleManifest, Recorded, StagingName, InputsAccepted, ProvenanceAccepted;
  }

  /** What a committing run makes active is what its snapshot holds. */
  lemma SnapshotIsActivated(f: Formats, l: Layout, r: Request, faults: set<Step>)
    requires Commits(f, l, r, faults)
    ensures SnapshotOf(f, r).Some? && Extracted(f.unpack(r.bundle)).Some?
    ensures var t := Extracted(f.unpack(r.bundle)).value;
            BundleManifest(f, t).Some? && SnapshotOf(f, r) == Recorded(t, r.provenance) &&
            FileAt(SnapshotOf(f, r).value, BUNDLE_MANIFEST) == BundleManifest(f, t)
  {
    hide Recorded, Extracted, FileAt, TemplatesOf;
    RecordedKeepsBundle(Extracted(f.unpack(r.bundle)).value, r.provenance);
  }

  // ---- The engine ----

  class Store {
    const formats: Formats
    var manifest: Option<string>
    var templates: Option<Tree>
    var stashes: map<nat, Tree>
    var versions: map<string, Tree>

    constructor (formats: Formats)
      ensures Now() == Layout(None, None, map[], map[]) && this.formats == formats
    {
      this.formats := formats;
      manifest, templates, stashes, versions := None, None, map[], map[];
    }

    function Now(): Layout
      reads this
    {
      Layout(manifest, templates, stashes, versions)
    }

    /** removeStorageTree on a directory under .versions; a faulting removal leaves some of it. */
    method DiscardVersion(name: string, undo: Step, faults: set<Step>, left: Tree)
      modifies `versions
      ensures versions - {name} == old(versions) - {name}
      ensures undo !in faults ==> versions == old(versions) - {name}
    {
      versions := if undo in faults then versions[name := left] else versions - {name};
    }

    /** ExtractTarGzToDir into a directory that must not exist yet, rolling itself back. */
    method ExtractTo(name: string, bundle: string, faults: set<Step>, left: Tree) returns (ok: bool)
      modifies `versions
      ensures ok <==> name !in old(versions) && Extract !in faults && Extracted(formats.unpack(bundle)).Some?
      ensures ok ==> versions == old(versions)[name := Extracted(formats.unpack(bundle)).value]
      ensures !ok ==> SnapshotsKept(old(versions), versions)
      ensures !ok && UndoExtract !in faults ==> versions == old(versions)
    {
      if name in versions {
        return false;
      }
      var extracted := ExtractMembers(formats.unpack(bundle));
      if Extract in faults || extracted.None? {
        DiscardVersion(name, UndoExtract, faults, left);
        assert old(versions) - {name} == old(versions);
        return false;
      }
      versions := versions[name := extracted.value];
      ok := true;
    }

    /** validateStagedBundle. */
    method ValidateStagedBundle(staging: string, faults: set<Step>) returns (bytes: Option<string>)
      requires staging in versions
      ensures bytes == if Inspect in faults then None else BundleManifest(formats, versions[staging])
    {
      if Inspect in faults {
        return None;
      }
      bytes := BundleManifest(formats, versions[staging]);
    }

    /** writeProvenance: one atomic write per file, in order. */
    method WriteProvenance(staging: string, p: seq<Provenance>, faults: set<Step>) returns (ok: bool)
      requires staging in versions
      modifies `versions
      ensures versions - {staging} == old(versions) - {staging}
      ensures ok <==> Recorded(old(versions[staging]), p).Some? && !RecordFault(|p|, faults)
      ensures ok ==> versions == old(versions)[staging := Recorded(old(versions[staging]), p).value]
    {
      hide RecordOne;
      ghost var start := versions[staging];
      var i := 0;
      while i < |p|
        invariant 0 <= i <= |p| && staging in versions && versions - {staging} == old(versions) - {staging}
        invariant Recorded(start, p[..i]) == Some(versions[staging])
        invariant forall k :: 0 <= k < i ==> Record(k) !in faults
      {
        assert p[..i + 1][..i] == p[..i];
        if Record(i) in faults {
          return false;
        }
        var next := RecordOne(versions[staging], p[i]);
        if next.None? {
          RecordedFails(start, p, i + 1);
          return false;
        }
        versions := versions[staging := next.value];
        i := i + 1;
      }
      assert p[..i] == p;
      assert versions == (versions - {staging})[staging := versions[staging]];
      ok := true;
    }

    /** restoreTemplates: clear what was copied and bring the stash back. */
    method PutTemplatesBack(stamp: nat, had: bool, faults: set<Step>, left: Tree)
      requires had ==> stamp in stashes
      modifies `templates, `stashes
      ensures faults !! {ClearTemplates, RestoreTemplates} ==>
                templates == (if had then Some(old(stashes)[stamp]) else None) &&
                stashes == (if had then old(stashes) - {stamp} else old(stashes))
      ensures stashes - {stamp} == old(stashes) - {stamp}
    {
      templates := if ClearTemplates in faults then Some(left) else None;
      if had && ClearTemplates !in faults && RestoreTemplates !in faults {
        templates := Some(stashes[stamp]);
        stashes := stashes - {stamp};
      }
    }

    /** Copy the snapshot's templates and commit the manifest; the caller undoes. */
    method CopyAndCommit(snapshot: Tree, bytes: string, faults: set<Step>, left: Tree) returns (ok: bool)
      requires templates.None?
      modifies `manifest, `templates
      ensures ok <==> faults !! {CopyTemplates, WriteManifest, SyncManifest}
      ensures ok ==> templates == Some(TemplatesOf(snapshot))
      ensures manifest == if faults !! {CopyTemplates, WriteManifest} then Some(bytes) else old(manifest)
    {
      if CopyTemplates in faults {
        templates := if UndoCopy in faults then Some(left) else None;
        return false;
      }
      templates := Some(TemplatesOf(snapshot));
      if WriteManifest in faults {
        return false;
      }
      manifest := Some(bytes);
      ok := SyncManifest !in faults;
    }

    /** activateVerifiedSnapshot. */
    method ActivateVerifiedSnapshot(snapshot: Tree, bytes: string, stamp: nat, faults: set<Step>, left: Tree) returns (ok: bool)
      modifies `manifest, `templates, `stashes
      ensures ok <==> (old(templates).Some? ==> stamp !in old(stashes)) && !ActivationFault(old(templates).Some?, faults) && SyncManifest !in faults
      ensures ok ==> templates == Some(TemplatesOf(snapshot)) && stashes - {stamp} == old(stashes) - {stamp}
      ensures ok && DropStash !in faults ==> stashes == old(stashes) - {stamp}
      ensures manifest == (if (old(templates).Some? ==> stamp !in old(stashes)) && !ActivationFault(old(templates).Some?, faults)
                           then Some(bytes) else old(manifest))
      ensures !ok && UndoWorks(faults) ==> templates == old(templates) && stashes == old(stashes)
    {
      hide TemplatesOf;
      if LookupTemplates in faults {
        return false;
      }
      var had := templates.Some?;
      if had {
        if SetAside in faults || stamp in stashes {
          return false;
        }
        stashes := stashes[stamp := templates.value];
        templates := None;
      }
      ok := CopyAndCommit(snapshot, bytes, faults, left);
      if !ok {
        PutTemplatesBack(stamp, had, faults, left);
        assert had ==> old(stashes) - {stamp} == old(stashes);
      } else if DropStash in faults {
        stashes := stashes[stamp := left];
      } else {
        stashes := stashes - {stamp};
      }
    }

    /** os.Rename of the staged directory onto the version name, which is free or the staging name itself. */
    method PublishSnapshot(staging: string, version: string, faults: set<Step>) returns (ok: bool)
      requires staging in versions && (version in versions ==> version == staging)
      modifies `versions
      ensures ok <==> Publish !in faults
      ensures versions == if ok then (old(versions) - {staging})[version := old(versions)[staging]] else old(versions)
    {
      if Publish in faults {
        return false;
      }
      versions := (versions - {staging})[version := versions[staging]];
      ok := true;
    }

    /** Everything after the extraction; on failure the published snapshot is removed, the staging tree is the caller's. */
    method PublishStaged(staging: string, r: Request, faults: set<Step>, left: Tree) returns (ok: bool)
      requires staging in versions && (r.version in versions ==> r.version == staging)
      modifies this
      ensures ok <==> StagedCommits(formats, old(Now()), old(versions)[staging], r, faults) && SyncManifest !in faults
      ensures ok ==> versions == (old(versions) - {staging})[r.version := Recorded(old(versions)[staging], r.provenance).value]
      ensures ok ==> templates == Some(TemplatesOf(Recorded(old(versions)[staging], r.provenance).value))
      ensures ok ==> stashes - {r.stashStamp} == old(stashes) - {r.stashStamp}
      ensures ok && DropStash !in faults ==> stashes == old(stashes) - {r.stashStamp}
      ensures versions - {staging, r.version} == old(versions) - {staging, r.version}
      ensures !ok && RemoveSnapshot !in faults ==> r.version in versions ==> r.version == staging
      ensures !ok && UndoWorks(faults) ==> templates == old(templates) && stashes == old(stashes)
      ensures manifest == if StagedCommits(formats, old(Now()), old(versions)[staging], r, faults)
                          then BundleManifest(formats, old(versions)[staging]) else old(manifest)
    {
      hide Recorded, BundleManifest, TemplatesOf, ActivationFault, RecordFault, UndoWorks;
      var bytes := ValidateStagedBundle(staging, faults);
      if bytes.None? {
        return false;
      }
      var recorded := WriteProvenance(staging, r.provenance, faults);
      DropMore(old(versions), versions, staging, {staging, r.version});
      if !recorded {
        assert r.version in versions - {staging} <==> r.version in old(versions) - {staging};
        return false;
      }
      var published := PublishSnapshot(staging, r.version, faults);
      if !published {
        return false;
      }
      assert versions - {staging, r.version} == old(versions) - {staging, r.version};
      label Published:
      ok := SyncVersions !in faults;
      if ok {
        ok := ActivateVerifiedSnapshot(versions[r.version], bytes.value, r.stashStamp, faults, left);
      }
      if !ok {
        DiscardVersion(r.version, RemoveSnapshot, faults, left);
        DropMore(old@Published(versions), versions, r.version, {staging, r.version});
      }
    }

    /** validateProvenance: one pass with a set of the names seen. */
    method ValidateProvenance(p: seq<Provenance>) returns (ok: bool)
      ensures ok <==> ProvenanceAccepted(p)
    {
      var seen: set<string> := {};
      var i := 0;
      while i < |p|
        invariant 0 <= i <= |p|
        invariant ProvenanceAccepted(p[..i])
        invariant seen == set k | 0 <= k < i :: p[k].name
      {
        if !ValidSegment(p[i].name) || p[i].name in {MANIFEST_NAME, CHANNEL_DIR, TEMPLATES_DIR} || p[i].name in seen {
          return false;
        }
        assert p[..i + 1][..i] == p[..i];
        seen := seen + {p[i].name};
        i := i + 1;
      }
      assert p[..i] == p;
      ok := true;
    }

    /** StoreVerifiedCatalog. */
    method StoreVerifiedCatalog(r: Request, faults: set<Step>, left: Tree) returns (stored: bool)
      modifies this
      ensures Outcome(formats, old(Now()), r, faults, Now(), stored)
    {
      hide Outcome, Commits, Recorded, BundleManifest, TemplatesOf, Extracted, ProvenanceAccepted, InputsAccepted,
           StagedCommits, StagingName;
      ghost var before := Now();
      CommitNeeds(formats, before, r, faults);
      if Cancel in faults || !InputsAccepted(r) {
        RefusedOutcome(formats, before, r, faults, Now());
        return false;
      }
      var named := ValidateProvenance(r.provenance);
      if !named || Lookup in faults || r.version in versions || MakeDirs in faults {
        RefusedOutcome(formats, before, r, faults, Now());
        return false;
      }
      var staging := StagingName(r);
      var extracted := ExtractTo(staging, r.bundle, faults, left);
      if !extracted {
        RefusedOutcome(formats, before, r, faults, Now());
        return false;
      }
      CommitsOnceStaged(formats, before, r, faults);
      StagedLayout(formats, before, Now(), versions[staging], r, faults);
      label Staged:
      stored := PublishStaged(staging, r, faults, left);
      label Settled:
      if stored {
        StoredOutcome(formats, before, r, faults, Now());
      } else {
        DiscardVersion(staging, RemoveStaging, faults, left);
        DropMore(old@Settled(versions), versions, staging, {staging, r.version});
        VersionsBack(before.versions, old@Staged(versions), versions, staging, r.version);
        FailedOutcome(formats, before, r, faults, Now());
      }
    }
  }

  lemma CommitNeeds(f: Formats, l: Layout, r: Request, faults: set<Step>)
    ensures Commits(f, l, r, faults) ==>
              && InputsAccepted(r) && ProvenanceAccepted(r.provenance) && r.version !in l.versions && StagingName(r) !in l.versions
              && Extracted(f.unpack(r.bundle)).Some? && faults !! {Cancel, Lookup, MakeDirs, Extract}
  {
    hide InputsAccepted, ProvenanceAccepted, Extracted, StagingName, RecordFault, ActivationFault;
  }

  /** Refused or failed before anything could be committed. */
  lemma RefusedOutcome(f: Formats, before: Layout, r: Request, faults: set<Step>, after: Layout)
    requires !Commits(f, before, r, faults)
    requires after == before.(versions := after.versions) && SnapshotsKept(before.versions, after.versions)
    requires UndoWorks(faults) ==> after == before
    ensures Outcome(f, before, r, faults, after, false)
  {
    hide Commits, UndoWorks, SnapshotsKept;
  }

  lemma StoredOutcome(f: Formats, before: Layout, r: Request, faults: set<Step>, after: Layout)
    requires InputsAccepted(r) && ProvenanceAccepted(r.provenance) && Extracted(f.unpack(r.bundle)).Some?
    requires Commits(f, before, r, faults) && SyncManifest !in faults
    requires StagingName(r) !in before.versions && r.version !in before.versions
    requires var t := Extracted(f.unpack(r.bundle)).value;
             && Recorded(t, r.provenance).Some?
             && after.manifest == BundleManifest(f, t)
             && after.versions == (before.versions[StagingName(r) := t] - {StagingName(r)})[r.version := Recorded(t, r.provenance).value]
             && after.templates == Some(TemplatesOf(Recorded(t, r.provenance).value))
    requires after.stashes - {r.stashStamp} == before.stashes - {r.stashStamp}
    requires DropStash !in faults ==> after.stashes == before.stashes - {r.stashStamp}
    ensures Outcome(f, before, r, faults, after, true)
  {
    hide Commits, Recorded, BundleManifest, TemplatesOf, Extracted, ProvenanceAccepted, InputsAccepted, StagingName, FileAt,
         SnapshotOf;
    SnapshotIsActivated(f, before, r, faults);
    var t := Extracted(f.unpack(r.bundle)).value;
    assert before.versions[StagingName(r) := t] - {StagingName(r)} == before.versions;
  }

  lemma FailedOutcome(f: Formats, before: Layout, r: Request, faults: set<Step>, after: Layout)
    requires Commits(f, before, r, faults) ==> SyncManifest in faults
    requires Extracted(f.unpack(r.bundle)).Some? && SnapshotsKept(before.versions, after.versions)
    requires after.manifest == if Commits(f, before, r, faults) then BundleManifest(f, Extracted(f.unpack(r.bundle)).value) else before.manifest
    requires UndoWorks(faults) ==> after == before.(manifest := after.manifest)
    ensures Outcome(f, before, r, faults, after, false)
  {
    hide Commits, Recorded, BundleManifest, Extracted, FileAt, UndoWorks, SnapshotsKept, SnapshotOf;
    if Commits(f, before, r, faults) {
      SnapshotIsActivated(f, before, r, faults);
    }
  }

  lemma VersionsBack(before: map<string, Tree>, staged: map<string, Tree>, after: map<string, Tree>, x: string, y: string)
    requires x !in before && y !in before && staged - {x} == before - {x} && after - {x, y} == staged - {x, y}
    ensures SnapshotsKept(before, after)
    ensures x !in after && y !in after ==> after == before
  {
    assert after - {x, y} == before by {
      DropMore(staged, before, x, {x, y});
      assert before - {x, y} == before;
    }
    assert forall v :: v in before ==> v in after - {x, y};
    if x !in after && y !in after {
      assert after - {x, y} == after;
    }
  }

  lemma StagedLayout(f: Formats, l: Layout, m: Layout, t: Tree, r: Request, faults: set<Step>)
    requires l.templates == m.templates && l.stashes == m.stashes
    ensures StagedCommits(f, l, t, r, faults) <==> StagedCommits(f, m, t, r, faults)
  {
  }

  // ---- What a success means, entry by entry ----

  /** The names the provenance may use, told from the characters. */
  lemma ProvenanceNames(p: seq<Provenance>, k: nat)
    requires ProvenanceAccepted(p) && k < |p|
    ensures p[k].name !in {"", ".", "..", "stable", "templates", "catalog.yaml"} && '/' !in p[k].name && (0 as char) !in p[k].name
    ensures forall j :: 0 <= j < |p| && j != k ==> p[j].name != p[k].name
  {
  }

  /** Every file of the recorded tree: a provenance file with its data, or what the bundle had there. */
  lemma {:induction false} RecordedFiles(t: Tree, p: seq<Provenance>, x: Path)
    requires (forall i, j :: 0 <= i < j < |p| ==> p[i].name != p[j].name) && Recorded(t, p).Some?
    ensures forall k :: 0 <= k < |p| && x == [p[k].name] ==> FileAt(Recorded(t, p).value, x) == Some(p[k].data)
    ensures (forall k :: 0 <= k < |p| ==> x != [p[k].name]) ==> FileAt(Recorded(t, p).value, x) == FileAt(t, x)
    decreases |p|
  {
    hide FileAt, ClearFor, Written;
    if p != [] {
      var n := |p| - 1;
      RecordedFiles(t, p[..n], x);
      var before := Recorded(t, p[..n]).value;
      assert Recorded(t, p) == RecordOne(before, p[n]);
      FileAfterWrite(before, [p[n].name], p[n].data, x);
      assert [p[n].name] == x <==> x == [p[n].name];
      forall k | 0 <= k < |p| && x == [p[k].name]
        ensures FileAt(Recorded(t, p).value, x) == Some(p[k].data)
      {
        if k < n {
          assert p[..n][k] == p[k];
          assert [p[k].name][0] != [p[n].name][0];
        }
      }
    }
  }

  /** The active templates are, path by path and entry by entry, the snapshot's below "templates". */
  lemma ActiveTemplatesExactly(f: Formats, before: Layout, after: Layout, r: Request, q: Path)
    requires StoredAs(f, before, after, r)
    ensures after.templates.Some? && r.version in after.versions
    ensures q in after.templates.value <==> q != [] && q[0] == "templates" && q in after.versions[r.version]
    ensures q in after.templates.value ==> after.templates.value[q] == after.versions[r.version][q]
  {
    hide SnapshotOf, FileAt;
  }

  lemma SnapshotFiles(f: Formats, r: Request, x: Path)
    requires ProvenanceAccepted(r.provenance) && SnapshotOf(f, r).Some?
    ensures Extracted(f.unpack(r.bundle)).Some?
    ensures forall k :: 0 <= k < |r.provenance| && x == [r.provenance[k].name] ==>
              FileAt(SnapshotOf(f, r).value, x) == Some(r.provenance[k].data)
    ensures (forall k :: 0 <= k < |r.provenance| ==> x != [r.provenance[k].name]) ==>
              FileAt(SnapshotOf(f, r).value, x) == FileAt(Extracted(f.unpack(r.bundle)).value, x)
  {
    hide FileAt, Recorded, Extracted;
    RecordedFiles(Extracted(f.unpack(r.bundle)).value, r.provenance, x);
  }

  /** After a success every provenance file is in the snapshot with its data, every other file of the snapshot is a
      regular member of the bundle, and every regular member is there unless a provenance file has its name. */
  lemma SnapshotHoldsRequest(f: Formats, before: Layout, after: Layout, r: Request)
    requires StoredAs(f, before, after, r) && ProvenanceAccepted(r.provenance)
    ensures r.version in after.versions
    ensures forall p :: p in r.provenance ==> FileAt(after.versions[r.version], [p.name]) == Some(p.data)
    ensures forall m :: m in f.unpack(r.bundle).members && Lands(m, Regular) && (forall p :: p in r.provenance ==> Dest(m) != [p.name]) ==>
              FileAt(after.versions[r.version], Dest(m)) == Some(m.data)
    ensures forall x :: FileAt(after.versions[r.version], x).Some? ==>
              (exists p :: p in r.provenance && x == [p.name]) ||
              (exists m :: m in f.unpack(r.bundle).members && Lands(m, Regular) && Dest(m) == x)
  {
    hide FileAt, Extracted, SnapshotOf, Activates, Lands, MemberPath, ProvenanceAccepted;
    var a := f.unpack(r.bundle);
    SnapshotFiles(f, r, []);
    ExtractionIsContained(a);
    forall p | p in r.provenance
      ensures FileAt(after.versions[r.version], [p.name]) == Some(p.data)
    {
      SnapshotFiles(f, r, [p.name]);
    }
    forall m | m in a.members && Lands(m, Regular) && (forall p :: p in r.provenance ==> Dest(m) != [p.name])
      ensures FileAt(after.versions[r.version], Dest(m)) == Some(m.data)
    {
      SnapshotFiles(f, r, Dest(m));
    }
    forall x | FileAt(after.versions[r.version], x).Some? && !exists p :: p in r.provenance && x == [p.name]
      ensures exists m :: m in a.members && Lands(m, Regular) && Dest(m) == x
    {
      SnapshotFiles(f, r, x);
    }
  }

  /** The templates a success activates are the bundle's regular members below "templates", each with its bytes. */
  lemma ActiveTemplatesAreTheBundles(f: Formats, before: Layout, after: Layout, r: Request)
    requires StoredAs(f, before, after, r) && ProvenanceAccepted(r.provenance)
    ensures after.templates.Some?
    ensures forall m :: m in f.unpack(r.bundle).members && Lands(m, Regular) && Dest(m)[0] == "templates" ==>
              FileAt(after.templates.value, Dest(m)) == Some(m.data)
    ensures forall x :: FileAt(after.templates.value, x).Some? ==>
              exists m :: m in f.unpack(r.bundle).members && Lands(m, Regular) && Dest(m) == x && x[0] == "templates"
  {
    hide Extracted, SnapshotOf, MemberPath, ProvenanceAccepted, StoredAs;
    SnapshotHoldsRequest(f, before, after, r);
    ActiveTemplatesExactly(f, before, after, r, []);
    forall p | p in r.provenance
      ensures p.name != "templates"
    {
      var k :| 0 <= k < |r.provenance| && r.provenance[k] == p;
      ProvenanceNames(r.provenance, k);
    }
    forall m | m in f.unpack(r.bundle).members && Lands(m, Regular) && Dest(m)[0] == "templates"
      ensures FileAt(after.templates.value, Dest(m)) == Some(m.data)
    {
      ActiveTemplatesExactly(f, before, after, r, Dest(m));
    }
    forall x | FileAt(after.templates.value, x).Some?
      ensures exists m :: m in f.unpack(r.bundle).members && Lands(m, Regular) && Dest(m) == x && x[0] == "templates"
    {
      ActiveTemplatesExactly(f, before, after, r, x);
      assert FileAt(after.versions[r.version], x).Some?;
      assert !exists p :: p in r.provenance && x == [p.name];
    }
  }

  /** A store is accepted for the stable channel only, under a safe version name, with a bundle whose manifest loads. */
  lemma StoredIsSound(f: Formats, before: Layout, after: Layout, r: Request, faults: set<Step>)
    requires Outcome(f, before, r, faults, after, true)
    ensures r.channel == "stable" && r.bundle != "" && r.version !in before.versions
    ensures r.version !in {"", ".", ".."} && '/' !in r.version && (0 as char) !in r.version
    ensures ProvenanceAccepted(r.provenance) && StoredAs(f, before, after, r)
    ensures after.manifest.Some? && f.load(after.manifest.value).Some?
    ensures FileAt(Extracted(f.unpack(r.bundle)).value, ["stable", "catalog.yaml"]) == after.manifest
    ensures var t := Extracted(f.unpack(r.bundle)).value;
            ["stable"] in t && t[["stable"]] == Dir && ["templates"] in t && t[["templates"]] == Dir
  {
    hide Extracted, Recorded, ProvenanceAccepted, FileAt, TemplatesOf, SnapshotOf;
    CommitNeeds(f, before, r, faults);
    SnapshotIsActivated(f, before, r, faults);
  }

  // ---- What is accepted, told from the request and the bundle ----

  lemma TopLevelWrite(t: Tree, name: string, data: string, x: Path)
    ensures x in Written(t, [name], data) <==> x in t || x == [name]
    ensures x in t && x != [name] ==> Written(t, [name], data)[x] == t[x]
    ensures Written(t, [name], data)[[name]] == File(Data(data))
    ensures TempOf([name]) == [name + ".tmp"]
    ensures ClearFor(t, [name]) <==> ([name] in t ==> t[[name]] != Dir) && [name + ".tmp"] !in t
  {
    assert Ancestors([name]) == {};
  }

  /** There is room for provenance file i: no directory of that name, nothing of its temporary's name before it. */
  predicate RecordFits(t: Tree, p: seq<Provenance>, i: nat)
    requires i < |p|
  {
    && ([p[i].name] in t ==> t[[p[i].name]] != Dir) && [p[i].name + ".tmp"] !in t
    && forall j :: 0 <= j < i ==> p[j].name != p[i].name + ".tmp"
  }

  predicate Beside(p: seq<Provenance>, x: Path) { exists k :: 0 <= k < |p| && [p[k].name] == x }

  ghost predicate HasRecords(t: Tree, p: seq<Provenance>, s: Tree) {
    forall x :: (x in s <==> x in t || Beside(p, x)) && (x in t && !Beside(p, x) ==> s[x] == t[x])
  }

  predicate NamesDiffer(p: seq<Provenance>) { forall i, j :: 0 <= i < j < |p| ==> p[i].name != p[j].name }

  /** The provenance can be recorded exactly when there is room for each file; the tree then has those entries more. */
  lemma {:induction false} RecordsExactly(t: Tree, p: seq<Provenance>)
    requires NamesDiffer(p)
    ensures Recorded(t, p).Some? <==> forall i :: 0 <= i < |p| ==> RecordFits(t, p, i)
    ensures Recorded(t, p).Some? ==> HasRecords(t, p, Recorded(t, p).value)
    decreases |p|
  {
    hide ClearFor, Written, RecordFits, HasRecords;
    if p == [] {
      NothingRecorded(t);
    } else {
      var before, last := p[..|p| - 1], p[|p| - 1];
      assert p == before + [last];
      RecordsExactly(t, before);
      EarlierRecords(t, before, last);
      if Recorded(t, before).Some? {
        LastRecord(t, before, last, Recorded(t, before).value);
      }
    }
  }

  lemma NothingRecorded(t: Tree)
    ensures HasRecords(t, [], t)
  {
  }

  lemma EarlierRecords(t: Tree, before: seq<Provenance>, last: Provenance)
    ensures forall i :: 0 <= i < |before| ==> (RecordFits(t, before, i) <==> RecordFits(t, before + [last], i))
  {
    var all := before + [last];
    forall i | 0 <= i < |before|
      ensures RecordFits(t, before, i) <==> RecordFits(t, all, i)
    {
      assert all[i] == before[i] && forall j :: 0 <= j < i ==> all[j] == before[j];
    }
  }

  lemma LastRecord(t: Tree, before: seq<Provenance>, last: Provenance, s: Tree)
    requires HasRecords(t, before, s) && NamesDiffer(before + [last])
    ensures ClearFor(s, [last.name]) <==> RecordFits(t, before + [last], |before|)
    ensures HasRecords(t, before + [last], Written(s, [last.name], last.data))
  {
    hide ClearFor, Written;
    var all := before + [last];
    TopLevelWrite(s, last.name, last.data, []);
    assert all[|before|] == last && forall k :: 0 <= k < |before| ==> all[k] == before[k];
    assert forall k :: 0 <= k < |before| ==> [before[k].name][0] == before[k].name;
    assert [last.name][0] == last.name && [last.name + ".tmp"][0] == last.name + ".tmp";
    assert Beside(before, [last.name + ".tmp"]) <==> exists k :: 0 <= k < |before| && before[k].name == last.name + ".tmp";
    assert !Beside(before, [last.name]);
    forall x
      ensures Beside(all, x) <==> Beside(before, x) || x == [last.name]
      ensures x in Written(s, [last.name], last.data) <==> x in s || x == [last.name]
      ensures x in s && x != [last.name] ==> Written(s, [last.name], last.data)[x] == s[x]
    {
      TopLevelWrite(s, last.name, last.data, x);
      assert [all[|before|].name] == [last.name];
      if Beside(before, x) {
        var k :| 0 <= k < |before| && [before[k].name] == x;
        assert [all[k].name] == x;
      }
    }
  }

  /** Faults aside, a request is stored exactly when it is for the stable channel under a safe version name that is free,
      its bundle extracts to a channel and a templates directory with a manifest that loads, its provenance names are safe,
      distinct and not the bundle's own, there is room for them, and the names of the working directories are free. */
  lemma AcceptableExactly(f: Formats, l: Layout, r: Request)
    ensures Acceptable(f, l, r) <==>
              && r.channel == "stable" && r.bundle != "" && r.version !in l.versions
              && r.version !in {"", ".", ".."} && '/' !in r.version && (0 as char) !in r.version
              && ".staging-" + Itoa(r.stagingStamp) !in l.versions && (l.templates.Some? ==> r.stashStamp !in l.stashes)
              && (forall k :: 0 <= k < |r.provenance| ==>
                    var name := r.provenance[k].name;
                    name !in {"", ".", "..", "stable", "templates", "catalog.yaml"} && '/' !in name && (0 as char) !in name)
              && NamesDiffer(r.provenance)
              && Extracted(f.unpack(r.bundle)).Some?
              && BundleHolds(f, Extracted(f.unpack(r.bundle)).value)
              && forall i :: 0 <= i < |r.provenance| ==> RecordFits(Extracted(f.unpack(r.bundle)).value, r.provenance, i)
  {
    hide Extracted, BundleManifest, Recorded, RecordFits, BundleHolds, Itoa;
    if Extracted(f.unpack(r.bundle)).Some? {
      HoldsExactly(f, Extracted(f.unpack(r.bundle)).value);
      if NamesDiffer(r.provenance) {
        RecordsExactly(Extracted(f.unpack(r.bundle)).value, r.provenance);
      }
    }
  }

  /** Fault by fault: a request is stored exactly when it is acceptable and none of the forward steps it takes fails. */
  lemma StoredExactly(f: Formats, before: Layout, after: Layout, r: Request, faults: set<Step>, stored: bool)
    requires Outcome(f, before, r, faults, after, stored)
    ensures stored <==>
              && Acceptable(f, before, r)
              && faults !! {Cancel, Lookup, MakeDirs, Extract, Inspect, Publish, SyncVersions, LookupTemplates, CopyTemplates,
                            WriteManifest, SyncManifest}
              && (forall k: nat :: k < |r.provenance| ==> Record(k) !in faults)
              && (before.templates.Some? ==> SetAside !in faults)
  {
    hide Acceptable, StoredAs, Undone, SnapshotsKept;
  }

  predicate BundleHolds(f: Formats, t: Tree) {
    && ["stable"] in t && t[["stable"]] == Dir && ["templates"] in t && t[["templates"]] == Dir
    && FileAt(t, ["stable", "catalog.yaml"]).Some? && f.load(FileAt(t, ["stable", "catalog.yaml"]).value).Some?
  }

  lemma HoldsExactly(f: Formats, t: Tree)
    ensures BundleManifest(f, t).Some? <==> BundleHolds(f, t)
  {
    hide FileAt;
  }

  // ---- What a failure leaves ----

  /** A failure whose undo worked changes nothing exactly when the run had not committed a different manifest. */
  lemma FailureIsAllOrNothing(f: Formats, before: Layout, r: Request, faults: set<Step>, after: Layout)
    requires Outcome(f, before, r, faults, after, false) && UndoWorks(faults)
    ensures after == before <==>
            !Commits(f, before, r, faults) || before.manifest == FileAt(SnapshotOf(f, r).value, BUNDLE_MANIFEST)
  {
    hide Commits, SnapshotOf, FileAt;
    assert Commits(f, before, r, faults) ==> SnapshotOf(f, r).Some? by { CommitHasSnapshot(f, before, r, faults); }
  }

  lemma CommitHasSnapshot(f: Formats, l: Layout, r: Request, faults: set<Step>)
    ensures Commits(f, l, r, faults) ==> SnapshotOf(f, r).Some?
  {
  }

  /** The shortest bundle: both directories and a manifest. */
  function SmallBundle(manifest: string): Archive {
    Archive([Member(CHANNEL_DIR, Directory, ""), Member(TEMPLATES_DIR, Directory, ""),
             Member("stable/catalog.yaml", Regular, manifest)], true)
  }

  lemma SmallBundlePaths()
    ensures MemberPath(CHANNEL_DIR) == Some([CHANNEL_DIR])
    ensures MemberPath(TEMPLATES_DIR) == Some([TEMPLATES_DIR])
    ensures MemberPath("stable/catalog.yaml") == Some(BUNDLE_MANIFEST)
  {
    hide MemberPath, Join;
    MemberPathOfText([CHANNEL_DIR]);
    MemberPathOfText([TEMPLATES_DIR]);
    MemberPathOfText(BUNDLE_MANIFEST);
    JoinOne(CHANNEL_DIR);
    JoinOne(TEMPLATES_DIR);
    JoinOne(MANIFEST_NAME);
    JoinAppend([CHANNEL_DIR], [MANIFEST_NAME]);
    assert [CHANNEL_DIR] + [MANIFEST_NAME] == BUNDLE_MANIFEST;
    assert CHANNEL_DIR + "/" + MANIFEST_NAME == "stable/catalog.yaml";
  }

  const CHANNEL_ONLY: Tree := map[[] := Dir, [CHANNEL_DIR] := Dir]
  const BOTH_DIRS: Tree := map[[] := Dir, [CHANNEL_DIR] := Dir, [TEMPLATES_DIR] := Dir]

  lemma OneDirectory(p: Progress, name: string)
    requires MemberPath(name) == Some([name]) && [name] !in p.tree && [] in p.tree && p.tree[[]] == Dir
    ensures Place(p, Member(name, Directory, "")) == Some(p.(tree := p.tree[[name] := Dir]))
  {
    hide MemberPath, Written, ClearFor;
    assert Passable(p.tree, [name]) by {
      assert [name][..0] == [] && [name][..1] == [name];
    }
    assert MadeAll(p.tree, [name]) == p.tree[[name] := Dir] by {
      assert Ancestors([name]) == {};
    }
  }

  lemma SmallBundleDirectories(manifest: string)
    ensures Place(EMPTY, SmallBundle(manifest).members[0]) == Some(Progress(CHANNEL_ONLY, {}, 0))
    ensures Place(Progress(CHANNEL_ONLY, {}, 0), SmallBundle(manifest).members[1]) == Some(Progress(BOTH_DIRS, {}, 0))
  {
    hide MemberPath, Place;
    SmallBundlePaths();
    OneDirectory(EMPTY, CHANNEL_DIR);
    assert EMPTY.tree[[CHANNEL_DIR] := Dir] == CHANNEL_ONLY;
    OneDirectory(Progress(CHANNEL_ONLY, {}, 0), TEMPLATES_DIR);
    assert CHANNEL_ONLY[[TEMPLATES_DIR] := Dir] == BOTH_DIRS;
  }

  lemma SmallBundleManifest(manifest: string)
    requires |manifest| <= MAX_FILE_BYTES
    ensures Place(Progress(BOTH_DIRS, {}, 0), SmallBundle(manifest).members[2]) ==
            Some(Progress(BOTH_DIRS[BUNDLE_MANIFEST := File(Data(manifest))], {BUNDLE_MANIFEST}, |manifest|))
  {
    hide MemberPath, MadeAll;
    SmallBundlePaths();
    assert BUNDLE_MANIFEST[..1] == [CHANNEL_DIR];
    var p, m := Progress(BOTH_DIRS, {}, 0), SmallBundle(manifest).members[2];
    assert Placeable(p, BUNDLE_MANIFEST, m) by {
      assert TempOf(BUNDLE_MANIFEST) !in BOTH_DIRS && BUNDLE_MANIFEST !in BOTH_DIRS;
      assert SizeLimit(0) == MAX_FILE_BYTES;
    }
    assert Written(BOTH_DIRS, BUNDLE_MANIFEST, manifest) == BOTH_DIRS[BUNDLE_MANIFEST := File(Data(manifest))] by {
      assert Ancestors(BUNDLE_MANIFEST) == {BUNDLE_MANIFEST[..1]};
    }
    assert p.seen + {BUNDLE_MANIFEST} == {BUNDLE_MANIFEST};
  }

  lemma SmallBundleExtracts(manifest: string)
    requires |manifest| <= MAX_FILE_BYTES
    ensures Extracted(SmallBundle(manifest)) == Some(BOTH_DIRS[BUNDLE_MANIFEST := File(Data(manifest))])
  {
    hide Place;
    SmallBundleDirectories(manifest);
    SmallBundleManifest(manifest);
    ThreeMembers(SmallBundle(manifest).members, EMPTY, Progress(CHANNEL_ONLY, {}, 0), Progress(BOTH_DIRS, {}, 0),
                 Progress(BOTH_DIRS[BUNDLE_MANIFEST := File(Data(manifest))], {BUNDLE_MANIFEST}, |manifest|));
  }

  lemma ThreeMembers(members: seq<Member>, p: Progress, one: Progress, two: Progress, three: Progress)
    requires |members| == 3 && Place(p, members[0]) == Some(one) && Place(one, members[1]) == Some(two)
    requires Place(two, members[2]) == Some(three)
    ensures PlaceAll(p, members) == Some(three)
  {
    hide Place;
    assert PlaceAll(two, members[2..]) == Some(three);
    assert members[1..][1..] == members[2..];
    assert PlaceAll(one, members[1..]) == Some(three);
  }

  const EXAMPLE := Formats(b => SmallBundle(b), m => Some(Catalog(|m|, [])))
  const EXAMPLE_REQUEST := Request(CHANNEL_DIR, "v1", "newer", [], 0, 0)
  const EXAMPLE_LAYOUT := Layout(Some("old"), None, map[], map[])

  lemma ExampleSnapshot()
    ensures SnapshotOf(EXAMPLE, EXAMPLE_REQUEST).Some?
    ensures FileAt(SnapshotOf(EXAMPLE, EXAMPLE_REQUEST).value, BUNDLE_MANIFEST) == Some("newer")
  {
    hide Extracted, SmallBundle;
    SmallBundleExtracts("newer");
    var t := BOTH_DIRS[BUNDLE_MANIFEST := File(Data("newer"))];
    assert FileAt(t, BUNDLE_MANIFEST) == Some("newer");
    assert BundleManifest(EXAMPLE, t) == Some("newer") by { ExampleLayout(t); }
    hide BundleManifest, FileAt;
    assert Extracted(EXAMPLE.unpack("newer")) == Some(t);
  }

  lemma ExampleLayout(t: Tree)
    requires t == BOTH_DIRS[BUNDLE_MANIFEST := File(Data("newer"))] && FileAt(t, BUNDLE_MANIFEST) == Some("newer")
    ensures BundleManifest(EXAMPLE, t) == Some("newer")
  {
    hide FileAt;
    assert |[CHANNEL_DIR]| != |BUNDLE_MANIFEST| && |[TEMPLATES_DIR]| != |BUNDLE_MANIFEST|;
    assert t[[CHANNEL_DIR]] == Dir && t[[TEMPLATES_DIR]] == Dir;
  }

  /** A concrete run: the mode check or sync after the manifest's rename fails, every undo step works, and the new manifest stays. */
  lemma LateFaultKeepsNewManifest(after: Layout)
    requires Outcome(EXAMPLE, EXAMPLE_LAYOUT, EXAMPLE_REQUEST, {SyncManifest}, after, false)
    ensures UndoWorks({SyncManifest})
    ensures after == EXAMPLE_LAYOUT.(manifest := Some("newer")) && after != EXAMPLE_LAYOUT
  {
    hide SnapshotOf, StoredAs, FileAt;
    ExampleSnapshot();
    assert Acceptable(EXAMPLE, EXAMPLE_LAYOUT, EXAMPLE_REQUEST);
  }

  lemma DropMore(a: map<string, Tree>, b: map<string, Tree>, x: string, names: set<string>)
    requires a - {x} == b - {x} && x in names
    ensures a - names == b - names
  {
    assert a - names == (a - {x}) - names && b - names == (b - {x}) - names;
  }

  lemma {:induction false} RecordedFails(t: Tree, p: seq<Provenance>, i: nat)
    requires i <= |p| && Recorded(t, p[..i]).None?
    ensures Recorded(t, p).None?
    decreases |p| - i
  {
    hide RecordOne;
    if i < |p| {
      assert p[..i + 1][..i] == p[..i];
      RecordedFails(t, p, i + 1);
    } else {
      assert p[..i] == p;
    }
  }
}
