// The verified catalog bundle: extracting its tar members below a fresh directory
// (internal/state/catalog_bundle.go) and the manifest peek that reads the same archive
// without extracting it (internal/catalog/bundle_manifest.go).
module CatalogBundle {
  import opened Wrappers
  import opened Text
  import opened Paths
  import opened FileTree

  const MAX_MEMBERS := 4096
  const MAX_FILE_BYTES := 16 * 1024 * 1024
  const MAX_TOTAL_BYTES := 64 * 1024 * 1024

  const CHANNEL_DIR := "stable"
  const TEMPLATES_DIR := "templates"
  const MANIFEST_NAME := "catalog.yaml"
  const BUNDLE_MANIFEST: Path := [CHANNEL_DIR, MANIFEST_NAME]

  datatype MemberKind = Directory | Regular | Irregular

  datatype Member = Member(name: string, kind: MemberKind, data: string)

  // What decompressing and reading the tar stream yields: the members before the first
  // read error, and whether the stream ended without one.
  datatype Archive = Archive(members: seq<Member>, complete: bool)

  /** Where a member name lands below the destination; None for an absolute or escaping name. */
  function MemberPath(name: string): (r: Option<Path>)
    ensures r.Some? ==> ValidPath(r.value)
  {
    if name != "" && name[0] == '/' then None else Clean(Split(name, '/'), [])
  }

  /** A clean path's text is extracted to that path. */
  lemma MemberPathOfText(p: Path)
    requires ValidPath(p) && p != []
    ensures MemberPath(PathText(p)) == Some(p)
  {
    hide PathText, Split, Clean;
    CleanText(p);
  }

  /** Absolute names and names that start by climbing are refused, and the destination itself is no member. */
  lemma NamesRefused(rest: string)
    ensures MemberPath("/" + rest) == None && MemberPath("../" + rest) == None && MemberPath("..") == None
    ensures MemberPath("") == Some([]) && MemberPath(".") == Some([]) && MemberPath("./") == Some([])
  {
    SplitPrefix("..", rest, '/');
    SplitPrefix("..", "", '/');
    SplitPrefix(".", "", '/');
    assert ".." + "/" + rest == "../" + rest && "." + "/" + "" == "./";
    FirstComponent(Split(rest, '/'));
    assert [".."][1..] == [] && ["."][1..] == [] && [""][1..] == [] && [".", ""][1..] == [""];
  }

  /** No file stands where a directory of the path should be. */
  predicate Passable(t: Tree, p: Path) { forall k :: 0 <= k <= |p| && p[..k] in t ==> t[p[..k]] == Dir }

  /** os.MkdirAll below the destination. */
  function MadeAll(t: Tree, p: Path): Tree { t + map q | q in Ancestors(p) + {p} && q !in t :: Dir }

  datatype Progress = Progress(tree: Tree, seen: set<Path>, total: nat)

  const EMPTY := Progress(map[[] := Dir], {}, 0)

  function SizeLimit(total: nat): nat {
    var remaining := if MAX_TOTAL_BYTES < total then 0 else MAX_TOTAL_BYTES - total;
    if remaining < MAX_FILE_BYTES then remaining else MAX_FILE_BYTES
  }

  predicate Placeable(p: Progress, path: Path, m: Member)
    requires path != []
  {
    match m.kind
    case Directory => Passable(p.tree, path)
    case Regular =>
      path !in p.seen && |m.data| <= SizeLimit(p.total) && ClearFor(p.tree, path)
    case Irregular => false
  }

  /** The effect of one member, or None where the extraction stops. */
  function Place(p: Progress, m: Member): Option<Progress> {
    var dest := MemberPath(m.name);
    if dest.None? then None
    else if dest.value == [] then Some(p)
    else if !Placeable(p, dest.value, m) then None
    else if m.kind == Directory then Some(p.(tree := MadeAll(p.tree, dest.value)))
    else Some(Progress(Written(p.tree, dest.value, m.data), p.seen + {dest.value}, p.total + |m.data|))
  }

  function PlaceAll(p: Progress, members: seq<Member>): Option<Progress>
    decreases |members|
  {
    if members == [] then Some(p)
    else
      var next := Place(p, members[0]);
      if next.None? then None else PlaceAll(next.value, members[1..])
  }

  /** The tree an extraction leaves, or None when it fails (and its directory is removed again). */
  function Extracted(a: Archive): Option<Tree> {
    var all := PlaceAll(EMPTY, a.members);
    if all.None? || !a.complete || |a.members| > MAX_MEMBERS then None else Some(all.value.tree)
  }

  lemma {:induction false} PlaceAllStep(p: Progress, members: seq<Member>, i: nat)
    requires i < |members| && PlaceAll(p, members[..i]).Some?
    ensures PlaceAll(p, members[..i + 1]) == Place(PlaceAll(p, members[..i]).value, members[i])
    decreases i
  {
    hide Place;
    if i == 0 {
      assert members[..1] == [members[0]];
      assert members[..1][1..] == [];
    } else {
      assert members[..i][0] == members[0] && members[..i + 1][0] == members[0];
      assert members[..i][1..] == members[1..][..i - 1];
      assert members[..i + 1][1..] == members[1..][..i];
      PlaceAllStep(Place(p, members[0]).value, members[1..], i - 1);
    }
  }

  lemma {:induction false} PlaceAllFails(p: Progress, members: seq<Member>, i: nat)
    requires i <= |members| && PlaceAll(p, members[..i]).None?
    ensures PlaceAll(p, members).None?
    decreases i
  {
    hide Place;
    assert members != [] && i > 0;
    var next := Place(p, members[0]);
    assert members[..i][0] == members[0] && members[..i][1..] == members[1..][..i - 1];
    if next.Some? {
      PlaceAllFails(next.value, members[1..], i - 1);
    }
  }

  /** extractMembers: one pass over the archive, stopping at the first refusal. */
  method ExtractMembers(a: Archive) returns (r: Option<Tree>)
    ensures r == Extracted(a)
  {
    hide Place;
    var progress := EMPTY;
    var i := 0;
    while i < |a.members|
      invariant 0 <= i <= |a.members| && i <= MAX_MEMBERS
      invariant PlaceAll(EMPTY, a.members[..i]) == Some(progress)
    {
      if i + 1 > MAX_MEMBERS {
        return None;
      }
      var next := Place(progress, a.members[i]);
      PlaceAllStep(EMPTY, a.members, i);
      if next.None? {
        PlaceAllFails(EMPTY, a.members, i + 1);
        return None;
      }
      progress := next.value;
      i := i + 1;
    }
    assert a.members[..i] == a.members;
    r := if a.complete then Some(progress.tree) else None;
  }

  function FileAt(t: Tree, p: Path): Option<string> {
    if p in t && t[p].File? && t[p].content.Data? then Some(t[p].content.bytes) else None
  }

  lemma FileAfterWrite(t: Tree, p: Path, data: string, x: Path)
    ensures FileAt(Written(t, p, data), x) == if x == p then Some(data) else FileAt(t, x)
  {
    hide Written;
    WrittenPointwise(t, p, data, x);
    assert At(Written(t, p, data), x) == EntryAfter(t, p, data, x);
  }

  lemma FileAfterMkdir(t: Tree, p: Path, x: Path)
    ensures FileAt(MadeAll(t, p), x) == FileAt(t, x)
  {
  }

  // ---- What an extraction guarantees ----

  /** A member that becomes a file or directory of its own, and where. */
  predicate Lands(m: Member, kind: MemberKind) { m.kind == kind && Dest(m) != [] }

  function Dest(m: Member): Path { if MemberPath(m.name).Some? then MemberPath(m.name).value else [] }

  /** The bytes of all members that become files. */
  function TotalBytes(members: seq<Member>): nat {
    if members == [] then 0
    else
      var last := members[|members| - 1];
      TotalBytes(members[..|members| - 1]) + if Lands(last, Regular) then |last.data| else 0
  }

  /** A directory tree of valid paths whose entries are directories and complete files. */
  ghost predicate CleanTree(t: Tree) {
    && IsTree(t) && [] in t && t[[]] == Dir
    && forall x :: x in t ==> ValidPath(x) && (t[x] == Dir || FileAt(t, x).Some?)
  }

  /** The files are exactly the regular members, each with its bytes; the directory members are directories. */
  ghost predicate HoldsMembers(t: Tree, members: seq<Member>) {
    && (forall m :: m in members && Lands(m, Regular) ==> FileAt(t, Dest(m)) == Some(m.data))
    && (forall m :: m in members && Lands(m, Directory) ==> Dest(m) in t && t[Dest(m)] == Dir)
    && (forall x :: FileAt(t, x).Some? ==> exists m :: m in members && Lands(m, Regular) && Dest(m) == x)
  }

  ghost predicate WithinCaps(members: seq<Member>) {
    TotalBytes(members) <= MAX_TOTAL_BYTES && forall m :: m in members && Lands(m, Regular) ==> |m.data| <= MAX_FILE_BYTES
  }

  ghost predicate SeenFiles(seen: set<Path>, members: seq<Member>) {
    forall m :: m in members && Lands(m, Regular) ==> Dest(m) in seen
  }

  ghost predicate WellPlaced(p: Progress, members: seq<Member>) {
    CleanTree(p.tree) && HoldsMembers(p.tree, members) && WithinCaps(members) && SeenFiles(p.seen, members) && p.total == TotalBytes(members)
  }

  lemma WrittenEntry(t: Tree, p: Path, data: string, x: Path)
    ensures x in Written(t, p, data) <==> x == p || x in t || x in Ancestors(p)
    ensures x in Written(t, p, data) ==>
              Written(t, p, data)[x] == if x == p then File(Data(data)) else if x in t then t[x] else Dir
  {
  }

  /** A write with nothing in its way keeps the tree a tree. */
  lemma WrittenIsClean(t: Tree, p: Path, data: string)
    requires CleanTree(t) && p != [] && ValidPath(p) && ClearFor(t, p)
    ensures CleanTree(Written(t, p, data))
  {
    hide Written, ValidPath, FileAt;
    var w := Written(t, p, data);
    forall x | x in w
      ensures x != [] ==> Parent(x) in w && w[Parent(x)] == Dir
      ensures ValidPath(x) && (w[x] == Dir || FileAt(w, x).Some?)
    {
      WrittenEntry(t, p, data, x);
      FileAfterWrite(t, p, data, x);
      PrefixIsValid(p, x);
      if x != [] {
        WrittenEntry(t, p, data, Parent(x));
        ParentOfPrefix(p, x);
      }
    }
    WrittenEntry(t, p, data, []);
  }

  lemma PrefixIsValid(p: Path, x: Path)
    requires ValidPath(p)
    ensures x == p || x in Ancestors(p) ==> ValidPath(x)
  {
  }

  lemma ParentOfPrefix(p: Path, x: Path)
    requires x != []
    ensures x == p || x in Ancestors(p) ==> Parent(x) == [] || Parent(x) in Ancestors(p)
  {
    var k := |x| - 1;
    if x == p || x in Ancestors(p) {
      assert Parent(x) == p[..k];
    }
  }

  lemma MadeEntry(t: Tree, p: Path, x: Path)
    ensures x in MadeAll(t, p) <==> x == p || x in t || x in Ancestors(p)
    ensures x in MadeAll(t, p) ==> MadeAll(t, p)[x] == if x in t then t[x] else Dir
  {
  }

  lemma PassableAt(t: Tree, p: Path, x: Path)
    requires Passable(t, p) && (x == p || x in Ancestors(p)) && x in t
    ensures t[x] == Dir
  {
    assert p[..|p|] == p;
  }

  /** Directories made where no file stands keep the tree a tree. */
  lemma MadeIsClean(t: Tree, p: Path)
    requires CleanTree(t) && p != [] && ValidPath(p) && Passable(t, p)
    ensures CleanTree(MadeAll(t, p)) && p in MadeAll(t, p) && MadeAll(t, p)[p] == Dir
  {
    hide MadeAll, ValidPath, FileAt, Passable;
    var w := MadeAll(t, p);
    forall x | x in w
      ensures x != [] ==> Parent(x) in w && w[Parent(x)] == Dir
      ensures ValidPath(x) && (w[x] == Dir || FileAt(w, x).Some?)
    {
      MadeEntry(t, p, x);
      FileAfterMkdir(t, p, x);
      PrefixIsValid(p, x);
      if x != [] {
        MadeEntry(t, p, Parent(x));
        ParentOfPrefix(p, x);
        if (x == p || x in Ancestors(p)) && Parent(x) != [] && Parent(x) in t {
          PassableAt(t, p, Parent(x));
        }
      }
    }
    MadeEntry(t, p, []);
    MadeEntry(t, p, p);
    if p in t {
      PassableAt(t, p, p);
    }
  }

  // One more member that lands as a file, as a directory, or nowhere.

  lemma MemberOfLonger(members: seq<Member>, m: Member)
    ensures forall x :: x in members + [m] <==> x in members || x == m
    ensures TotalBytes(members + [m]) == TotalBytes(members) + if Lands(m, Regular) then |m.data| else 0
  {
    assert (members + [m])[..|members|] == members;
  }

  lemma HoldsOneMoreFile(t: Tree, members: seq<Member>, m: Member, seen: set<Path>)
    requires HoldsMembers(t, members) && SeenFiles(seen, members) && Lands(m, Regular) && Dest(m) !in seen && ClearFor(t, Dest(m))
    ensures HoldsMembers(Written(t, Dest(m), m.data), members + [m]) && SeenFiles(seen + {Dest(m)}, members + [m])
  {
    hide Written, MemberPath, FileAt, TotalBytes, Lands;
    var path := Dest(m);
    var w, longer := Written(t, path, m.data), members + [m];
    MemberOfLonger(members, m);
    forall x
      ensures FileAt(w, x) == if x == path then Some(m.data) else FileAt(t, x)
    {
      FileAfterWrite(t, path, m.data, x);
    }
    forall x | x in longer && Lands(x, Directory)
      ensures Dest(x) in w && w[Dest(x)] == Dir
    {
      WrittenEntry(t, path, m.data, Dest(x));
      LandsOnce(x);
    }
    assert m in longer;
    forall x | FileAt(w, x).Some?
      ensures exists y :: y in longer && Lands(y, Regular) && Dest(y) == x
    {
      if x != path {
        var y :| y in members && Lands(y, Regular) && Dest(y) == x;
        assert y in longer;
      }
    }
  }

  lemma LandsOnce(m: Member)
    ensures !(Lands(m, Regular) && Lands(m, Directory))
    ensures Lands(m, Regular) || Lands(m, Directory) ==> Dest(m) != []
  {
  }

  lemma HoldsOneMoreDirectory(t: Tree, members: seq<Member>, m: Member)
    requires HoldsMembers(t, members) && Lands(m, Directory) && Passable(t, Dest(m))
    ensures HoldsMembers(MadeAll(t, Dest(m)), members + [m])
  {
    hide MadeAll, MemberPath, FileAt, TotalBytes, Passable, Lands;
    LandsOnce(m);
    var path := Dest(m);
    var w, longer := MadeAll(t, path), members + [m];
    MemberOfLonger(members, m);
    forall x
      ensures FileAt(w, x) == FileAt(t, x)
    {
      FileAfterMkdir(t, path, x);
    }
    forall x | x in longer && Lands(x, Directory)
      ensures Dest(x) in w && w[Dest(x)] == Dir
    {
      MadeEntry(t, path, Dest(x));
      if x == m && path in t {
        PassableAt(t, path, path);
      }
    }
    forall x | FileAt(w, x).Some?
      ensures exists y :: y in longer && Lands(y, Regular) && Dest(y) == x
    {
      var y :| y in members && Lands(y, Regular) && Dest(y) == x;
      assert y in longer;
    }
  }

  lemma HoldsUnchanged(t: Tree, members: seq<Member>, m: Member)
    requires HoldsMembers(t, members) && !Lands(m, Regular) && !Lands(m, Directory)
    ensures HoldsMembers(t, members + [m])
  {
    hide MemberPath, FileAt, TotalBytes, Lands;
    MemberOfLonger(members, m);
    forall x | FileAt(t, x).Some?
      ensures exists y :: y in members + [m] && Lands(y, Regular) && Dest(y) == x
    {
      var y :| y in members && Lands(y, Regular) && Dest(y) == x;
      assert y in members + [m];
    }
  }

  lemma CapsOneMore(members: seq<Member>, m: Member)
    requires WithinCaps(members) && (Lands(m, Regular) ==> |m.data| <= SizeLimit(TotalBytes(members)))
    ensures WithinCaps(members + [m])
  {
    hide MemberPath;
    MemberOfLonger(members, m);
  }

  lemma StaysWellPlaced(p: Progress, members: seq<Member>, m: Member)
    requires WellPlaced(p, members) && Place(p, m).Some?
    ensures WellPlaced(Place(p, m).value, members + [m])
  {
    hide MemberPath, FileAt, TotalBytes, CleanTree, HoldsMembers, SeenFiles, WithinCaps, Written, MadeAll, ClearFor, Passable, ValidPath, SizeLimit;
    var path := MemberPath(m.name).value;
    MemberOfLonger(members, m);
    CapsOneMore(members, m);
    if path == [] || m.kind == Directory {
      SeenUnchanged(p.seen, members, m);
    }
    if path == [] {
      HoldsUnchanged(p.tree, members, m);
    } else if m.kind == Directory {
      MadeIsClean(p.tree, path);
      HoldsOneMoreDirectory(p.tree, members, m);
    } else {
      WrittenIsClean(p.tree, path, m.data);
      HoldsOneMoreFile(p.tree, members, m, p.seen);
    }
  }

  lemma SeenUnchanged(seen: set<Path>, members: seq<Member>, m: Member)
    requires SeenFiles(seen, members) && !Lands(m, Regular)
    ensures SeenFiles(seen, members + [m])
  {
    hide MemberPath;
  }

  lemma NothingPlaced()
    ensures WellPlaced(EMPTY, [])
  {
  }

  lemma {:induction false} PrefixWellPlaced(members: seq<Member>, i: nat)
    requires i <= |members| && PlaceAll(EMPTY, members).Some?
    ensures PlaceAll(EMPTY, members[..i]).Some? && WellPlaced(PlaceAll(EMPTY, members[..i]).value, members[..i])
    decreases i
  {
    hide Place, WellPlaced;
    if i == 0 {
      NothingPlaced();
    } else {
      PrefixWellPlaced(members, i - 1);
      PlaceAllStep(EMPTY, members, i - 1);
      if Place(PlaceAll(EMPTY, members[..i - 1]).value, members[i - 1]).None? {
        PlaceAllFails(EMPTY, members, i);
      }
      StaysWellPlaced(PlaceAll(EMPTY, members[..i - 1]).value, members[..i - 1], members[i - 1]);
      assert members[..i - 1] + [members[i - 1]] == members[..i];
    }
  }

  /** An extracted bundle is a tree of valid paths below its directory whose files are exactly the regular members,
      each with its bytes, within the member, file and total caps. */
  lemma ExtractionIsContained(a: Archive)
    requires Extracted(a).Some?
    ensures CleanTree(Extracted(a).value) && HoldsMembers(Extracted(a).value, a.members)
    ensures WithinCaps(a.members) && |a.members| <= MAX_MEMBERS
  {
    hide PlaceAll, CleanTree, HoldsMembers, WithinCaps;
    PrefixWellPlaced(a.members, |a.members|);
    assert a.members[..|a.members|] == a.members;
  }

  // ---- The peek ----

  predicate NamesManifest(m: Member) { m.kind == Regular && MemberPath(m.name) == Some(BUNDLE_MANIFEST) }

  /** readBundleMember: the first regular member of that name, within the size cap. */
  function Peek(members: seq<Member>): Option<string> {
    if members == [] then None
    else if NamesManifest(members[0]) then
      if |members[0].data| <= MAX_FILE_BYTES then Some(members[0].data) else None
    else Peek(members[1..])
  }

  /** The peek finds the first regular member whose name cleans to stable/catalog.yaml, if it is at most 16 MiB. */
  lemma {:induction false} PeekExactly(members: seq<Member>, bytes: string)
    ensures Peek(members) == Some(bytes) <==>
              exists i :: 0 <= i < |members| && IsFirstManifest(members, i) && members[i].data == bytes && |bytes| <= 16777216
    decreases |members|
  {
    hide MemberPath;
    if members != [] && !NamesManifest(members[0]) {
      PeekExactly(members[1..], bytes);
      if Peek(members) == Some(bytes) {
        var i :| 0 <= i < |members[1..]| && IsFirstManifest(members[1..], i) && members[1..][i].data == bytes && |bytes| <= 16777216;
        assert IsFirstManifest(members, i + 1);
      }
      if i :| 0 <= i < |members| && IsFirstManifest(members, i) && members[i].data == bytes && |bytes| <= 16777216 {
        assert IsFirstManifest(members[1..], i - 1);
      }
    } else if members != [] {
      assert IsFirstManifest(members, 0);
    }
  }

  predicate IsFirstManifest(members: seq<Member>, i: nat)
    requires i < |members|
  {
    && members[i].kind == Regular && MemberPath(members[i].name) == Some(["stable", "catalog.yaml"])
    && forall j :: 0 <= j < i ==> !(members[j].kind == Regular && MemberPath(members[j].name) == Some(["stable", "catalog.yaml"]))
  }

  /** Another member never changes the manifest. */
  lemma PlaceKeepsManifest(p: Progress, m: Member)
    requires Place(p, m).Some? && (BUNDLE_MANIFEST in p.seen || !NamesManifest(m))
    ensures FileAt(Place(p, m).value.tree, BUNDLE_MANIFEST) == FileAt(p.tree, BUNDLE_MANIFEST)
    ensures BUNDLE_MANIFEST in Place(p, m).value.seen <==> BUNDLE_MANIFEST in p.seen
  {
    hide MemberPath, ValidPath, FileAt, Written, MadeAll, ClearFor, Passable;
    var path := MemberPath(m.name).value;
    FileAfterMkdir(p.tree, path, BUNDLE_MANIFEST);
    FileAfterWrite(p.tree, path, m.data, BUNDLE_MANIFEST);
  }

  lemma {:induction false} RestKeepsManifest(p: Progress, members: seq<Member>)
    requires BUNDLE_MANIFEST in p.seen && PlaceAll(p, members).Some?
    ensures FileAt(PlaceAll(p, members).value.tree, BUNDLE_MANIFEST) == FileAt(p.tree, BUNDLE_MANIFEST)
    decreases |members|
  {
    hide Place, FileAt;
    if members != [] {
      PlaceKeepsManifest(p, members[0]);
      RestKeepsManifest(Place(p, members[0]).value, members[1..]);
    }
  }

  lemma {:induction false} PeekFollowsExtraction(p: Progress, members: seq<Member>)
    requires BUNDLE_MANIFEST !in p.seen && FileAt(p.tree, BUNDLE_MANIFEST).None? && PlaceAll(p, members).Some?
    ensures FileAt(PlaceAll(p, members).value.tree, BUNDLE_MANIFEST) == Peek(members)
    decreases |members|
  {
    if members != [] {
      var next := Place(p, members[0]).value;
      if NamesManifest(members[0]) {
        hide FileAt, Written, MemberPath, ClearFor, Passable;
        FileAfterWrite(p.tree, BUNDLE_MANIFEST, members[0].data, BUNDLE_MANIFEST);
        RestKeepsManifest(next, members[1..]);
      } else {
        hide Place, FileAt;
        PlaceKeepsManifest(p, members[0]);
        PeekFollowsExtraction(next, members[1..]);
      }
    }
  }

  /** Whenever a bundle extracts, the peek and the extracted manifest are the same bytes, or both are missing. */
  lemma PeekAgrees(a: Archive)
    requires Extracted(a).Some?
    ensures Peek(a.members) == FileAt(Extracted(a).value, BUNDLE_MANIFEST)
  {
    hide PlaceAll, Peek;
    PeekFollowsExtraction(EMPTY, a.members);
  }
}
