// Which files an install writes, and the destination tracker that keeps them,
// their temporary files and the reserved names apart (install_phase_write.go).
module ArtifactLayout {
  import opened Wrappers
  import opened Paths

  const COMPOSE: Path := ["docker-compose.yml"]
  const COMPOSE_OVERRIDE: Path := ["docker-compose.override.yml"]
  const ENV: Path := [".env"]
  const USER_ENV: Path := [".env.user"]
  const LOCK: Path := [".wdm.lock"]
  const BACKUPS: Path := [".wdm-backups"]

  const RESERVED_FINAL: seq<Path> := [COMPOSE, ENV, USER_ENV, COMPOSE_OVERRIDE, LOCK, BACKUPS]
  const COMPOSE_TEMP: Path := ["docker-compose.yml.tmp"]
  const ENV_TEMP: Path := [".env.tmp"]
  const LOCK_TEMP: Path := [".wdm.lock.tmp"]
  const RESERVED_TEMP: seq<Path> := [COMPOSE_TEMP, ENV_TEMP, LOCK_TEMP]

  // ---- Pairwise separation ----

  ghost predicate Separate(claimed: seq<Path>) {
    forall i, j :: 0 <= i < j < |claimed| ==> Apart(claimed[i], claimed[j])
  }

  /** Every path an install with these destinations may touch: reserved names, finals, and their temporaries. */
  ghost function Claimed(dests: seq<Path>): seq<Path> {
    if dests == [] then RESERVED_FINAL + RESERVED_TEMP
    else
      var last := dests[|dests| - 1];
      Claimed(dests[..|dests| - 1]) + (if last == [] then [last] else [last, TempOf(last)])
  }

  /** The tracker's promise about a list of destinations. */
  ghost predicate KeptApart(dests: seq<Path>) {
    (forall k :: 0 <= k < |dests| ==> dests[k] != []) && Separate(Claimed(dests))
  }

  lemma ReservedSeparate()
    ensures KeptApart([])
  {
    var claimed := Claimed([]);
    assert claimed == [COMPOSE, ENV, USER_ENV, COMPOSE_OVERRIDE, LOCK, BACKUPS, COMPOSE_TEMP, ENV_TEMP, LOCK_TEMP];
    forall i, j | 0 <= i < j < |claimed|
      ensures Apart(claimed[i], claimed[j])
    {
      assert |claimed[i]| == |claimed[j]| == 1 && claimed[i][0] != claimed[j][0];
    }
  }

  // ---- The tracker, on text ----

  predicate PathsConflict(a: string, b: string) { HasRoot(a, b) || HasRoot(b, a) }

  ghost predicate ConflictsWith(candidate: string, paths: map<string, string>) {
    exists existing :: existing in paths && PathsConflict(candidate, existing)
  }

  /** The tracker's two maps hold exactly the texts of the claimed paths. */
  ghost predicate Tracks(final: map<string, string>, temp: map<string, string>, claimed: seq<Path>) {
    && (forall k :: 0 <= k < |claimed| ==> ValidPath(claimed[k]) && claimed[k] != [] && (PathText(claimed[k]) in final || PathText(claimed[k]) in temp))
    && (forall text :: text in final || text in temp ==> exists k :: 0 <= k < |claimed| && PathText(claimed[k]) == text)
  }

  ghost predicate ApartFromAll(p: Path, claimed: seq<Path>) {
    forall k :: 0 <= k < |claimed| ==> Apart(p, claimed[k])
  }

  lemma ConflictIsOverlap(p: Path, final: map<string, string>, temp: map<string, string>, claimed: seq<Path>)
    requires Tracks(final, temp, claimed) && ValidPath(p) && p != []
    ensures ConflictsWith(PathText(p), final) || ConflictsWith(PathText(p), temp) <==> !ApartFromAll(p, claimed)
  {
    hide PathText, HasRoot;
    var text := PathText(p);
    if ConflictsWith(text, final) || ConflictsWith(text, temp) {
      var existing :| (existing in final || existing in temp) && PathsConflict(text, existing);
      var k :| 0 <= k < |claimed| && PathText(claimed[k]) == existing;
      ConflictMeansNested(p, claimed[k]);
    }
    if !ApartFromAll(p, claimed) {
      var k :| 0 <= k < |claimed| && !Apart(p, claimed[k]);
      ConflictMeansNested(p, claimed[k]);
    }
  }

  lemma ConflictMeansNested(p: Path, q: Path)
    requires ValidPath(p) && ValidPath(q) && p != [] && q != []
    ensures PathsConflict(PathText(p), PathText(q)) <==> !Apart(p, q)
  {
    TextPrefixIsPathPrefix(p, q);
    TextPrefixIsPathPrefix(q, p);
  }

  class DestTracker {
    var final: map<string, string>
    var temp: map<string, string>

    constructor ()
      ensures Tracks(final, temp, Claimed([]))
    {
      final := map[COMPOSE[0] := COMPOSE[0], ENV[0] := ENV[0], USER_ENV[0] := USER_ENV[0],
                   COMPOSE_OVERRIDE[0] := COMPOSE_OVERRIDE[0], LOCK[0] := LOCK[0], BACKUPS[0] := BACKUPS[0]];
      temp := map[COMPOSE_TEMP[0] := COMPOSE[0], ENV_TEMP[0] := ENV[0], LOCK_TEMP[0] := LOCK[0]];
      new;
      InitialTracks(final, temp);
    }

    method FindConflict(candidate: string, paths: map<string, string>) returns (found: bool)
      ensures found <==> ConflictsWith(candidate, paths)
    {
      var pending := paths.Items;
      while pending != {}
        invariant pending <= paths.Items
        invariant forall existing :: existing in paths && (existing, paths[existing]) !in pending ==> !PathsConflict(candidate, existing)
        decreases pending
      {
        var entry :| entry in pending;
        var (existing, _) := entry;
        if PathsConflict(candidate, existing) {
          assert existing in paths;
          return true;
        }
        pending := pending - {entry};
      }
      found := false;
    }

    /** Records a destination unless it or its temporary overlaps anything recorded before. */
    method Add(owner: string, relative: Path, ghost dests: seq<Path>) returns (ok: bool)
      requires ValidPath(relative) && KeptApart(dests) && Tracks(final, temp, Claimed(dests))
      modifies this
      ensures ok <==> KeptApart(dests + [relative])
      ensures ok ==> Tracks(final, temp, Claimed(dests + [relative]))
      ensures !ok ==> final == old(final) && temp == old(temp)
    {
      if relative == [] {
        assert (dests + [relative])[|dests|] == [];
        return false;
      }
      var cleaned := PathText(relative);
      var tempPath := cleaned + TEMP_SUFFIX;
      TempText(relative);
      ghost var claimed := Claimed(dests);
      ConflictIsOverlap(relative, final, temp, claimed);
      ConflictIsOverlap(TempOf(relative), final, temp, claimed);
      ClaimedExtends(dests, relative);
      var clash := FindConflict(cleaned, final);
      if clash { return false; }
      clash := FindConflict(cleaned, temp);
      if clash { return false; }
      clash := FindConflict(tempPath, final);
      if clash { return false; }
      clash := FindConflict(tempPath, temp);
      if clash { return false; }
      TracksExtends(final, temp, claimed, relative, owner);
      final := final[cleaned := owner];
      temp := temp[tempPath := owner];
      ok := true;
    }
  }

  lemma InitialTracks(final: map<string, string>, temp: map<string, string>)
    requires final.Keys == {COMPOSE[0], ENV[0], USER_ENV[0], COMPOSE_OVERRIDE[0], LOCK[0], BACKUPS[0]}
    requires temp.Keys == {COMPOSE_TEMP[0], ENV_TEMP[0], LOCK_TEMP[0]}
    ensures Tracks(final, temp, Claimed([]))
  {
    hide PathText, ValidPath;
    var claimed := Claimed([]);
    assert claimed == RESERVED_FINAL + RESERVED_TEMP;
    forall k | 0 <= k < |claimed|
      ensures claimed[k] != [] && ValidPath(claimed[k]) && PathText(claimed[k]) == claimed[k][0]
    {
      ReservedValid(claimed[k]);
      OneName(claimed[k][0]);
    }
    forall text | text in final || text in temp
      ensures exists k :: 0 <= k < |claimed| && claimed[k][0] == text
    {
      assert text in [claimed[0][0], claimed[1][0], claimed[2][0], claimed[3][0], claimed[4][0], claimed[5][0],
                      claimed[6][0], claimed[7][0], claimed[8][0]];
    }
  }

  lemma ReservedValid(p: Path)
    requires p in RESERVED_FINAL + RESERVED_TEMP
    ensures |p| == 1 && ValidPath(p)
  {
  }

  lemma OneName(n: Name)
    ensures PathText([n]) == n
  {
  }

  /** One more destination is accepted exactly when it and its temporary are apart from everything claimed. */
  lemma ClaimedExtends(dests: seq<Path>, p: Path)
    requires KeptApart(dests) && p != []
    ensures Claimed(dests + [p]) == Claimed(dests) + [p, TempOf(p)]
    ensures KeptApart(dests + [p]) <==> ApartFromAll(p, Claimed(dests)) && ApartFromAll(TempOf(p), Claimed(dests))
  {
    hide Claimed;
    var longer, claimed := dests + [p], Claimed(dests);
    ClaimedLast(dests, p);
    var all := claimed + [p, TempOf(p)];
    assert all[|claimed|] == p && all[|claimed| + 1] == TempOf(p);
    assert forall k :: 0 <= k < |claimed| ==> all[k] == claimed[k];
    assert forall k :: 0 <= k < |dests| ==> longer[k] == dests[k];
    if KeptApart(longer) {
      forall k | 0 <= k < |claimed|
        ensures Apart(p, claimed[k]) && Apart(TempOf(p), claimed[k])
      {
        assert Apart(all[k], all[|claimed|]) && Apart(all[k], all[|claimed| + 1]);
      }
    }
    assert Apart(p, TempOf(p));
  }

  lemma ClaimedLast(dests: seq<Path>, p: Path)
    requires p != []
    ensures Claimed(dests + [p]) == Claimed(dests) + [p, TempOf(p)]
  {
    assert (dests + [p])[..|dests|] == dests;
  }

  lemma TracksExtends(final: map<string, string>, temp: map<string, string>, claimed: seq<Path>, p: Path, owner: string)
    requires Tracks(final, temp, claimed) && ValidPath(p) && p != []
    ensures ValidPath(TempOf(p)) && PathText(TempOf(p)) == PathText(p) + TEMP_SUFFIX
    ensures Tracks(final[PathText(p) := owner], temp[PathText(p) + TEMP_SUFFIX := owner], claimed + [p, TempOf(p)])
  {
    hide PathText, ValidPath;
    TempText(p);
    var all := claimed + [p, TempOf(p)];
    assert all[|claimed|] == p && all[|claimed| + 1] == TempOf(p);
    var final', temp' := final[PathText(p) := owner], temp[PathText(p) + TEMP_SUFFIX := owner];
    forall text | text in final' || text in temp'
      ensures exists k :: 0 <= k < |all| && PathText(all[k]) == text
    {
      if text in final || text in temp {
        var k :| 0 <= k < |claimed| && PathText(claimed[k]) == text;
        assert all[k] == claimed[k];
      } else {
        assert text == PathText(all[|claimed|]) || text == PathText(all[|claimed| + 1]);
      }
    }
  }

  // ---- The file set of an install ----

  datatype RenderedFile = RenderedFile(dest: string, bytes: string, modeValid: bool)

  datatype FileWrite = FileWrite(path: Path, data: string)

  ghost function Destinations(writes: seq<FileWrite>): seq<Path> {
    seq(|writes|, k requires 0 <= k < |writes| => writes[k].path)
  }

  /** The list is what the files ask for, one write each, in order. */
  ghost predicate WritesFor(rootAbsolute: bool, files: seq<RenderedFile>, writes: seq<FileWrite>) {
    |writes| == |files| && forall k :: 0 <= k < |files| ==>
      SafeJoin(rootAbsolute, files[k].dest) == Some(writes[k].path) && writes[k].data == files[k].bytes
  }

  ghost predicate AllJoin(rootAbsolute: bool, files: seq<RenderedFile>) {
    forall k :: 0 <= k < |files| ==> SafeJoin(rootAbsolute, files[k].dest).Some?
  }

  ghost function Joined(rootAbsolute: bool, files: seq<RenderedFile>): seq<Path>
    requires AllJoin(rootAbsolute, files)
  {
    seq(|files|, k requires 0 <= k < |files| => SafeJoin(rootAbsolute, files[k].dest).value)
  }

  /** Every destination is a local subpath, every mode parses, and all claimed paths are kept apart. */
  ghost predicate FilesAcceptable(rootAbsolute: bool, files: seq<RenderedFile>) {
    && AllJoin(rootAbsolute, files) && KeptApart(Joined(rootAbsolute, files))
    && forall k :: 0 <= k < |files| ==> files[k].modeValid
  }

  lemma {:induction false} KeptApartPrefix(dests: seq<Path>, n: nat)
    requires n <= |dests|
    ensures KeptApart(dests) ==> KeptApart(dests[..n])
    decreases |dests| - n
  {
    if n == |dests| {
      assert dests[..n] == dests;
    } else if KeptApart(dests) {
      KeptApartPrefix(dests, n + 1);
      var longer, shorter := dests[..n + 1], dests[..n];
      assert longer == shorter + [dests[n]];
      assert forall k :: 0 <= k < n ==> shorter[k] == longer[k];
      ClaimedLast(shorter, dests[n]);
      var all := Claimed(longer);
      assert forall k :: 0 <= k < |Claimed(shorter)| ==> Claimed(shorter)[k] == all[k];
    }
  }

  // ---- The same without the list of claims ----

  predicate ReservedName(n: Name) {
    n in {"docker-compose.yml", ".env", ".env.user", "docker-compose.override.yml", ".wdm.lock", ".wdm-backups",
          "docker-compose.yml.tmp", ".env.tmp", ".wdm.lock.tmp"}
  }

  /** Neither of two destinations, nor the temporary of the one, stands in the other's way. */
  predicate Compatible(p: Path, q: Path)
    requires p != []
  {
    Apart(p, q) && Apart(TempOf(p), q)
  }

  lemma {:induction false} ClaimedAre(dests: seq<Path>, x: Path)
    requires forall k :: 0 <= k < |dests| ==> dests[k] != []
    ensures x in Claimed(dests) <==> (|x| == 1 && ReservedName(x[0])) || exists p :: p in dests && p != [] && (x == p || x == TempOf(p))
    decreases |dests|
  {
    hide TempOf, ReservedName;
    if dests == [] {
      ReservedAre(x);
    } else {
      var before, last := dests[..|dests| - 1], dests[|dests| - 1];
      ClaimedAre(before, x);
      assert dests == before + [last];
      ClaimedLast(before, last);
      assert forall p :: p in dests <==> p in before || p == last;
      assert x in Claimed(dests) <==> x in Claimed(before) || x == last || x == TempOf(last);
    }
  }

  lemma ReservedAre(x: Path)
    ensures x in Claimed([]) <==> |x| == 1 && ReservedName(x[0])
  {
    if |x| == 1 {
      assert x == [x[0]];
    }
  }

  /** A reserved name stands in the way of a destination, or of its temporary, exactly when the destination begins with it. */
  lemma ApartFromReserved(p: Path)
    requires p != []
    ensures (forall x: Path :: |x| == 1 && ReservedName(x[0]) ==> Apart(p, x) && Apart(TempOf(p), x)) <==> !ReservedName(p[0])
  {
    if !ReservedName(p[0]) {
      TemporaryNotReserved(p);
    } else {
      assert [p[0]] <= p && |[p[0]]| == 1;
    }
  }

  lemma SameStem(n: Name, m: Name)
    requires n + TEMP_SUFFIX == m + TEMP_SUFFIX
    ensures n == m
  {
    assert (n + TEMP_SUFFIX)[..|n|] == n && (m + TEMP_SUFFIX)[..|m|] == m;
  }

  /** The temporary's name of a name that is not reserved is not reserved either. */
  lemma TemporaryName(n: Name)
    ensures !ReservedName(n) ==> !ReservedName(n + TEMP_SUFFIX)
  {
    var name := n + TEMP_SUFFIX;
    assert name[|name| - 1] == 'p';
    assert COMPOSE[0] + TEMP_SUFFIX == "docker-compose.yml.tmp" && ENV[0] + TEMP_SUFFIX == ".env.tmp" && LOCK[0] + TEMP_SUFFIX == ".wdm.lock.tmp";
    if name == COMPOSE[0] + TEMP_SUFFIX {
      SameStem(n, COMPOSE[0]);
    } else if name == ENV[0] + TEMP_SUFFIX {
      SameStem(n, ENV[0]);
    } else if name == LOCK[0] + TEMP_SUFFIX {
      SameStem(n, LOCK[0]);
    } else {
      LastCharacters(name);
    }
  }

  lemma LastCharacters(name: Name)
    requires name != ""
    ensures ReservedName(name) && name[|name| - 1] == 'p' ==> name in {"docker-compose.yml.tmp", ".env.tmp", ".wdm.lock.tmp"}
  {
  }

  lemma TemporaryNotReserved(p: Path)
    requires p != []
    ensures !ReservedName(p[0]) ==> !ReservedName(TempOf(p)[0])
  {
    hide ReservedName;
    if |p| == 1 {
      TemporaryName(p[0]);
    }
  }

  lemma TemporariesApart(p: Path, q: Path)
    requires p != [] && q != []
    ensures Compatible(p, q) && Compatible(q, p) <==> Apart(p, q) && Apart(TempOf(p), q) && Apart(p, TempOf(q)) && Apart(TempOf(p), TempOf(q))
  {
    if |p| == |q| && TempOf(p) == TempOf(q) {
      TempInjective(p, q);
    } else if |p| < |q| {
      assert q[..|p|] == TempOf(q)[..|p|];
    } else if |q| < |p| {
      assert p[..|q|] == TempOf(p)[..|q|];
    }
  }

  lemma TempInjective(p: Path, q: Path)
    requires p != [] && q != [] && TempOf(p) == TempOf(q)
    ensures p == q
  {
    var n := |p| - 1;
    assert TempOf(p)[n][..|p[n]|] == p[n] && TempOf(q)[n][..|q[n]|] == q[n];
    assert Parent(p) + [p[n]] == p && Parent(q) + [q[n]] == q;
  }

  ghost predicate FreeOf(dests: seq<Path>, p: Path)
    requires p != []
  {
    !ReservedName(p[0]) && forall q :: q in dests && q != [] ==> Compatible(p, q) && Compatible(q, p)
  }

  lemma ApartFromClaimed(dests: seq<Path>, p: Path)
    requires p != [] && forall k :: 0 <= k < |dests| ==> dests[k] != []
    ensures ApartFromAll(p, Claimed(dests)) && ApartFromAll(TempOf(p), Claimed(dests)) <==> FreeOf(dests, p)
  {
    hide ReservedName, TempOf, Compatible, Claimed, Apart;
    forall x
      ensures x in Claimed(dests) <==> (|x| == 1 && ReservedName(x[0])) || exists q :: q in dests && q != [] && (x == q || x == TempOf(q))
    {
      ClaimedAre(dests, x);
    }
    ApartFromReserved(p);
    forall q | q in dests
      ensures Compatible(p, q) && Compatible(q, p) <==> Apart(p, q) && Apart(TempOf(p), q) && Apart(p, TempOf(q)) && Apart(TempOf(p), TempOf(q))
    {
      TemporariesApart(p, q);
    }
    ApartPointwise(p, Claimed(dests));
    ApartPointwise(TempOf(p), Claimed(dests));
  }

  lemma ApartPointwise(p: Path, claimed: seq<Path>)
    ensures ApartFromAll(p, claimed) <==> forall x :: x in claimed ==> Apart(p, x)
  {
  }

  /** The tracker accepts a list of destinations exactly when none is the stack directory, none begins with a reserved name,
      and no two of them, temporaries included, stand in each other's way. */
  lemma {:induction false} KeptApartExactly(dests: seq<Path>)
    ensures KeptApart(dests) <==>
              && (forall k :: 0 <= k < |dests| ==> dests[k] != [] && !ReservedName(dests[k][0]))
              && (forall i, j :: 0 <= i < j < |dests| && dests[i] != [] && dests[j] != [] ==>
                    Compatible(dests[i], dests[j]) && Compatible(dests[j], dests[i]))
    decreases |dests|
  {
    hide KeptApart, ReservedName, Compatible, Claimed;
    if dests == [] {
      ReservedSeparate();
    } else {
      var before, last := dests[..|dests| - 1], dests[|dests| - 1];
      assert dests == before + [last] && forall k :: 0 <= k < |before| ==> before[k] == dests[k];
      KeptApartExactly(before);
      KeptApartPrefix(dests, |before|);
      NoneIsRoot(dests);
      if KeptApart(before) && last != [] {
        ClaimedExtends(before, last);
        ApartFromClaimed(before, last);
      }
    }
  }

  lemma NoneIsRoot(dests: seq<Path>)
    ensures KeptApart(dests) ==> forall k :: 0 <= k < |dests| ==> dests[k] != []
  {
  }

  method RenderedArtifactWrites(rootAbsolute: bool, files: seq<RenderedFile>) returns (r: Option<seq<FileWrite>>)
    ensures r.Some? <==> FilesAcceptable(rootAbsolute, files)
    ensures r.Some? ==> WritesFor(rootAbsolute, files, r.value) && KeptApart(Destinations(r.value))
    ensures r.Some? ==> forall f :: f in files ==> f.modeValid
  {
    hide SafeJoin, KeptApart, Claimed, Tracks;
    var tracker := new DestTracker();
    var writes: seq<FileWrite> := [];
    ReservedSeparate();
    assert Destinations(writes) == [];
    for i := 0 to |files|
      invariant WritesFor(rootAbsolute, files[..i], writes)
      invariant forall k :: 0 <= k < i ==> files[k].modeValid
      invariant KeptApart(Destinations(writes)) && Tracks(tracker.final, tracker.temp, Claimed(Destinations(writes)))
      invariant fresh(tracker)
    {
      var file := files[i];
      var path := SafeJoin(rootAbsolute, file.dest);
      if path.None? {
        return None;
      }
      ghost var dests := Destinations(writes);
      var ok := tracker.Add(file.dest, path.value, dests);
      ghost var longer := writes + [FileWrite(path.value, file.bytes)];
      assert Destinations(longer) == dests + [path.value];
      assert files[..i + 1] == files[..i] + [file];
      if !ok {
        RejectedPrefix(rootAbsolute, files, longer);
        return None;
      }
      if !file.modeValid {
        return None;
      }
      writes := writes + [FileWrite(path.value, file.bytes)];
    }
    assert files[..|files|] == files;
    AcceptedAll(rootAbsolute, files, writes);
    r := Some(writes);
  }

  lemma AcceptedAll(rootAbsolute: bool, files: seq<RenderedFile>, writes: seq<FileWrite>)
    requires WritesFor(rootAbsolute, files, writes) && KeptApart(Destinations(writes))
    requires forall k :: 0 <= k < |files| ==> files[k].modeValid
    ensures FilesAcceptable(rootAbsolute, files)
  {
    hide SafeJoin, KeptApart;
    assert Joined(rootAbsolute, files) == Destinations(writes);
  }

  lemma RejectedPrefix(rootAbsolute: bool, files: seq<RenderedFile>, writes: seq<FileWrite>)
    requires |writes| <= |files| && WritesFor(rootAbsolute, files[..|writes|], writes) && !KeptApart(Destinations(writes))
    ensures !FilesAcceptable(rootAbsolute, files)
  {
    hide SafeJoin, KeptApart;
    if AllJoin(rootAbsolute, files) {
      var joined := Joined(rootAbsolute, files);
      assert joined[..|writes|] == Destinations(writes);
      KeptApartPrefix(joined, |writes|);
    }
  }
}
