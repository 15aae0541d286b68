// Which catalog bundles extract (internal/state/catalog_bundle.go:120-256), told from the
// members alone: their names, kinds, sizes and order.
module BundleAcceptance {
  import opened Wrappers
  import opened Paths
  import opened FileTree
  import opened CatalogBundle

  /** The name stays below the destination, and what has a place of its own is a file or a directory. */
  predicate WellNamed(m: Member) { MemberPath(m.name).Some? && (Dest(m) != [] ==> m.kind != Irregular) }

  /** The file x leaves y alone: y does not go at or below it nor, coming earlier, at or below its temporary. */
  predicate LeavesRoom(x: Member, y: Member, earlier: bool) {
    Lands(x, Regular) && Dest(y) != [] ==> !(Dest(x) <= Dest(y)) && (earlier ==> !(TempOf(Dest(x)) <= Dest(y)))
  }

  predicate RoomForEach(members: seq<Member>) {
    forall i, j :: 0 <= i < |members| && 0 <= j < |members| && i != j ==> LeavesRoom(members[i], members[j], j < i)
  }

  ghost predicate Fits(members: seq<Member>) {
    (forall m :: m in members ==> WellNamed(m)) && RoomForEach(members) && WithinCaps(members)
  }

  // ---- One member ----

  /** The tree's entries are the destinations and what lies on the way to them. */
  ghost predicate EntriesAre(t: Tree, members: seq<Member>) {
    forall x :: x in t <==> x == [] || exists m :: m in members && Dest(m) != [] && x <= Dest(m)
  }

  ghost predicate SeenAre(seen: set<Path>, members: seq<Member>) {
    forall x :: x in seen <==> exists m :: m in members && Lands(m, Regular) && Dest(m) == x
  }

  ghost predicate Tracked(p: Progress, members: seq<Member>) {
    WellPlaced(p, members) && EntriesAre(p.tree, members) && SeenAre(p.seen, members)
  }

  predicate RoomFor(members: seq<Member>, m: Member) {
    forall y :: y in members ==> LeavesRoom(y, m, false) && LeavesRoom(m, y, true)
  }

  /** An entry is a file exactly where a regular member went. */
  lemma FilesAre(p: Progress, members: seq<Member>, x: Path)
    requires Tracked(p, members)
    ensures x in p.tree && p.tree[x] != Dir <==> exists y :: y in members && Lands(y, Regular) && Dest(y) == x
  {
    hide MemberPath, TotalBytes, WithinCaps, SeenFiles, EntriesAre, SeenAre;
    if x in p.tree && p.tree[x] != Dir {
      assert FileAt(p.tree, x).Some?;
    }
  }

  lemma PrefixIsTake(x: Path, d: Path)
    ensures x <= d ==> |x| <= |d| && d[..|x|] == x
  {
  }

  lemma PassableExactly(p: Progress, members: seq<Member>, d: Path)
    requires Tracked(p, members)
    ensures Passable(p.tree, d) <==> forall y :: y in members && Lands(y, Regular) ==> !(Dest(y) <= d)
  {
    hide Tracked, Lands, MemberPath;
    forall x
      ensures x in p.tree && p.tree[x] != Dir <==> exists y :: y in members && Lands(y, Regular) && Dest(y) == x
    {
      FilesAre(p, members, x);
    }
    if Passable(p.tree, d) {
      forall y | y in members && Lands(y, Regular)
        ensures !(Dest(y) <= d)
      {
        PrefixIsTake(Dest(y), d);
      }
    }
  }

  lemma ClearExactly(p: Progress, members: seq<Member>, d: Path)
    requires Tracked(p, members) && d != []
    ensures d !in p.seen && ClearFor(p.tree, d) <==>
              && (forall y :: y in members && Lands(y, Regular) ==> !(Dest(y) <= d))
              && (forall y :: y in members && Dest(y) != [] ==> !(d <= Dest(y)) && !(TempOf(d) <= Dest(y)))
  {
    hide Lands, MemberPath, WellPlaced, TempOf;
    FilesAre(p, members, d);
    PassableExactly(p, members, d);
    ClearIsPassable(p, members, d);
    assert TempOf(d) != [];
  }

  lemma ClearIsPassable(p: Progress, members: seq<Member>, d: Path)
    requires Tracked(p, members) && d != []
    ensures ClearFor(p.tree, d) && d !in p.tree <==> Passable(p.tree, d) && d !in p.tree && TempOf(d) !in p.tree
  {
    hide MemberPath, HoldsMembers, WithinCaps, EntriesAre, SeenAre, TempOf;
    assert d[..0] == [] && d[..|d|] == d;
    assert p.tree[[]] == Dir;
  }

  lemma RoomExactly(members: seq<Member>, m: Member)
    ensures Lands(m, Regular) ==>
              (RoomFor(members, m) <==>
               && (forall y :: y in members && Lands(y, Regular) ==> !(Dest(y) <= Dest(m)))
               && (forall y :: y in members && Dest(y) != [] ==> !(Dest(m) <= Dest(y)) && !(TempOf(Dest(m)) <= Dest(y))))
    ensures Dest(m) == [] ==> RoomFor(members, m)
    ensures Lands(m, Directory) ==>
              (RoomFor(members, m) <==> forall y :: y in members && Lands(y, Regular) ==> !(Dest(y) <= Dest(m)))
  {
    hide MemberPath, TempOf, Dest;
  }

  /** The next member is taken exactly when it is well named, small enough and there is room for it. */
  lemma PlacesExactly(p: Progress, members: seq<Member>, m: Member)
    requires Tracked(p, members)
    ensures Place(p, m).Some? <==>
              WellNamed(m) && RoomFor(members, m) && (Lands(m, Regular) ==> |m.data| <= SizeLimit(TotalBytes(members)))
  {
    hide Passable, ClearFor, TempOf, EntriesAre, SeenAre, TotalBytes, CleanTree, HoldsMembers, WithinCaps, SizeLimit, RoomFor;
    RoomExactly(members, m);
    if MemberPath(m.name).Some? && Dest(m) != [] {
      PassableExactly(p, members, Dest(m));
      ClearExactly(p, members, Dest(m));
    }
  }

  lemma EntriesOneMore(t: Tree, w: Tree, members: seq<Member>, m: Member)
    requires EntriesAre(t, members) && Dest(m) != []
    requires forall x :: x in w <==> x == Dest(m) || x in t || x in Ancestors(Dest(m))
    ensures EntriesAre(w, members + [m])
  {
    hide MemberPath, Ancestors, Dest;
    forall x
      ensures x in w <==> x == [] || exists y :: y in members + [m] && Dest(y) != [] && x <= Dest(y)
    {
      AncestorIsPrefix(x, Dest(m));
      if x != [] && x <= Dest(m) {
        assert m in members + [m];
        assert x == Dest(m) || x < Dest(m);
      }
      if x in t && x != [] {
        var y :| y in members && Dest(y) != [] && x <= Dest(y);
        assert y in members + [m];
      }
    }
  }

  lemma StaysTracked(p: Progress, members: seq<Member>, m: Member)
    requires Tracked(p, members) && Place(p, m).Some?
    ensures Tracked(Place(p, m).value, members + [m])
  {
    hide MemberPath, WellPlaced, Written, MadeAll, Passable, ClearFor, SizeLimit, EntriesAre, TempOf;
    StaysWellPlaced(p, members, m);
    var d := Dest(m);
    SeenOneMore(p, members, m);
    if d == [] {
      EntriesSame(p.tree, members, m);
    } else {
      forall x
        ensures x in Written(p.tree, d, m.data) <==> x == d || x in p.tree || x in Ancestors(d)
        ensures x in MadeAll(p.tree, d) <==> x == d || x in p.tree || x in Ancestors(d)
      {
        WrittenEntry(p.tree, d, m.data, x);
        MadeEntry(p.tree, d, x);
      }
      EntriesOneMore(p.tree, Place(p, m).value.tree, members, m);
    }
  }

  lemma EntriesSame(t: Tree, members: seq<Member>, m: Member)
    requires EntriesAre(t, members) && Dest(m) == []
    ensures EntriesAre(t, members + [m])
  {
    hide Dest;
    assert forall y :: y in members ==> y in members + [m];
  }

  lemma SeenOneMore(p: Progress, members: seq<Member>, m: Member)
    requires SeenAre(p.seen, members) && Place(p, m).Some?
    ensures SeenAre(Place(p, m).value.seen, members + [m])
  {
    hide MemberPath, Written, MadeAll, Passable, ClearFor, SizeLimit, TempOf;
    var after := Place(p, m).value.seen;
    assert after == if Lands(m, Regular) then p.seen + {Dest(m)} else p.seen;
    forall x
      ensures x in after <==> exists y :: y in members + [m] && Lands(y, Regular) && Dest(y) == x
    {
      if x in p.seen {
        var y :| y in members && Lands(y, Regular) && Dest(y) == x;
        assert y in members + [m];
      }
      assert m in members + [m];
    }
  }

  // ---- All members ----

  lemma RoomStep(members: seq<Member>, m: Member)
    ensures RoomForEach(members + [m]) <==> RoomForEach(members) && RoomFor(members, m)
  {
    hide LeavesRoom;
    var all := members + [m];
    assert all[|members|] == m && forall i :: 0 <= i < |members| ==> all[i] == members[i];
    if RoomForEach(all) {
      forall i, j | 0 <= i < |members| && 0 <= j < |members| && i != j
        ensures LeavesRoom(members[i], members[j], j < i)
      {
        assert LeavesRoom(all[i], all[j], j < i);
      }
      forall y | y in members
        ensures LeavesRoom(y, m, false) && LeavesRoom(m, y, true)
      {
        var i :| 0 <= i < |members| && members[i] == y;
        assert LeavesRoom(all[i], all[|members|], false) && LeavesRoom(all[|members|], all[i], true);
      }
    }
  }

  lemma CapsStep(members: seq<Member>, m: Member)
    ensures WithinCaps(members + [m]) <==>
              WithinCaps(members) && (Lands(m, Regular) ==> |m.data| <= SizeLimit(TotalBytes(members)))
  {
    hide MemberPath;
    MemberOfLonger(members, m);
    if WithinCaps(members + [m]) {
      assert m in members + [m];
      assert forall x :: x in members ==> x in members + [m];
    }
  }

  lemma FitsStep(members: seq<Member>, m: Member)
    ensures Fits(members + [m]) <==>
              && Fits(members) && WellNamed(m) && RoomFor(members, m)
              && (Lands(m, Regular) ==> |m.data| <= SizeLimit(TotalBytes(members)))
  {
    hide WellNamed, RoomForEach, RoomFor, WithinCaps, SizeLimit, TotalBytes, Lands;
    RoomStep(members, m);
    CapsStep(members, m);
    assert m in members + [m] && forall x :: x in members ==> x in members + [m];
  }

  lemma NothingTracked()
    ensures Tracked(EMPTY, []) && Fits([])
  {
    NothingPlaced();
  }

  lemma {:induction false} PlacesAllExactly(members: seq<Member>)
    ensures PlaceAll(EMPTY, members).Some? <==> Fits(members)
    ensures PlaceAll(EMPTY, members).Some? ==> Tracked(PlaceAll(EMPTY, members).value, members)
    decreases |members|
  {
    hide Place, PlaceAll, Tracked, Fits, WellNamed, RoomFor, SizeLimit, TotalBytes, Lands;
    if members == [] {
      NothingTracked();
      assert PlaceAll(EMPTY, []) == Some(EMPTY) by { NoMembers(); }
    } else {
      var n := |members| - 1;
      var before, m := members[..n], members[n];
      assert members == before + [m] && members[..n + 1] == members;
      PlacesAllExactly(before);
      FitsStep(before, m);
      if PlaceAll(EMPTY, before).Some? {
        PlaceAllStep(EMPTY, members, n);
        PlacesExactly(PlaceAll(EMPTY, before).value, before, m);
        if Place(PlaceAll(EMPTY, before).value, m).Some? {
          StaysTracked(PlaceAll(EMPTY, before).value, before, m);
        }
      } else {
        PlaceAllFails(EMPTY, members, n);
      }
    }
  }

  lemma NoMembers()
    ensures PlaceAll(EMPTY, []) == Some(EMPTY)
  {
  }

  /** A bundle extracts exactly when its stream is complete, it has at most 4096 members, every name stays below the
      destination, only files and directories have a place of their own, nothing stands at or below a file nor before it at
      its temporary, no file exceeds 16 MiB and all files together do not exceed 64 MiB. */
  lemma ExtractsExactly(a: Archive)
    ensures Extracted(a).Some? <==>
              && a.complete && |a.members| <= 4096
              && (forall m :: m in a.members ==> WellNamed(m)) && RoomForEach(a.members)
              && (forall m :: m in a.members && Lands(m, Regular) ==> |m.data| <= 16777216) && TotalBytes(a.members) <= 67108864
  {
    hide PlaceAll, WellNamed, RoomForEach, TotalBytes, Lands;
    PlacesAllExactly(a.members);
  }

  /** The order of the members counts in one way: a file named like another file's temporary must come after it. */
  lemma OrderCounts(p: Path, data: string, other: string)
    requires ValidPath(p) && p != [] && |data| + |other| <= 16777216
    ensures var file, temporary := Member(PathText(p), Regular, data), Member(PathText(p) + ".tmp", Regular, other);
            Extracted(Archive([temporary, file], true)).None? && Extracted(Archive([file, temporary], true)).Some?
  {
    hide Extracted, PathText, TempOf, ValidPath;
    var file, temporary := Member(PathText(p), Regular, data), Member(PathText(p) + ".tmp", Regular, other);
    TempText(p);
    MemberPathOfText(p);
    MemberPathOfText(TempOf(p));
    var one, two := [temporary, file], [file, temporary];
    ExtractsExactly(Archive(one, true));
    ExtractsExactly(Archive(two, true));
    assert Dest(one[1]) == p && Dest(one[0]) == TempOf(p) && Lands(one[1], Regular);
    assert !LeavesRoom(one[1], one[0], true);
    BytesOfTwo(file, temporary);
    SiblingsApart(p, TempOf(p));
    assert TempOf(TempOf(p)) != p by { TempIsLonger(p); }
    SiblingsApart(p, TempOf(TempOf(p)));
  }

  lemma TempIsLonger(p: Path)
    requires p != []
    ensures TempOf(TempOf(p)) != p && |TempOf(TempOf(p))| == |p|
  {
    assert |TempOf(TempOf(p))[|p| - 1]| == |p[|p| - 1]| + 8;
  }

  lemma SiblingsApart(p: Path, q: Path)
    requires |p| == |q| && p != q
    ensures !(p <= q) && !(q <= p)
  {
  }

  lemma BytesOfTwo(x: Member, y: Member)
    ensures TotalBytes([x, y]) <= |x.data| + |y.data|
  {
    hide Lands;
    MemberOfLonger([x], y);
    MemberOfLonger([], x);
    assert [x] + [y] == [x, y] && [] + [x] == [x];
  }
}
