// The order of an install's atomic writes does not matter (install_phase_write.go:75-98,
// 197-358): the destinations the tracker accepts are apart, so any order gives one tree.
module WriteOrder {
  import opened Wrappers
  import opened Paths
  import opened FileTree
  import opened ArtifactLayout
  import opened Cleanup

  /** The writes completed one after the other. */
  ghost function WriteAll(t: Tree, writes: seq<FileWrite>): Tree {
    if writes == [] then t
    else Written(WriteAll(t, writes[..|writes| - 1]), writes[|writes| - 1].path, writes[|writes| - 1].data)
  }

  ghost predicate Writes(writes: seq<FileWrite>, x: Path) { exists w :: w in writes && w.path == x }

  ghost predicate MakesDir(writes: seq<FileWrite>, x: Path) { exists w :: w in writes && x in Ancestors(w.path) }

  /** An entry of the final tree, told from the set of writes alone. */
  ghost predicate FinalEntry(t: Tree, writes: seq<FileWrite>, x: Path, e: Option<Entry>) {
    if Writes(writes, x) then exists w :: w in writes && w.path == x && e == Some(File(Data(w.data)))
    else if x in t then e == Some(t[x])
    else e == if MakesDir(writes, x) then Some(Dir) else None
  }

  lemma OneMoreWrite(writes: seq<FileWrite>, w: FileWrite, x: Path)
    ensures Writes(writes + [w], x) <==> Writes(writes, x) || w.path == x
    ensures MakesDir(writes + [w], x) <==> MakesDir(writes, x) || x in Ancestors(w.path)
  {
    hide Ancestors;
    var all := writes + [w];
    assert w in all && forall v :: v in writes ==> v in all;
  }

  lemma {:induction false} WriteAllPointwise(t: Tree, writes: seq<FileWrite>, x: Path)
    ensures FinalEntry(t, writes, x, At(WriteAll(t, writes), x))
    decreases |writes|
  {
    hide Written, Ancestors, Writes, MakesDir;
    if writes == [] {
      assert !Writes([], x) && !MakesDir([], x) by { NoWrites(x); }
    } else {
      var n := |writes| - 1;
      var w := writes[n];
      assert writes == writes[..n] + [w];
      WriteAllPointwise(t, writes[..n], x);
      OneMoreWrite(writes[..n], w, x);
      WrittenPointwise(WriteAll(t, writes[..n]), w.path, w.data, x);
    }
  }

  lemma NoWrites(x: Path)
    ensures !Writes([], x) && !MakesDir([], x)
  {
  }

  /** One write per path. */
  ghost predicate OnePerPath(writes: seq<FileWrite>) {
    forall v, w :: v in writes && w in writes && v.path == w.path ==> v == w
  }

  /** The same writes in any order leave the same tree. */
  lemma AnyOrderSameTree(t: Tree, a: seq<FileWrite>, b: seq<FileWrite>)
    requires OnePerPath(a) && forall w :: w in a <==> w in b
    ensures WriteAll(t, a) == WriteAll(t, b)
  {
    hide WriteAll, Ancestors;
    forall x
      ensures At(WriteAll(t, a), x) == At(WriteAll(t, b), x)
    {
      WriteAllPointwise(t, a, x);
      WriteAllPointwise(t, b, x);
    }
    SameTree(WriteAll(t, a), WriteAll(t, b));
  }

  lemma PlannedPathsDiffer(writes: seq<FileWrite>, i: nat, j: nat)
    requires LaidOut(writes) && i < j < |writes|
    ensures writes[i].path != writes[j].path
  {
    hide TempOf, FreeStanding;
    assert PairApart(writes[i].path, writes[j].path);
  }

  /** An install's planned writes have one write per path. */
  lemma PlannedOnePerPath(writes: seq<FileWrite>)
    requires LaidOut(writes)
    ensures OnePerPath(writes)
  {
    hide LaidOut;
    forall v, w | v in writes && w in writes && v.path == w.path
      ensures v == w
    {
      var i :| 0 <= i < |writes| && writes[i] == v;
      var j :| 0 <= j < |writes| && writes[j] == w;
      if i < j {
        PlannedPathsDiffer(writes, i, j);
      } else if j < i {
        PlannedPathsDiffer(writes, j, i);
      }
    }
  }

  /** Any reordering of an install's planned writes leaves the same tree, each file with its own bytes. */
  lemma InstallOrderIsFree(t: Tree, planned: seq<FileWrite>, reordered: seq<FileWrite>)
    requires LaidOut(planned) && multiset(planned) == multiset(reordered)
    ensures WriteAll(t, planned) == WriteAll(t, reordered)
    ensures forall w :: w in planned ==> At(WriteAll(t, reordered), w.path) == Some(File(Data(w.data)))
  {
    hide WriteAll, LaidOut, Ancestors;
    PlannedOnePerPath(planned);
    assert forall w :: w in planned <==> w in multiset(planned);
    assert forall w :: w in reordered <==> w in multiset(reordered);
    AnyOrderSameTree(t, planned, reordered);
    forall w | w in planned
      ensures At(WriteAll(t, reordered), w.path) == Some(File(Data(w.data)))
    {
      WriteAllPointwise(t, planned, w.path);
    }
  }

  /** No planned write goes through another one's path or temporary file. */
  lemma TemporariesOverwriteNothing(planned: seq<FileWrite>, i: nat, j: nat)
    requires LaidOut(planned) && i < |planned| && j < |planned| && i != j
    ensures planned[i].path != [] && planned[j].path != []
    ensures TempOf(planned[i].path) != planned[j].path && TempOf(planned[i].path) != TempOf(planned[j].path)
    ensures TempOf(planned[i].path) !in Ancestors(planned[j].path)
  {
    assert if i < j then PairApart(planned[i].path, planned[j].path) else PairApart(planned[j].path, planned[i].path);
    AncestorIsPrefix(TempOf(planned[i].path), planned[j].path);
  }
}
