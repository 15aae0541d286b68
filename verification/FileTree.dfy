// The stack directory as a map from component paths to entries, and the pure
// effects of the filesystem primitives on it.
module FileTree {
  import opened Wrappers
  import opened Paths

  // Empty and Partial are what an interrupted write leaves; Manifest is a .wdm.lock that decodes.
  datatype Content = Empty | Partial | Data(bytes: string) | Manifest

  datatype Entry = Dir | File(content: Content)

  // [] is the stack directory itself; the empty map means it does not exist.
  type Tree = map<Path, Entry>

  /** Everything but the root has a directory as its parent. */
  predicate IsTree(t: Tree) {
    forall p :: p in t && p != [] ==> Parent(p) in t && t[Parent(p)] == Dir
  }

  predicate IsChild(p: Path, q: Path) { |q| == |p| + 1 && q[..|p|] == p }

  predicate HasChild(t: Tree, p: Path) { exists q :: q in t && IsChild(p, q) }

  lemma {:induction false} AncestorPresent(t: Tree, p: Path, k: nat)
    requires IsTree(t) && p in t && k <= |p|
    ensures p[..k] in t && (k < |p| ==> t[p[..k]] == Dir)
    decreases |p|
  {
    if k == |p| {
      assert p[..k] == p;
    } else {
      AncestorPresent(t, Parent(p), k);
      assert Parent(p)[..k] == p[..k];
      if k == |p| - 1 {
        assert p[..k] == Parent(p);
      }
    }
  }

  /** A tree that is not empty has its root. */
  lemma RootOrNothing(t: Tree)
    requires IsTree(t)
    ensures t == map[] || [] in t
  {
    if t != map[] {
      var p :| p in t;
      AncestorPresent(t, p, 0);
      assert p[..0] == [];
    }
  }

  /** Whatever lies below the root, the root has a child. */
  lemma RootHasChild(t: Tree, p: Path)
    requires IsTree(t) && p in t && p != []
    ensures HasChild(t, [])
  {
    AncestorPresent(t, p, 1);
    assert IsChild([], p[..1]);
  }

  // ---- Atomic writes ----

  /** The nonempty proper prefixes of a path. */
  function Ancestors(p: Path): set<Path> { set k | 0 < k < |p| :: p[..k] }

  /** A completed atomic write: missing ancestors become directories, the path holds the data. */
  function Written(t: Tree, p: Path, data: string): Tree {
    t + (map q | q in Ancestors(p) && q !in t :: Dir) + map[p := File(Data(data))]
  }

  lemma AncestorIsPrefix(q: Path, p: Path)
    ensures q in Ancestors(p) <==> q != [] && q < p
  {
    if q != [] && q < p {
      assert q == p[..|q|];
    }
  }

  /** One entry of the tree after a completed write. */
  ghost function EntryAfter(t: Tree, p: Path, data: string, x: Path): Option<Entry> {
    if x == p then Some(File(Data(data)))
    else if x in t then Some(t[x])
    else if x in Ancestors(p) then Some(Dir)
    else None
  }

  ghost function At(t: Tree, x: Path): Option<Entry> { if x in t then Some(t[x]) else None }

  lemma WrittenPointwise(t: Tree, p: Path, data: string, x: Path)
    ensures At(Written(t, p, data), x) == EntryAfter(t, p, data, x)
  {
    assert p !in Ancestors(p);
  }

  lemma SameTree(a: Tree, b: Tree)
    requires forall x :: At(a, x) == At(b, x)
    ensures a == b
  {
    forall x
      ensures x in a <==> x in b
      ensures x in a ==> a[x] == b[x]
    {
      assert At(a, x) == At(b, x);
    }
  }

  /** Writes to paths that are apart commute. */
  lemma WritesCommute(t: Tree, p: Path, q: Path, a: string, b: string)
    requires Apart(p, q)
    ensures Written(Written(t, p, a), q, b) == Written(Written(t, q, b), p, a)
  {
    hide Written;
    AncestorIsPrefix(p, q);
    AncestorIsPrefix(q, p);
    var ta, tb := Written(t, p, a), Written(t, q, b);
    forall x
      ensures At(Written(ta, q, b), x) == At(Written(tb, p, a), x)
    {
      WrittenPointwise(t, p, a, x);
      WrittenPointwise(t, q, b, x);
      WrittenPointwise(ta, q, b, x);
      WrittenPointwise(tb, p, a, x);
    }
    SameTree(Written(ta, q, b), Written(tb, p, a));
  }

  /** Everything an atomic write of p may touch: p, its temporary, and the directories above it. */
  function Touched(p: Path): set<Path>
    requires p != []
  {
    Ancestors(p) + {p, TempOf(p)}
  }

  ghost predicate AgreeOutside(a: Tree, b: Tree, touched: set<Path>) {
    forall q :: q !in touched ==> (q in a <==> q in b) && (q in a ==> a[q] == b[q])
  }

  /** Where an atomic write of p can have got to: only its own paths differ, and each is old or as written. */
  ghost predicate MidWrite(before: Tree, t: Tree, p: Path, data: string)
    requires p != []
  {
    && IsTree(t) && AgreeOutside(before, t, Touched(p))
    && (forall q :: q in Ancestors(p) && q in before ==> q in t && t[q] == before[q])
    && (forall q :: q in Ancestors(p) && q in t && q !in before ==> t[q] == Dir)
    && (p in t ==> t[p] == File(Data(data)) || (p in before && t[p] == before[p]))
    && (p in before ==> p in t)
  }

  lemma RemoveLeaf(t: Tree, p: Path)
    requires IsTree(t) && !HasChild(t, p)
    ensures IsTree(t - {p})
  {
    forall q | q in t && q != [] && q != p
      ensures Parent(q) in t - {p} && t[Parent(q)] == Dir
    {
      assert Parent(q) == p ==> IsChild(p, q);
    }
  }

  lemma PutLeaf(t: Tree, p: Path, e: Entry)
    requires IsTree(t) && p != [] && Parent(p) in t && t[Parent(p)] == Dir && (p in t ==> t[p] != Dir)
    ensures IsTree(t[p := e])
  {
    assert Parent(p) != p;
  }

  /** The parents exist; from there only p and its temporary have changed. */
  ghost predicate AfterParents(before: Tree, mid: Tree, p: Path) {
    && AgreeOutside(before, mid, Ancestors(p))
    && (forall q :: q in before ==> q in mid && mid[q] == before[q])
    && (forall q :: q in mid && q !in before ==> mid[q] == Dir)
  }

  lemma AfterParentsStart(t: Tree, p: Path)
    ensures AfterParents(t, t, p)
  {
  }

  lemma AfterParentsMkdir(before: Tree, t: Tree, p: Path, k: nat)
    requires AfterParents(before, t, p) && 0 < k < |p| && p[..k] !in t
    ensures AfterParents(before, t[p[..k] := Dir], p)
  {
    assert p[..k] in Ancestors(p);
  }

  /** Where writing and renaming the temporary can have got to. */
  ghost predicate MidRename(mid: Tree, t: Tree, p: Path, data: string)
    requires p != []
  {
    && IsTree(t) && AgreeOutside(mid, t, {p, TempOf(p)})
    && (p in t ==> t[p] == File(Data(data)) || (p in mid && t[p] == mid[p]))
    && (p in mid ==> p in t)
  }

  lemma MidWriteAfterParents(before: Tree, mid: Tree, t: Tree, p: Path, data: string)
    requires p != [] && AfterParents(before, mid, p) && MidRename(mid, t, p, data)
    ensures MidWrite(before, t, p, data)
  {
    assert p !in Ancestors(p) && TempOf(p) !in Ancestors(p);
  }

  lemma AgreeAfterParents(before: Tree, mid: Tree, t: Tree, p: Path)
    requires p != [] && AfterParents(before, mid, p) && AgreeOutside(mid, t, {p, TempOf(p)})
    ensures AgreeOutside(before, t, Touched(p))
  {
  }

  lemma ParentsWithinTouched(before: Tree, t: Tree, p: Path)
    requires p != [] && AfterParents(before, t, p)
    ensures AgreeOutside(before, t, Touched(p))
    ensures p in t ==> p in before && t[p] == before[p]
    ensures TempOf(p) in t ==> TempOf(p) in before
  {
    assert p !in Ancestors(p) && TempOf(p) !in Ancestors(p);
  }

  /** Nothing stands in the way of an atomic write of p. */
  predicate ClearFor(t: Tree, p: Path)
    requires p != []
  {
    (p in t ==> t[p] != Dir) && TempOf(p) !in t && forall k :: 0 < k < |p| && p[..k] in t ==> t[p[..k]] == Dir
  }

  lemma NothingRenamed(t: Tree, p: Path, data: string)
    requires p != [] && IsTree(t)
    ensures MidRename(t, t, p, data)
  {
  }

  lemma RenameNotReached(mid: Tree, t: Tree, p: Path, data: string)
    requires p != [] && IsTree(t) && t - {TempOf(p)} == mid - {TempOf(p)}
    ensures MidRename(mid, t, p, data)
  {
    var temp := TempOf(p);
    forall q | q !in {p, temp}
      ensures At(t, q) == At(mid, q)
    {
      assert At(t - {temp}, q) == At(mid - {temp}, q);
    }
    assert At(t - {temp}, p) == At(mid - {temp}, p);
    forall q | q !in {p, temp}
      ensures (q in mid <==> q in t) && (q in mid ==> mid[q] == t[q])
    {
      assert At(t, q) == At(mid, q);
    }
  }

  /** The temporary is a fresh leaf beside p. */
  lemma TempStaged(mid: Tree, p: Path, e: Entry)
    requires p != [] && IsTree(mid) && Parent(p) in mid && mid[Parent(p)] == Dir && TempOf(p) !in mid && e != Dir
    ensures var t := mid[TempOf(p) := e];
            IsTree(t) && !HasChild(t, TempOf(p)) && AgreeOutside(mid, t, {p, TempOf(p)}) && t - {TempOf(p)} == mid - {TempOf(p)}
  {
    PutLeaf(mid, TempOf(p), e);
    NoFileChild(mid[TempOf(p) := e], TempOf(p));
  }

  lemma TempRenamed(mid: Tree, p: Path, data: string)
    requires p != [] && IsTree(mid) && Parent(p) in mid && mid[Parent(p)] == Dir && TempOf(p) !in mid
    requires p in mid ==> mid[p] != Dir
    ensures var t := (mid - {TempOf(p)})[p := File(Data(data))];
            IsTree(t) && AgreeOutside(mid, t, {p, TempOf(p)}) && MidRename(mid, t, p, data)
  {
    PutLeaf(mid, p, File(Data(data)));
    assert mid - {TempOf(p)} == mid;
  }

  lemma NoFileChild(t: Tree, p: Path)
    requires IsTree(t) && p in t && t[p] != Dir
    ensures !HasChild(t, p)
  {
  }

  lemma WrittenAfterParents(before: Tree, mid: Tree, t: Tree, p: Path, data: string)
    requires p != [] && AfterParents(before, mid, p) && IsTree(mid) && Parent(p) in mid
    requires t == (mid - {TempOf(p)})[p := File(Data(data))]
    ensures t == Written(before, p, data) - {TempOf(p)}
  {
    hide Written, IsTree, AfterParents;
    var temp := TempOf(p);
    forall x
      ensures At(t, x) == At(Written(before, p, data) - {temp}, x)
    {
      WrittenPointwise(before, p, data, x);
      if x != p && x != temp {
        ParentsPointwise(before, mid, p, x);
      }
    }
    SameTree(t, Written(before, p, data) - {temp});
  }

  lemma ParentsPointwise(before: Tree, mid: Tree, p: Path, x: Path)
    requires p != [] && AfterParents(before, mid, p) && IsTree(mid) && Parent(p) in mid
    ensures At(mid, x) == (if x in before then Some(before[x]) else if x in Ancestors(p) then Some(Dir) else None)
  {
    if x in Ancestors(p) {
      AncestorPresent(mid, Parent(p), |x|);
      assert x == Parent(p)[..|x|];
    }
  }
}
