// The change summary between two catalogs (diffCatalogApps, internal/core/catalog_update.go:242-294).
module CatalogDiff {
  import opened Wrappers
  import opened Text
  import opened CatalogStorage

  // Updated and Added carry the template versions their summaries print.
  datatype Change =
    | Added(id: string, version: string)
    | Removed(id: string)
    | Updated(id: string, from: string, to: string)

  // ---- The order of ids ----

  predicate Ascending(ids: seq<string>) { forall i, j :: 0 <= i < j < |ids| ==> TextLess(ids[i], ids[j]) }

  // ---- The specification ----

  /** The id-to-version map of an app list; a later entry with the same id wins. */
  function ById(apps: seq<App>): map<string, string> {
    if apps == [] then map[] else ById(apps[..|apps| - 1])[apps[|apps| - 1].id := apps[|apps| - 1].templateVersion]
  }

  /** The map has the ids of the list, and of two entries with one id the later one counts. */
  lemma {:induction false} LaterAppCounts(before: seq<App>, app: App, later: seq<App>, id: string)
    ensures id in ById(before + [app] + later) <==> exists a :: a in before + [app] + later && a.id == id
    ensures (forall a :: a in later ==> a.id != app.id) ==>
              app.id in ById(before + [app] + later) && ById(before + [app] + later)[app.id] == app.templateVersion
    decreases |later|
  {
    var all := before + [app] + later;
    IdsOfMap(all, id);
    if later == [] {
      assert all[..|all| - 1] == before && all[|all| - 1] == app;
    } else {
      var earlier, last := later[..|later| - 1], later[|later| - 1];
      assert all[..|all| - 1] == before + [app] + earlier && all[|all| - 1] == last;
      assert forall a :: a in earlier ==> a in later;
      LaterAppCounts(before, app, earlier, id);
    }
  }

  lemma {:induction false} IdsOfMap(apps: seq<App>, id: string)
    ensures id in ById(apps) <==> exists a :: a in apps && a.id == id
  {
    if apps != [] {
      var front, last := apps[..|apps| - 1], apps[|apps| - 1];
      IdsOfMap(front, id);
      assert forall a :: a in apps <==> a in front || a == last;
    }
  }

  /** What the summary says about one id. */
  function ChangeFor(local: map<string, string>, candidate: map<string, string>, id: string): (r: Option<Change>)
    ensures r.Some? ==> r.value.id == id
  {
    if id !in local && id in candidate then Some(Added(id, candidate[id]))
    else if id in local && id !in candidate then Some(Removed(id))
    else if id in local && id in candidate && local[id] != candidate[id] then Some(Updated(id, local[id], candidate[id]))
    else None
  }

  function Ids(changes: seq<Change>): seq<string> { seq(|changes|, k requires 0 <= k < |changes| => changes[k].id) }

  /** Ascending ids, exactly one entry for each id whose presence or version differs. */
  ghost predicate IsDiff(changes: seq<Change>, local: map<string, string>, candidate: map<string, string>) {
    && Ascending(Ids(changes))
    && (forall k :: 0 <= k < |changes| ==> ChangeFor(local, candidate, changes[k].id) == Some(changes[k]))
    && (forall id :: ChangeFor(local, candidate, id).Some? ==> id in Ids(changes))
  }

  // ---- The implementation ----

  method CollectById(apps: seq<App>) returns (byId: map<string, string>)
    ensures byId == ById(apps)
  {
    byId := map[];
    for i := 0 to |apps|
      invariant byId == ById(apps[..i])
    {
      assert apps[..i + 1][..i] == apps[..i];
      byId := byId[apps[i].id := apps[i].templateVersion];
    }
    assert apps[..|apps|] == apps;
  }

  /** Where an id goes in an ascending list. */
  method InsertId(sorted: seq<string>, id: string) returns (r: seq<string>)
    requires Ascending(sorted) && id !in sorted
    ensures Ascending(r) && forall x :: x in r <==> x == id || x in sorted
  {
    var i := 0;
    while i < |sorted| && TextLess(sorted[i], id)
      invariant 0 <= i <= |sorted|
      invariant forall k :: 0 <= k < i ==> TextLess(sorted[k], id)
    {
      i := i + 1;
    }
    if i < |sorted| {
      TextLessIsTotal(sorted[i], id);
      forall k | i < k < |sorted|
        ensures TextLess(id, sorted[k])
      {
        TextLessIsTransitive(id, sorted[i], sorted[k]);
      }
    }
    r := sorted[..i] + [id] + sorted[i..];
    assert forall x :: x in sorted <==> x in sorted[..i] || x in sorted[i..] by {
      assert sorted == sorted[..i] + sorted[i..];
    }
  }

  /** The union of the ids in ascending order; the maps are walked in any order. */
  method SortedIds(local: map<string, string>, candidate: map<string, string>) returns (ids: seq<string>)
    ensures Ascending(ids) && forall x :: x in ids <==> x in local || x in candidate
  {
    ids := [];
    var rest := (local + candidate).Items;
    while rest != {}
      invariant Ascending(ids)
      invariant rest <= (local + candidate).Items
      invariant forall x :: x in ids <==> (x in local + candidate && (x, (local + candidate)[x]) !in rest)
      decreases |rest|
    {
      hide Ascending;
      var item :| item in rest;
      ids := InsertId(ids, item.0);
      rest := rest - {item};
    }
  }

  /** The entries for a list of ids, in its order. */
  function Summary(local: map<string, string>, candidate: map<string, string>, ids: seq<string>): seq<Change> {
    if ids == [] then []
    else
      var change := ChangeFor(local, candidate, ids[|ids| - 1]);
      Summary(local, candidate, ids[..|ids| - 1]) + if change.Some? then [change.value] else []
  }

  lemma {:induction false} SummaryShape(local: map<string, string>, candidate: map<string, string>, ids: seq<string>)
    requires Ascending(ids)
    ensures var changes := Summary(local, candidate, ids);
            && Ascending(Ids(changes))
            && (forall k :: 0 <= k < |changes| ==> ChangeFor(local, candidate, changes[k].id) == Some(changes[k]))
            && (forall x :: x in Ids(changes) <==> x in ids && ChangeFor(local, candidate, x).Some?)
    decreases |ids|
  {
    hide ChangeFor, TextLess;
    if ids != [] {
      var n := |ids| - 1;
      var before := Summary(local, candidate, ids[..n]);
      SummaryShape(local, candidate, ids[..n]);
      assert ids == ids[..n] + [ids[n]];
      var change := ChangeFor(local, candidate, ids[n]);
      if change.Some? {
        assert Ids(before + [change.value]) == Ids(before) + [ids[n]];
        assert forall k :: 0 <= k < |before| ==> Ids(before)[k] in Ids(before);
      } else {
        assert before + [] == before;
      }
    }
  }

  /** diffCatalogApps; None is the catalog that is not installed yet. */
  method DiffCatalogApps(local: Option<Catalog>, candidate: Catalog) returns (changes: seq<Change>)
    ensures IsDiff(changes, if local.Some? then ById(local.value.apps) else map[], ById(candidate.apps))
  {
    hide Ascending, ById, Ids;
    var localById := map[];
    if local.Some? {
      localById := CollectById(local.value.apps);
    }
    var candidateById := CollectById(candidate.apps);
    var ids := SortedIds(localById, candidateById);
    changes := [];
    for i := 0 to |ids|
      invariant changes == Summary(localById, candidateById, ids[..i])
    {
      assert ids[..i + 1][..i] == ids[..i];
      var id := ids[i];
      if id !in localById && id in candidateById {
        changes := changes + [Added(id, candidateById[id])];
      } else if id in localById && id !in candidateById {
        changes := changes + [Removed(id)];
      } else if id in localById && id in candidateById && localById[id] != candidateById[id] {
        changes := changes + [Updated(id, localById[id], candidateById[id])];
      }
    }
    assert ids[..|ids|] == ids;
    SummaryShape(localById, candidateById, ids);
  }

  // ---- What the summary is good for ----

  function Replay(m: map<string, string>, changes: seq<Change>): map<string, string> {
    if changes == [] then m
    else
      var before := Replay(m, changes[..|changes| - 1]);
      match changes[|changes| - 1]
      case Added(id, version) => before[id := version]
      case Removed(id) => before - {id}
      case Updated(id, _, to) => before[id := to]
  }

  function Lookup(m: map<string, string>, id: string): Option<string> { if id in m then Some(m[id]) else None }

  /** Replaying touches exactly the ids in the list. */
  lemma {:induction false} ReplayAt(local: map<string, string>, candidate: map<string, string>, changes: seq<Change>, id: string)
    requires forall k :: 0 <= k < |changes| ==> ChangeFor(local, candidate, changes[k].id) == Some(changes[k])
    ensures Lookup(Replay(local, changes), id) == Lookup(if id in Ids(changes) then candidate else local, id)
    decreases |changes|
  {
    if changes != [] {
      var n := |changes| - 1;
      ReplayAt(local, candidate, changes[..n], id);
      assert Ids(changes) == Ids(changes[..n]) + [changes[n].id];
    }
  }

  /** Replaying the summary on the local catalog's map gives the candidate's. */
  lemma ReplayDiff(changes: seq<Change>, local: map<string, string>, candidate: map<string, string>)
    requires IsDiff(changes, local, candidate)
    ensures Replay(local, changes) == candidate
  {
    var result := Replay(local, changes);
    forall id
      ensures Lookup(result, id) == Lookup(candidate, id)
    {
      ReplayAt(local, candidate, changes, id);
    }
    assert forall id :: id in result <==> Lookup(result, id).Some?;
    assert forall id :: id in candidate <==> Lookup(candidate, id).Some?;
    assert forall id :: id in result ==> result[id] == Lookup(result, id).value;
  }

  /** Each entry tells what is in either catalog. */
  lemma EntriesTellBoth(changes: seq<Change>, local: map<string, string>, candidate: map<string, string>, k: nat)
    requires IsDiff(changes, local, candidate) && k < |changes|
    ensures match changes[k]
            case Added(id, version) => id !in local && id in candidate && candidate[id] == version
            case Removed(id) => id in local && id !in candidate
            case Updated(id, from, to) => id in local && id in candidate && local[id] == from && candidate[id] == to && from != to
  {
    assert ChangeFor(local, candidate, changes[k].id) == Some(changes[k]);
  }

  /** Two ascending lists with the same members are the same list. */
  lemma {:induction false} AscendingUnique(a: seq<string>, b: seq<string>)
    requires Ascending(a) && Ascending(b) && forall x :: x in a <==> x in b
    ensures a == b
    decreases |a|
  {
    if a == [] {
      HasMember(b);
    } else {
      assert a[0] in b;
      FirstIsLeast(a, b[0]);
      FirstIsLeast(b, a[0]);
      if a[0] != b[0] {
        TextLessIsTransitive(a[0], b[0], a[0]);
        TextLessIsStrict(a[0]);
      }
      TailMembers(a);
      TailMembers(b);
      AscendingUnique(a[1..], b[1..]);
    }
  }

  lemma HasMember(a: seq<string>)
    ensures a == [] || exists x :: x in a
  {
    if a != [] {
      assert a[0] in a;
    }
  }

  lemma FirstIsLeast(a: seq<string>, x: string)
    requires Ascending(a) && a != [] && x in a
    ensures a[0] == x || TextLess(a[0], x)
  {
  }

  lemma TailMembers(a: seq<string>)
    requires a != [] && Ascending(a)
    ensures Ascending(a[1..]) && forall x :: x in a[1..] <==> x in a && x != a[0]
  {
    TextLessIsStrict(a[0]);
    assert a == [a[0]] + a[1..];
    forall k | 1 <= k < |a|
      ensures a[k] != a[0]
    {
      assert TextLess(a[0], a[k]);
    }
  }

  /** The summary does not depend on the order the maps were walked in. */
  lemma DiffUnique(a: seq<Change>, b: seq<Change>, local: map<string, string>, candidate: map<string, string>)
    requires IsDiff(a, local, candidate) && IsDiff(b, local, candidate)
    ensures a == b
  {
    forall x
      ensures x in Ids(a) <==> x in Ids(b)
    {
      if x in Ids(a) {
        var k :| 0 <= k < |a| && Ids(a)[k] == x;
        assert ChangeFor(local, candidate, x).Some?;
      }
      if x in Ids(b) {
        var k :| 0 <= k < |b| && Ids(b)[k] == x;
        assert ChangeFor(local, candidate, x).Some?;
      }
    }
    AscendingUnique(Ids(a), Ids(b));
    assert |a| == |Ids(a)| && |b| == |Ids(b)|;
    forall k | 0 <= k < |a|
      ensures a[k] == b[k]
    {
      assert Ids(a)[k] == Ids(b)[k];
    }
  }

  /** The summary is empty exactly when the catalogs offer the same versions. */
  lemma EmptyDiff(changes: seq<Change>, local: map<string, string>, candidate: map<string, string>)
    requires IsDiff(changes, local, candidate)
    ensures changes == [] <==> local == candidate
  {
    ReplayDiff(changes, local, candidate);
    if changes != [] {
      assert ChangeFor(local, candidate, changes[0].id) == Some(changes[0]);
    }
  }
}
