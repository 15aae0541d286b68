// Stack-relative paths: lexical cleaning and containment (internal/security/paths.go),
// and the string prefix test on cleaned paths as a prefix test on components.
module Paths {
  import opened Wrappers
  import opened Text

  type Name = string

  // Components below the stack root; [] is the root itself.
  type Path = seq<Name>

  predicate ValidName(n: Name) { n != "" && n != "." && n != ".." && '/' !in n }

  predicate ValidPath(p: Path) { forall k :: 0 <= k < |p| ==> ValidName(p[k]) }

  /** Lexical cleaning of split components; None when ".." climbs above the start. */
  function Clean(parts: seq<string>, done: Path): (r: Option<Path>)
    requires ValidPath(done) && forall k :: 0 <= k < |parts| ==> '/' !in parts[k]
    ensures r.Some? ==> ValidPath(r.value)
    decreases |parts|
  {
    if parts == [] then Some(done)
    else if parts[0] == "" || parts[0] == "." then Clean(parts[1..], done)
    else if parts[0] == ".." then
      if done == [] then None else Clean(parts[1..], done[..|done| - 1])
    else Clean(parts[1..], done + [parts[0]])
  }

  /** security.SafeJoin below a root: the cleaned component path, or None when the input is not a local subpath. */
  function SafeJoin(rootAbsolute: bool, sub: string): (r: Option<Path>)
    ensures r.Some? ==> ValidPath(r.value)
  {
    if !rootAbsolute || sub == "" || sub[0] == '/' then None
    else Clean(Split(sub, '/'), [])
  }

  lemma {:induction false} CleanKeepsNames(parts: Path, done: Path)
    requires ValidPath(done) && ValidPath(parts)
    ensures Clean(parts, done) == Some(done + parts)
    decreases |parts|
  {
    if parts != [] {
      assert ValidName(parts[0]);
      CleanKeepsNames(parts[1..], done + [parts[0]]);
      assert done + [parts[0]] + parts[1..] == done + parts;
    } else {
      assert done + parts == done;
    }
  }

  predicate Components(parts: seq<string>) { forall k :: 0 <= k < |parts| ==> '/' !in parts[k] }

  lemma {:induction false} CleanInTwo(a: seq<string>, b: seq<string>, done: Path)
    requires ValidPath(done) && Components(a) && Components(b)
    ensures Clean(a + b, done) == if Clean(a, done).None? then None else Clean(b, Clean(a, done).value)
    decreases |a|
  {
    hide ValidPath;
    if a == [] {
      assert a + b == b;
    } else {
      assert (a + b)[1..] == a[1..] + b && (a + b)[0] == a[0];
      if a[0] == "" || a[0] == "." {
        CleanInTwo(a[1..], b, done);
      } else if a[0] != ".." {
        DoneStaysValid(done, a[0]);
        CleanInTwo(a[1..], b, done + [a[0]]);
      } else if done != [] {
        DoneStaysValid(done, "x");
        CleanInTwo(a[1..], b, done[..|done| - 1]);
      }
    }
  }

  lemma DoneStaysValid(done: Path, n: Name)
    requires ValidPath(done)
    ensures ValidName(n) ==> ValidPath(done + [n])
    ensures done != [] ==> ValidPath(done[..|done| - 1])
  {
  }

  /** The rewriting rules that make up the cleaning: a name and the ".." after it cancel, "." and empty components drop out,
      a ".." with nothing before it climbs out, and a path of names is itself. */
  lemma CleaningRules(a: seq<string>, n: Name, b: seq<string>)
    requires Components(a) && Components(b)
    ensures ValidName(n) ==> Clean(a + [n, ".."] + b, []) == Clean(a + b, [])
    ensures Clean(a + ["."] + b, []) == Clean(a + b, []) == Clean(a + [""] + b, [])
    ensures Clean(a, []) == Some([]) ==> Clean(a + [".."] + b, []) == None
    ensures ValidPath(a) ==> Clean(a, []) == Some(a)
  {
    hide ValidName, Clean;
    CleanInTwo(a, b, []);
    FirstComponent(b);
    CleanInTwo(a, ["."] + b, []);
    CleanInTwo(a, [""] + b, []);
    CleanInTwo(a, [".."] + b, []);
    assert a + (["."] + b) == a + ["."] + b && a + ([""] + b) == a + [""] + b && a + ([".."] + b) == a + [".."] + b;
    if ValidName(n) {
      NameThenUp(n, b, []);
      CleanInTwo(a, [n, ".."] + b, []);
      assert a + ([n, ".."] + b) == a + [n, ".."] + b;
      if Clean(a, []).Some? {
        NameThenUp(n, b, Clean(a, []).value);
      }
    }
    if ValidPath(a) {
      CleanKeepsNames(a, []);
      assert [] + a == a;
    }
  }

  lemma FirstComponent(b: seq<string>)
    requires Components(b)
    ensures Components(["."] + b) && Components([""] + b) && Components([".."] + b)
    ensures forall done :: ValidPath(done) ==> Clean(["."] + b, done) == Clean([""] + b, done) == Clean(b, done)
    ensures Clean([".."] + b, []) == None
  {
    assert (["."] + b)[1..] == b && ([""] + b)[1..] == b;
  }

  /** A join needs an absolute root and a relative, nonempty path that does not start by climbing. */
  lemma JoinsRefused(rest: string)
    ensures SafeJoin(true, "") == None && SafeJoin(true, "/" + rest) == None && SafeJoin(true, "../" + rest) == None
    ensures SafeJoin(false, rest) == None
  {
    SplitPrefix("..", rest, '/');
    assert ".." + "/" + rest == "../" + rest;
    FirstComponent(Split(rest, '/'));
  }

  lemma NameThenUp(n: Name, b: seq<string>, done: Path)
    requires ValidName(n) && Components(b) && ValidPath(done)
    ensures Components([n, ".."] + b) && Clean([n, ".."] + b, done) == Clean(b, done)
  {
    var parts := [n, ".."] + b;
    assert parts[1..][0] == ".." && parts[1..][1..] == b;
    assert (done + [n])[..|done + [n]| - 1] == done;
    assert Clean(parts, done) == Clean(parts[1..], done + [n]);
  }

  /** The slash-separated text of a cleaned relative path. */
  function PathText(p: Path): string { if p == [] then "." else Join(p, '/') }

  /** installPathHasRoot: path is root or lies below it, decided on the text. */
  predicate HasRoot(path: string, root: string) { path == root || root + "/" <= path }

  lemma {:induction false} SplitAfterJoin(q: Path, rest: string)
    requires q != [] && forall k :: 0 <= k < |q| ==> '/' !in q[k]
    ensures Split(Join(q, '/') + "/" + rest, '/') == q + Split(rest, '/')
  {
    hide Split, ValidName;
    if |q| == 1 {
      SplitPrefix(q[0], rest, '/');
    } else {
      SplitAfterJoin(q[1..], rest);
      var tail := Join(q[1..], '/') + "/" + rest;
      SplitPrefix(q[0], tail, '/');
      assert Join(q, '/') == q[0] + "/" + Join(q[1..], '/');
      assert Join(q, '/') + "/" + rest == q[0] + "/" + tail;
    }
  }

  lemma {:induction false} JoinAppend(q: Path, rest: Path)
    requires q != [] && rest != []
    ensures Join(q + rest, '/') == Join(q, '/') + "/" + Join(rest, '/')
  {
    var whole := q + rest;
    if |q| == 1 {
      assert whole[1..] == rest;
    } else {
      JoinAppend(q[1..], rest);
      assert whole[1..] == q[1..] + rest;
      assert Join(whole, '/') == q[0] + "/" + (Join(q[1..], '/') + "/" + Join(rest, '/'));
      assert Join(q, '/') == q[0] + "/" + Join(q[1..], '/');
    }
  }

  lemma PathTextInjective(p: Path, q: Path)
    requires ValidPath(p) && ValidPath(q) && p != [] && q != [] && PathText(p) == PathText(q)
    ensures p == q
  {
    SplitOfJoin(p, '/');
    SplitOfJoin(q, '/');
  }

  lemma TextPrefixSplits(p: Path, q: Path)
    requires ValidPath(p) && ValidPath(q) && p != [] && q != [] && PathText(q) + "/" <= PathText(p)
    ensures q <= p
  {
    hide Split, Join;
    var rest := PathText(p)[|PathText(q)| + 1..];
    assert PathText(p) == Join(q, '/') + "/" + rest;
    SplitAfterJoin(q, rest);
    SplitOfJoin(p, '/');
  }

  /** On cleaned paths the string prefix test is the component prefix test. */
  lemma TextPrefixIsPathPrefix(p: Path, q: Path)
    requires ValidPath(p) && ValidPath(q) && p != [] && q != []
    ensures HasRoot(PathText(p), PathText(q)) <==> q <= p
  {
    hide Split, Join, ValidPath;
    if PathText(p) == PathText(q) {
      PathTextInjective(p, q);
    } else if PathText(q) + "/" <= PathText(p) {
      TextPrefixSplits(p, q);
    } else if q <= p {
      assert p != q;
      assert p == q + p[|q|..];
      JoinAppend(q, p[|q|..]);
    }
  }

  function Parent(p: Path): Path
    requires p != []
  {
    p[..|p| - 1]
  }

  /** Neither path is the other or lies below it. */
  predicate Apart(p: Path, q: Path) { !(p <= q) && !(q <= p) }

  const TEMP_SUFFIX := ".tmp"

  /** The temporary file an atomic write of p goes through. */
  function TempOf(p: Path): (t: Path)
    requires p != []
    ensures |t| == |p| && Parent(t) == Parent(p) && t != p
  {
    var t := Parent(p) + [p[|p| - 1] + TEMP_SUFFIX];
    assert |t[|p| - 1]| == |p[|p| - 1]| + 4;
    t
  }

  lemma TempText(p: Path)
    requires ValidPath(p) && p != []
    ensures ValidPath(TempOf(p)) && PathText(TempOf(p)) == PathText(p) + TEMP_SUFFIX
  {
    hide Join;
    var last := p[|p| - 1];
    assert ValidName(last);
    assert '/' !in last + TEMP_SUFFIX && |last + TEMP_SUFFIX| > 2;
    JoinOne(last);
    JoinOne(last + TEMP_SUFFIX);
    if |p| == 1 {
      assert p == [last] && TempOf(p) == [last + TEMP_SUFFIX];
    } else {
      JoinAppend(Parent(p), [last]);
      JoinAppend(Parent(p), [last + TEMP_SUFFIX]);
      assert Parent(p) + [last] == p;
    }
  }

  lemma JoinOne(n: Name)
    ensures Join([n], '/') == n
  {
  }

  /** A clean path's text joins to that path. */
  lemma CleanText(p: Path)
    requires ValidPath(p) && p != []
    ensures PathText(p) != "" && PathText(p)[0] != '/' && Clean(Split(PathText(p), '/'), []) == Some(p)
  {
    hide Split, Clean;
    SplitOfJoin(p, '/');
    CleanKeepsNames(p, []);
    assert [] + p == p && ValidName(p[0]);
  }
}
