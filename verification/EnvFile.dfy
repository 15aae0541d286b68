// The stack .env: reading it (internal/state/env.go:26-118) and the in-place edit of one
// service's three resource limits (rewriteResourceEnvLines,
// internal/core/reconfigure_apply.go:290-338).
module EnvFile {
  import opened Wrappers
  import opened Text

  // ---- Whitespace ----

  /** unicode.IsSpace. */
  predicate IsSpace(c: char) {
    var n := c as int;
    9 <= n <= 13 || n == 0x20 || n == 0x85 || n == 0xA0 || n == 0x1680 || 0x2000 <= n <= 0x200A ||
    n == 0x2028 || n == 0x2029 || n == 0x202F || n == 0x205F || n == 0x3000
  }

  function TrimLeft(s: string): string {
    if s != "" && IsSpace(s[0]) then TrimLeft(s[1..]) else s
  }

  function TrimRight(s: string): string {
    if s != "" && IsSpace(s[|s| - 1]) then TrimRight(s[..|s| - 1]) else s
  }

  /** strings.TrimSpace. */
  function TrimSpace(s: string): string { TrimRight(TrimLeft(s)) }

  lemma {:induction false} TrimLeftIsSuffix(s: string)
    ensures |TrimLeft(s)| <= |s| && TrimLeft(s) == s[|s| - |TrimLeft(s)|..]
    ensures forall k :: 0 <= k < |s| - |TrimLeft(s)| ==> IsSpace(s[k])
    ensures TrimLeft(s) != "" ==> !IsSpace(TrimLeft(s)[0])
  {
    hide IsSpace;
    if s != "" && IsSpace(s[0]) {
      var rest := s[1..];
      TrimLeftIsSuffix(rest);
      forall k | 1 <= k < |s| - |TrimLeft(s)|
        ensures IsSpace(s[k])
      {
        assert s[k] == rest[k - 1];
      }
    }
  }

  lemma {:induction false} TrimRightIsPrefix(s: string)
    ensures TrimRight(s) <= s
    ensures s != "" && !IsSpace(s[0]) ==> TrimRight(s) != "" && TrimRight(s)[0] == s[0]
  {
    if s != "" && IsSpace(s[|s| - 1]) {
      TrimRightIsPrefix(s[..|s| - 1]);
    }
  }

  /** Trimming leaves a word alone. */
  lemma TrimOfWord(s: string)
    requires forall c :: c in s ==> !IsSpace(c)
    ensures TrimSpace(s) == s
  {
    if s != "" {
      assert s[0] in s && s[|s| - 1] in s;
    }
  }

  // ---- One line ----

  datatype Line = Skip | Malformed | Entry(key: string, value: string)

  /** ReadStackEnv's view of a line. */
  function ReadLine(line: string): Line {
    if TrimSpace(line) == "" || "#" <= TrimLeft(line) then Skip
    else
      var c := Cut(line, '=');
      if !c.found || TrimSpace(c.before) == "" then Malformed else Entry(TrimSpace(c.before), c.after)
  }

  /** The rewriter's view of a line: it looks for '=' alone, in comments as well. */
  function LineKey(line: string): Option<string> {
    var c := Cut(line, '=');
    if c.found then Some(TrimSpace(c.before)) else None
  }

  predicate KeyChar(c: char) { 'A' <= c <= 'Z' || IsDigit(c) || c == '_' }

  predicate KeyShaped(key: string) { key != "" && forall c :: c in key ==> KeyChar(c) }

  function Assignment(key: string, value: string): string { key + "=" + value }

  lemma AssignmentReads(key: string, value: string)
    requires KeyShaped(key)
    ensures LineKey(Assignment(key, value)) == Some(key)
    ensures ReadLine(Assignment(key, value)) == Entry(key, value)
  {
    CutOfJoined(key, value, '=');
    TrimOfWord(key);
    var line := Assignment(key, value);
    assert key[0] in key && line[0] == key[0] && !IsSpace(line[0]);
    assert TrimLeft(line) == line;
    TrimRightIsPrefix(line);
  }

  /** A line the rewriter takes for a target is an entry to the reader: never blank, never a comment. */
  lemma KeyedLineIsEntry(line: string)
    requires LineKey(line).Some? && KeyShaped(LineKey(line).value)
    ensures ReadLine(line) == Entry(LineKey(line).value, Cut(line, '=').after)
  {
    hide Cut;
    var before := Cut(line, '=').before;
    var key := LineKey(line).value;
    TrimLeftIsSuffix(before);
    TrimRightIsPrefix(TrimLeft(before));
    assert key[0] in key;
    var n := |before| - |TrimLeft(before)|;
    assert before[n] == key[0];
    assert line[n] == key[0];
    IndentTrims(line, n);
  }

  /** An entry is read under the key the rewriter sees. */
  lemma EntryIsKeyed(line: string)
    requires ReadLine(line).Entry?
    ensures LineKey(line) == Some(ReadLine(line).key)
  {
  }

  // ---- The whole file ----

  /** ReadStackEnv on lines: None for a malformed line or a repeated key. */
  function ReadLines(lines: seq<string>): Option<map<string, string>> {
    if lines == [] then Some(map[])
    else
      var before := ReadLines(lines[..|lines| - 1]);
      var last := ReadLine(lines[|lines| - 1]);
      if before.None? || last.Skip? then before
      else if last.Malformed? || last.key in before.value then None
      else Some(before.value[last.key := last.value])
  }

  function ReadEnv(text: string): Option<map<string, string>> { ReadLines(Split(text, '\n')) }

  /** Blank, or with '#' as its first character after white space. */
  predicate Uninformative(line: string) {
    || (forall k :: 0 <= k < |line| ==> IsSpace(line[k]))
    || exists n :: 0 <= n < |line| && line[n] == '#' && forall k :: 0 <= k < n ==> IsSpace(line[k])
  }

  lemma {:induction false} BlankTrims(line: string)
    requires forall k :: 0 <= k < |line| ==> IsSpace(line[k])
    ensures TrimLeft(line) == ""
  {
    if line != "" {
      BlankTrims(line[1..]);
    }
  }

  lemma {:induction false} IndentTrims(line: string, n: nat)
    requires n < |line| && (forall k :: 0 <= k < n ==> IsSpace(line[k])) && !IsSpace(line[n])
    ensures TrimLeft(line) == line[n..] && TrimSpace(line) != ""
    decreases n
  {
    if n == 0 {
      TrimRightIsPrefix(line);
    } else {
      IndentTrims(line[1..], n - 1);
    }
  }

  /** The reader skips exactly the blank lines and the comments. */
  lemma SkipsExactly(line: string)
    ensures ReadLine(line) == Skip <==> Uninformative(line)
  {
    hide IsSpace, TrimLeft;
    if forall k :: 0 <= k < |line| ==> IsSpace(line[k]) {
      BlankTrims(line);
    } else {
      TrimLeftIsSuffix(line);
      var n := |line| - |TrimLeft(line)|;
      assert TrimLeft(line) != "";
      assert line[n] == TrimLeft(line)[0];
      IndentTrims(line, n);
      HashIsNoSpace();
      assert "#" <= TrimLeft(line) <==> line[n] == '#';
    }
  }

  lemma HashIsNoSpace()
    ensures !IsSpace('#')
  {
  }

  lemma {:induction false} TrailerTrims(word: string, trailer: string)
    requires word != "" && !IsSpace(word[|word| - 1]) && forall c :: c in trailer ==> IsSpace(c)
    ensures TrimRight(word + trailer) == word
  {
    var s := word + trailer;
    if trailer == "" {
      assert s == word;
    } else {
      assert s[..|s| - 1] == word + trailer[..|trailer| - 1];
      TrailerTrims(word, trailer[..|trailer| - 1]);
    }
  }

  /** A key as it may be written: white space around it does not belong to it, and it does not look like a comment. */
  predicate Writable(key: string) {
    key != "" && '=' !in key && !IsSpace(key[0]) && key[0] != '#' && !IsSpace(key[|key| - 1])
  }

  /** "KEY=VALUE" is read under the trimmed key with every byte of the value, further '=' and spaces included. */
  lemma EntryReads(indent: string, key: string, pad: string, value: string)
    requires Writable(key) && forall c :: c in indent || c in pad ==> IsSpace(c)
    ensures ReadLine(indent + key + pad + "=" + value) == Entry(key, value)
  {
    hide IsSpace, TrimLeft, TrimRight;
    EqualsIsNoSpace();
    var before := indent + key + pad;
    var line := before + "=" + value;
    CutOfJoined(before, value, '=');
    assert before[|indent|] == key[0] && line[|indent|] == key[0];
    IndentTrims(before, |indent|);
    assert before[|indent|..] == key + pad;
    TrailerTrims(key, pad);
    IndentTrims(line, |indent|);
  }

  lemma EqualsIsNoSpace()
    ensures !IsSpace('=')
  {
  }

  /** What is neither skipped nor an entry is malformed: it has no '=', or only white space before the first. */
  lemma MalformedExactly(line: string)
    ensures ReadLine(line) == Malformed <==>
              !Uninformative(line) &&
              ('=' !in line || exists n :: 0 <= n < |line| && line[n] == '=' && forall k :: 0 <= k < n ==> IsSpace(line[k]))
  {
    hide IsSpace, TrimLeft, TrimRight, Uninformative;
    SkipsExactly(line);
    EqualsIsNoSpace();
    var c := Cut(line, '=');
    if c.found {
      var at := |c.before|;
      assert line[at] == '=' && line[..at] == c.before;
      assert forall k :: 0 <= k < at ==> line[k] == c.before[k];
      BlankExactly(c.before);
    }
  }

  lemma BlankExactly(s: string)
    ensures TrimSpace(s) == "" <==> forall k :: 0 <= k < |s| ==> IsSpace(s[k])
  {
    hide IsSpace, TrimLeft;
    if forall k :: 0 <= k < |s| ==> IsSpace(s[k]) {
      BlankTrims(s);
    } else {
      TrimLeftIsSuffix(s);
      var n := |s| - |TrimLeft(s)|;
      assert s[n] == TrimLeft(s)[0];
      IndentTrims(s, n);
    }
  }

  predicate NoneMalformed(lines: seq<string>) { forall i :: 0 <= i < |lines| ==> !ReadLine(lines[i]).Malformed? }

  predicate DistinctKeys(lines: seq<string>) {
    forall i, j :: 0 <= i < j < |lines| && ReadLine(lines[i]).Entry? && ReadLine(lines[j]).Entry? ==>
      ReadLine(lines[i]).key != ReadLine(lines[j]).key
  }

  predicate Holds(lines: seq<string>, k: string, v: string) {
    exists i :: 0 <= i < |lines| && ReadLine(lines[i]) == Entry(k, v)
  }

  /** The file reads exactly when no line is malformed and no two lines have one key, and it then holds its entries and
      nothing else. */
  lemma {:induction false} ReadsItsEntries(lines: seq<string>)
    ensures ReadLines(lines).Some? <==> NoneMalformed(lines) && DistinctKeys(lines)
    ensures ReadLines(lines).Some? ==>
              forall k, v :: k in ReadLines(lines).value && ReadLines(lines).value[k] == v <==> Holds(lines, k, v)
    decreases |lines|
  {
    hide ReadLine, Holds, DistinctKeys, NoneMalformed;
    if lines == [] {
      NothingHeld();
    } else {
      var n := |lines| - 1;
      ReadsItsEntries(lines[..n]);
      OneMoreEntry(lines[..n], lines[n]);
      assert lines[..n] + [lines[n]] == lines;
      if ReadLines(lines[..n]).Some? && ReadLine(lines[n]).Entry? && ReadLine(lines[n]).key in ReadLines(lines[..n]).value {
        assert Holds(lines[..n], ReadLine(lines[n]).key, ReadLines(lines[..n]).value[ReadLine(lines[n]).key]);
      }
    }
  }

  lemma NothingHeld()
    ensures NoneMalformed([]) && DistinctKeys([]) && forall k, v :: !Holds([], k, v)
  {
  }

  lemma OneMoreEntry(before: seq<string>, line: string)
    ensures NoneMalformed(before + [line]) <==> NoneMalformed(before) && !ReadLine(line).Malformed?
    ensures DistinctKeys(before + [line]) <==>
              DistinctKeys(before) && (ReadLine(line).Entry? ==> forall v :: !Holds(before, ReadLine(line).key, v))
    ensures forall k, v :: Holds(before + [line], k, v) <==> Holds(before, k, v) || ReadLine(line) == Entry(k, v)
  {
    hide ReadLine;
    var lines := before + [line];
    assert lines[|before|] == line && forall i :: 0 <= i < |before| ==> lines[i] == before[i];
    forall k, v | Holds(before, k, v)
      ensures Holds(lines, k, v)
    {
      var i :| 0 <= i < |before| && ReadLine(before[i]) == Entry(k, v);
      assert ReadLine(lines[i]) == Entry(k, v);
    }
    if NoneMalformed(lines) {
      assert forall i :: 0 <= i < |before| ==> ReadLine(before[i]) == ReadLine(lines[i]);
    }
    DistinctStep(before, line);
  }

  lemma DistinctStep(before: seq<string>, line: string)
    ensures DistinctKeys(before + [line]) <==>
              DistinctKeys(before) && (ReadLine(line).Entry? ==> forall v :: !Holds(before, ReadLine(line).key, v))
  {
    hide ReadLine;
    var lines := before + [line];
    assert lines[|before|] == line && forall i :: 0 <= i < |before| ==> lines[i] == before[i];
    if DistinctKeys(lines) {
      forall i, j | 0 <= i < j < |before| && ReadLine(before[i]).Entry? && ReadLine(before[j]).Entry?
        ensures ReadLine(before[i]).key != ReadLine(before[j]).key
      {
        assert ReadLine(lines[i]).Entry? && ReadLine(lines[j]).Entry?;
      }
      forall i | 0 <= i < |before| && ReadLine(line).Entry? && ReadLine(before[i]).Entry?
        ensures ReadLine(before[i]).key != ReadLine(line).key
      {
        assert ReadLine(lines[i]).Entry? && ReadLine(lines[|before|]).Entry?;
      }
    } else {
      var i, j :| 0 <= i < j < |lines| && ReadLine(lines[i]).Entry? && ReadLine(lines[j]).Entry? &&
                  ReadLine(lines[i]).key == ReadLine(lines[j]).key;
      assert ReadLine(before[i]) == Entry(ReadLine(lines[j]).key, ReadLine(lines[i]).value);
      if j < |before| {
        assert ReadLine(before[j]).Entry? && ReadLine(before[i]).key == ReadLine(before[j]).key;
      } else {
        assert Holds(before, ReadLine(line).key, ReadLine(lines[i]).value);
      }
    }
  }

  /** The lines that are neither blank nor comments. */
  function Informative(lines: seq<string>): seq<string> {
    if lines == [] then []
    else if Uninformative(lines[|lines| - 1]) then Informative(lines[..|lines| - 1])
    else Informative(lines[..|lines| - 1]) + [lines[|lines| - 1]]
  }

  /** Blank lines and comments make no difference, wherever they stand. */
  lemma {:induction false} CommentsMakeNoDifference(lines: seq<string>)
    ensures ReadLines(Informative(lines)) == ReadLines(lines)
    decreases |lines|
  {
    hide ReadLine, Uninformative;
    if lines != [] {
      var n := |lines| - 1;
      CommentsMakeNoDifference(lines[..n]);
      SkipsExactly(lines[n]);
      assert !Uninformative(lines[n]) ==> Informative(lines)[..|Informative(lines)| - 1] == Informative(lines[..n]);
    }
  }

  /** The text without its blank lines and comments reads as the text does. */
  lemma UncommentedTextReadsAlike(text: string)
    ensures ReadEnv(Join(Informative(Split(text, '\n')), '\n')) == ReadEnv(text)
  {
    hide ReadLine, Uninformative, Split;
    var lines := Split(text, '\n');
    var kept := Informative(lines);
    CommentsMakeNoDifference(lines);
    if kept == [] {
      OneBlankLine();
    } else {
      KeptLines(lines);
      SplitOfJoin(kept, '\n');
    }
  }

  lemma OneBlankLine()
    ensures Split(Join([], '\n'), '\n') == [""] && ReadLines([""]) == ReadLines([])
  {
    assert TrimSpace("") == "";
    assert [""][..0] == [];
  }

  lemma {:induction false} KeptLines(lines: seq<string>)
    requires forall k :: 0 <= k < |lines| ==> '\n' !in lines[k]
    ensures forall k :: 0 <= k < |Informative(lines)| ==> '\n' !in Informative(lines)[k]
    decreases |lines|
  {
    hide Uninformative;
    if lines != [] {
      KeptLines(lines[..|lines| - 1]);
    }
  }

  function Drop(lines: seq<string>, n: nat): seq<string>
    requires n <= |lines|
  {
    lines[..|lines| - n]
  }

  /** The lines the rewriter works on: a trailing newline's empty last element is dropped. */
  function BodyLines(env: string): seq<string> {
    var lines := Split(env, '\n');
    if env != "" && env[|env| - 1] == '\n' && lines[|lines| - 1] == "" then Drop(lines, 1) else lines
  }

  /** The body reads as the whole file does. */
  lemma BodyReadsAlike(env: string)
    ensures ReadLines(BodyLines(env)) == ReadEnv(env)
    ensures forall k :: 0 <= k < |BodyLines(env)| ==> '\n' !in BodyLines(env)[k]
  {
    hide Split;
    assert TrimSpace("") == "";
  }

  lemma BodyHasLines(env: string)
    ensures BodyLines(env) != []
  {
    hide Split;
    JoinOfSplit(env, '\n');
    assert |Split(env, '\n')| == 1 ==> env == Split(env, '\n')[0];
  }

  // ---- The edit ----

  // The new limits of one service.
  datatype Limits = Limits(memory: string, cpus: string, pids: int)

  function MemoryKey(key: string): string { "MEMORY_LIMIT_" + key }

  function CpusKey(key: string): string { "CPUS_LIMIT_" + key }

  function PidsKey(key: string): string { "PIDS_LIMIT_" + key }

  function Order(key: string): seq<string> { [MemoryKey(key), CpusKey(key), PidsKey(key)] }

  function Targets(key: string, l: Limits): map<string, string> {
    map[MemoryKey(key) := l.memory, CpusKey(key) := l.cpus, PidsKey(key) := Itoa(l.pids)]
  }

  lemma KeysDiffer(a: string, b: string)
    ensures MemoryKey(a) != CpusKey(b) && MemoryKey(a) != PidsKey(b) && CpusKey(a) != PidsKey(b)
    ensures a != b ==> MemoryKey(a) != MemoryKey(b) && CpusKey(a) != CpusKey(b) && PidsKey(a) != PidsKey(b)
  {
    assert MemoryKey(a)[0] == 'M' && CpusKey(a)[0] == 'C' && CpusKey(b)[0] == 'C' && PidsKey(b)[0] == 'P';
    assert MemoryKey(a)[13..] == a && CpusKey(a)[11..] == a && PidsKey(a)[11..] == a;
    assert MemoryKey(b)[13..] == b && CpusKey(b)[11..] == b && PidsKey(b)[11..] == b;
  }

  lemma TargetsAreShaped(key: string, l: Limits)
    requires forall c :: c in key ==> KeyChar(c)
    ensures forall k :: k in Targets(key, l) ==> KeyShaped(k)
  {
  }

  /** A line after the edit. */
  function Edit(line: string, t: map<string, string>): string {
    var key := LineKey(line);
    if key.Some? && key.value in t then Assignment(key.value, t[key.value]) else line
  }

  function EditAll(lines: seq<string>, t: map<string, string>): (r: seq<string>)
    ensures |r| == |lines| && forall k :: 0 <= k < |lines| ==> r[k] == Edit(lines[k], t)
  {
    seq(|lines|, k requires 0 <= k < |lines| => Edit(lines[k], t))
  }

  predicate OnLine(lines: seq<string>, key: string) { exists i :: 0 <= i < |lines| && LineKey(lines[i]) == Some(key) }

  predicate OnTwoLines(lines: seq<string>, key: string) {
    exists i, j :: 0 <= i < j < |lines| && LineKey(lines[i]) == Some(key) && LineKey(lines[j]) == Some(key)
  }

  predicate Repeats(lines: seq<string>, t: map<string, string>) { exists key :: key in t && OnTwoLines(lines, key) }

  /** The assignments of the keys no line carries, in order. */
  function Appended(lines: seq<string>, keys: seq<string>, t: map<string, string>): seq<string>
    requires forall k :: k in keys ==> k in t
  {
    if keys == [] then []
    else
      var n := |keys| - 1;
      Appended(lines, keys[..n], t) + if OnLine(lines, keys[n]) then [] else [Assignment(keys[n], t[keys[n]])]
  }

  /** The edited lines: every line in its place, then the missing keys. */
  function Rewritten(lines: seq<string>, key: string, l: Limits): seq<string> {
    EditAll(lines, Targets(key, l)) + Appended(lines, Order(key), Targets(key, l))
  }

  /** The text the editor produces: the edited lines, always ended by a newline. */
  function EditedText(env: string, key: string, l: Limits): string {
    Join(Rewritten(BodyLines(env), key, l), '\n') + "\n"
  }

  /** One pass over the lines, overwriting hits in place; ok is false at the second line with a targeted key. */
  method EditLines(lines: seq<string>, t: map<string, string>) returns (edited: seq<string>, seen: set<string>, ok: bool)
    ensures ok <==> !Repeats(lines, t)
    ensures ok ==> edited == EditAll(lines, t) && forall k :: k in seen <==> k in t && OnLine(lines, k)
  {
    hide LineKey, OnLine, OnTwoLines, Repeats, Assignment;
    edited, seen, ok := lines, {}, true;
    NothingYet(lines[..0], t);
    for i := 0 to |lines|
      invariant |edited| == |lines|
      invariant forall k :: 0 <= k < i ==> edited[k] == Edit(lines[k], t)
      invariant forall k :: i <= k < |lines| ==> edited[k] == lines[k]
      invariant forall k :: k in seen <==> k in t && OnLine(lines[..i], k)
      invariant !Repeats(lines[..i], t)
    {
      SeenGrows(lines, i, t);
      var key := LineKey(edited[i]);
      if key.Some? && key.value in t {
        if key.value in seen {
          RepeatsGrow(lines, i + 1, t);
          ok := false;
          return;
        }
        seen := seen + {key.value};
        edited := edited[i := Assignment(key.value, t[key.value])];
      }
    }
    assert lines[..|lines|] == lines;
  }

  lemma NothingYet(lines: seq<string>, t: map<string, string>)
    requires lines == []
    ensures !Repeats(lines, t) && forall k :: !OnLine(lines, k)
  {
  }

  lemma SeenGrows(lines: seq<string>, i: nat, t: map<string, string>)
    requires i < |lines|
    ensures forall k :: OnLine(lines[..i + 1], k) <==> OnLine(lines[..i], k) || LineKey(lines[i]) == Some(k)
    ensures !Repeats(lines[..i], t) ==>
              (Repeats(lines[..i + 1], t) <==>
               LineKey(lines[i]).Some? && LineKey(lines[i]).value in t && OnLine(lines[..i], LineKey(lines[i]).value))
  {
    hide LineKey;
    var next := lines[..i + 1];
    forall k
      ensures OnLine(next, k) <==> OnLine(lines[..i], k) || LineKey(lines[i]) == Some(k)
      ensures OnTwoLines(next, k) <==> OnTwoLines(lines[..i], k) || (OnLine(lines[..i], k) && LineKey(lines[i]) == Some(k))
    {
      OneMoreLine(lines, i, k);
    }
  }

  lemma OneMoreOnLine(before: seq<string>, line: string, k: string)
    ensures OnLine(before + [line], k) <==> OnLine(before, k) || LineKey(line) == Some(k)
  {
    hide LineKey;
    var next := before + [line];
    if OnLine(before, k) {
      var j :| 0 <= j < |before| && LineKey(before[j]) == Some(k);
      assert LineKey(next[j]) == Some(k);
    }
    assert next[|before|] == line;
  }

  lemma OneMoreLine(lines: seq<string>, i: nat, k: string)
    requires i < |lines|
    ensures OnLine(lines[..i + 1], k) <==> OnLine(lines[..i], k) || LineKey(lines[i]) == Some(k)
    ensures OnTwoLines(lines[..i + 1], k) <==> OnTwoLines(lines[..i], k) || (OnLine(lines[..i], k) && LineKey(lines[i]) == Some(k))
  {
    hide LineKey;
    var before, next := lines[..i], lines[..i + 1];
    assert next == before + [lines[i]];
    OneMoreOnLine(before, lines[i], k);
    if OnTwoLines(before, k) {
      var a, b :| 0 <= a < b < i && LineKey(before[a]) == Some(k) && LineKey(before[b]) == Some(k);
      assert LineKey(next[a]) == Some(k) && LineKey(next[b]) == Some(k);
    }
    if OnTwoLines(next, k) && !OnTwoLines(before, k) {
      var a, b :| 0 <= a < b < i + 1 && LineKey(next[a]) == Some(k) && LineKey(next[b]) == Some(k);
      assert LineKey(before[a]) == Some(k);
    }
  }

  lemma RepeatsGrow(lines: seq<string>, i: nat, t: map<string, string>)
    requires i <= |lines| && Repeats(lines[..i], t)
    ensures Repeats(lines, t)
  {
    hide LineKey;
    var k :| k in t && OnTwoLines(lines[..i], k);
    var a, b :| 0 <= a < b < i && LineKey(lines[..i][a]) == Some(k) && LineKey(lines[..i][b]) == Some(k);
    assert LineKey(lines[a]) == Some(k) && LineKey(lines[b]) == Some(k);
    assert OnTwoLines(lines, k);
  }

  lemma JoinIsText(parts: seq<string>, sep: char)
    requires |parts| >= 2 || (|parts| == 1 && parts[0] != "")
    ensures Join(parts, sep) != ""
  {
  }

  lemma EditedHitIsText(lines: seq<string>, k: string, t: map<string, string>)
    requires OnLine(lines, k) && k in t
    ensures exists i :: 0 <= i < |lines| && EditAll(lines, t)[i] != ""
  {
    hide LineKey;
    var i :| 0 <= i < |lines| && LineKey(lines[i]) == Some(k);
    assert EditAll(lines, t)[i] == Assignment(k, t[k]);
  }

  /** Some line carries the memory key or an assignment of it is appended, so the result is never empty text. */
  lemma RewrittenIsText(lines: seq<string>, key: string, l: Limits)
    requires lines != []
    ensures Join(Rewritten(lines, key, l), '\n') != ""
  {
    hide LineKey, Join, Edit, MemoryKey, CpusKey, PidsKey, OnLine, Assignment;
    var t := Targets(key, l);
    if OnLine(lines, MemoryKey(key)) {
      EditedHitIsText(lines, MemoryKey(key), t);
    } else {
      assert Order(key)[..1] == [MemoryKey(key)];
      AppendedGrows(lines, Order(key), t, 1);
    }
    JoinIsText(Rewritten(lines, key, l), '\n');
  }

  lemma {:induction false} AppendedGrows(lines: seq<string>, keys: seq<string>, t: map<string, string>, i: nat)
    requires (forall k :: k in keys ==> k in t) && i <= |keys|
    ensures |Appended(lines, keys[..i], t)| <= |Appended(lines, keys, t)|
    decreases |keys|
  {
    hide OnLine;
    if i < |keys| {
      AppendedGrows(lines, keys[..|keys| - 1], t, i);
      assert keys[..|keys| - 1][..i] == keys[..i];
    } else {
      assert keys[..i] == keys;
    }
  }

  /** rewriteResourceEnvLines. */
  method RewriteResourceEnvLines(env: string, key: string, l: Limits) returns (out: Option<string>)
    ensures out.None? <==> Repeats(BodyLines(env), Targets(key, l))
    ensures out.Some? ==> out.value == EditedText(env, key, l)
  {
    hide Split, Repeats, OnLine, Edit, MemoryKey, CpusKey, PidsKey, Assignment;
    var t := Targets(key, l);
    var trailing := env != "" && env[|env| - 1] == '\n';
    var lines := Split(env, '\n');
    if trailing && lines[|lines| - 1] == "" {
      lines := lines[..|lines| - 1];
    }
    var edited, seen, ok := EditLines(lines, t);
    if !ok {
      return None;
    }
    var all := edited;
    var order := Order(key);
    for i := 0 to |order|
      invariant all == edited + Appended(lines, order[..i], t)
    {
      assert order[..i + 1][..i] == order[..i];
      if order[i] !in seen {
        all := all + [Assignment(order[i], t[order[i]])];
      }
    }
    assert order[..|order|] == order;
    BodyHasLines(env);
    RewrittenIsText(lines, key, l);
    var text := Join(all, '\n');
    if trailing || text != "" {
      text := text + "\n";
    }
    out := Some(text);
  }

  // ---- What the edit means ----

  predicate OneLineValues(l: Limits) { '\n' !in l.memory && '\n' !in l.cpus }

  /** A line that is not a hit keeps its bytes, and a hit keeps its place and its key. */
  lemma EditReads(line: string, t: map<string, string>)
    requires forall k :: k in t ==> KeyShaped(k)
    ensures LineKey(Edit(line, t)) == LineKey(line)
    ensures var before := ReadLine(line);
            ReadLine(Edit(line, t)) == if before.Entry? && before.key in t then Entry(before.key, t[before.key]) else before
  {
    hide KeyShaped, ReadLine, LineKey;
    var key := LineKey(line);
    if key.Some? && key.value in t {
      AssignmentReads(key.value, t[key.value]);
      KeyedLineIsEntry(line);
    } else if ReadLine(line).Entry? {
      EntryIsKeyed(line);
    }
  }

  function Updated(m: map<string, string>, t: map<string, string>): map<string, string> {
    map k | k in m :: if k in t then t[k] else m[k]
  }

  lemma UpdatedOfNothing(t: map<string, string>)
    ensures Updated(map[], t) == map[]
  {
  }

  lemma UpdatedHasSameKeys(m: map<string, string>, t: map<string, string>)
    ensures Updated(m, t).Keys == m.Keys
  {
  }

  lemma UpdatedStep(m: map<string, string>, t: map<string, string>, k: string, v: string)
    ensures Updated(m[k := v], t) == Updated(m, t)[k := if k in t then t[k] else v]
  {
  }

  /** Editing in place updates the values of the targeted keys the file has, and nothing else. */
  lemma {:induction false} EditAllReads(lines: seq<string>, t: map<string, string>)
    requires (forall k :: k in t ==> KeyShaped(k)) && ReadLines(lines).Some?
    ensures ReadLines(EditAll(lines, t)) == Some(Updated(ReadLines(lines).value, t))
    decreases |lines|
  {
    hide KeyShaped, ReadLine, Edit, Updated, LineKey;
    if lines == [] {
      assert Updated(map[], t) == map[] by { UpdatedOfNothing(t); }
    } else {
      var n := |lines| - 1;
      EditAllReads(lines[..n], t);
      assert EditAll(lines, t)[..n] == EditAll(lines[..n], t);
      EditReads(lines[n], t);
      var m, last := ReadLines(lines[..n]).value, ReadLine(lines[n]);
      if last.Entry? {
        UpdatedStep(m, t, last.key, last.value);
        UpdatedHasSameKeys(m, t);
      }
    }
  }

  /** In a file that reads, the keys seen by the rewriter are the keys read, each on one line. */
  lemma {:induction false} ReadKeys(lines: seq<string>, key: string)
    requires KeyShaped(key) && ReadLines(lines).Some?
    ensures OnLine(lines, key) <==> key in ReadLines(lines).value
    ensures !OnTwoLines(lines, key)
    decreases |lines|
  {
    hide KeyShaped, ReadLine, LineKey, OnLine, OnTwoLines;
    if lines == [] {
      NoLines(key);
    } else {
      var n := |lines| - 1;
      ReadKeys(lines[..n], key);
      OneMoreLine(lines, n, key);
      assert lines[..n + 1] == lines;
      if LineKey(lines[n]) == Some(key) {
        KeyedLineIsEntry(lines[n]);
      } else if ReadLine(lines[n]).Entry? {
        EntryIsKeyed(lines[n]);
      }
    }
  }

  lemma NoLines(key: string)
    ensures !OnLine([], key) && !OnTwoLines([], key)
  {
  }

  function Restricted(t: map<string, string>, keys: seq<string>, m: map<string, string>): map<string, string> {
    map k | k in t && k in keys && k !in m :: t[k]
  }

  lemma AppendReads(body: seq<string>, key: string, value: string)
    requires KeyShaped(key) && ReadLines(body).Some? && key !in ReadLines(body).value
    ensures ReadLines(body + [Assignment(key, value)]) == Some(ReadLines(body).value[key := value])
  {
    hide ReadLine, KeyShaped, Assignment;
    AssignmentReads(key, value);
    assert (body + [Assignment(key, value)])[..|body|] == body;
  }

  lemma RestrictedToNothing(t: map<string, string>, m: map<string, string>)
    ensures m + Restricted(t, [], m) == m
  {
  }

  lemma RestrictedStep(t: map<string, string>, keys: seq<string>, m: map<string, string>)
    requires keys != [] && keys[|keys| - 1] in t
    ensures keys[|keys| - 1] !in m && keys[|keys| - 1] !in keys[..|keys| - 1] ==>
              keys[|keys| - 1] !in m + Restricted(t, keys[..|keys| - 1], m)
    ensures var k, before := keys[|keys| - 1], keys[..|keys| - 1];
            m + Restricted(t, keys, m) == if k in m then m + Restricted(t, before, m) else (m + Restricted(t, before, m))[k := t[k]]
  {
    var k, before := keys[|keys| - 1], keys[..|keys| - 1];
    assert keys == before + [k];
  }

  /** Appending the missing keys adds exactly those. */
  lemma {:induction false} AppendedReads(lines: seq<string>, body: seq<string>, keys: seq<string>, t: map<string, string>, m: map<string, string>)
    requires (forall k :: k in keys ==> k in t && KeyShaped(k)) && (forall i, j :: 0 <= i < j < |keys| ==> keys[i] != keys[j])
    requires forall k :: k in keys ==> (OnLine(lines, k) <==> k in m)
    requires ReadLines(body) == Some(m)
    ensures ReadLines(body + Appended(lines, keys, t)) == Some(m + Restricted(t, keys, m))
    decreases |keys|
  {
    hide KeyShaped, OnLine, ReadLines, Assignment, Restricted;
    if keys == [] {
      assert body + [] == body;
      assert m + Restricted(t, keys, m) == m by { RestrictedToNothing(t, m); }
    } else {
      var n := |keys| - 1;
      var before := keys[..n];
      assert forall i :: 0 <= i < n ==> before[i] == keys[i];
      assert keys[n] !in before;
      AppendedReads(lines, body, before, t, m);
      RestrictedStep(t, keys, m);
      if OnLine(lines, keys[n]) {
        assert Appended(lines, keys, t) == Appended(lines, before, t);
      } else {
        var all := body + Appended(lines, before, t);
        AppendReads(all, keys[n], t[keys[n]]);
        assert body + Appended(lines, keys, t) == all + [Assignment(keys[n], t[keys[n]])];
      }
    }
  }

  /** A .env that reads has no repeated target, so the edit of a file just read never fails. */
  lemma ReadableNeverRepeats(env: string, key: string, l: Limits)
    requires (forall c :: c in key ==> KeyChar(c)) && ReadEnv(env).Some?
    ensures !Repeats(BodyLines(env), Targets(key, l))
  {
    hide KeyShaped, OnTwoLines, ReadLines, BodyLines;
    BodyReadsAlike(env);
    TargetsAreShaped(key, l);
    forall k | k in Targets(key, l)
      ensures !OnTwoLines(BodyLines(env), k)
    {
      ReadKeys(BodyLines(env), k);
    }
  }

  lemma RewrittenReads(lines: seq<string>, key: string, l: Limits)
    requires (forall c :: c in key ==> KeyChar(c)) && ReadLines(lines).Some?
    ensures ReadLines(Rewritten(lines, key, l)) == Some(ReadLines(lines).value + Targets(key, l))
  {
    hide KeyShaped, OnLine, OnTwoLines, ReadLines, EditAll, MemoryKey, CpusKey, PidsKey;
    var t, m := Targets(key, l), ReadLines(lines).value;
    TargetsAreShaped(key, l);
    KeysDiffer(key, key);
    EditAllReads(lines, t);
    forall k | k in Order(key)
      ensures k in t && (OnLine(lines, k) <==> k in Updated(m, t))
    {
      ReadKeys(lines, k);
    }
    AppendedReads(lines, EditAll(lines, t), Order(key), t, Updated(m, t));
    assert forall k :: k in t ==> k in Order(key);
    assert Updated(m, t) + Restricted(t, Order(key), Updated(m, t)) == m + t;
  }

  /** The lines of the result: the rewritten ones and the empty one after the final newline. */
  lemma EditedLines(env: string, key: string, l: Limits)
    requires (forall c :: c in key ==> KeyChar(c)) && OneLineValues(l)
    ensures Split(EditedText(env, key, l), '\n') == Rewritten(BodyLines(env), key, l) + [""]
    ensures BodyLines(EditedText(env, key, l)) == Rewritten(BodyLines(env), key, l)
  {
    hide Split, Join, LineKey, BodyLines, Rewritten;
    var all := Rewritten(BodyLines(env), key, l);
    BodyHasLines(env);
    RewrittenOneLiners(env, key, l);
    JoinEnd(all, '\n');
    SplitOfJoin(all + [""], '\n');
    assert EditedText(env, key, l) == Join(all + [""], '\n');
    assert BodyLines(EditedText(env, key, l)) == all by { BodyOfEnded(EditedText(env, key, l), all); }
  }

  // ---- The documented newline rule ----

  predicate EndsInNewline(env: string) { env != "" && env[|env| - 1] == '\n' }

  function MissingLines(env: string, key: string, l: Limits): seq<string> {
    Appended(BodyLines(env), Order(key), Targets(key, l))
  }

  /** The documentation's result: hits edited in place, missing keys appended, a final newline kept or added for an append. */
  function DocumentedText(env: string, key: string, l: Limits): string {
    var edited := if env == "" then [] else EditAll(BodyLines(env), Targets(key, l));
    Join(edited + MissingLines(env, key, l), '\n') + if EndsInNewline(env) || MissingLines(env, key, l) != [] then "\n" else ""
  }

  lemma EmptyFileMissesKeys(key: string, l: Limits)
    ensures BodyLines("") == [""] && MissingLines("", key, l) != []
    ensures EditAll([""], Targets(key, l)) == [""]
  {
    hide Join, MemoryKey, CpusKey, PidsKey;
    var order := Order(key);
    assert !OnLine([""], MemoryKey(key)) by { assert LineKey("").None?; }
    assert order[..1] == [MemoryKey(key)];
    AppendedGrows([""], order, Targets(key, l), 1);
    assert Edit("", Targets(key, l)) == "";
  }

  /** A file without the three keys gets them at its end: memory, CPUs, pids, each as NAME=value. */
  lemma AppendsInOrder(env: string, key: string, l: Limits)
    requires forall k :: k in Order(key) ==> !OnLine(BodyLines(env), k)
    ensures MissingLines(env, key, l) ==
            ["MEMORY_LIMIT_" + key + "=" + l.memory, "CPUS_LIMIT_" + key + "=" + l.cpus, "PIDS_LIMIT_" + key + "=" + Itoa(l.pids)]
  {
    hide OnLine, BodyLines;
    KeysDiffer(key, key);
    var order, t := Order(key), Targets(key, l);
    assert MemoryKey(key) in order && CpusKey(key) in order && PidsKey(key) in order;
    assert order[..2] == [MemoryKey(key), CpusKey(key)] && order[..2][..1] == [MemoryKey(key)] && order[..2][..1][..0] == [];
    assert Appended(BodyLines(env), order[..2][..1], t) == [Assignment(MemoryKey(key), l.memory)];
    assert Appended(BodyLines(env), order[..2], t) == [Assignment(MemoryKey(key), l.memory), Assignment(CpusKey(key), l.cpus)];
  }

  lemma JoinAfterBlank(parts: seq<string>)
    requires parts != []
    ensures Join([""] + parts, '\n') == "\n" + Join(parts, '\n')
  {
    assert ([""] + parts)[1..] == parts;
  }

  /** The editor's text is the documented one exactly when the file was not empty and either ended in a newline or lacked a key. */
  lemma NewlineRuleExact(env: string, key: string, l: Limits)
    ensures EditedText(env, key, l) == DocumentedText(env, key, l)
            <==> env != "" && (EndsInNewline(env) || MissingLines(env, key, l) != [])
  {
    hide Join, Split, BodyLines, Appended, EditAll, Targets, Order;
    var missing := MissingLines(env, key, l);
    if env == "" {
      EmptyFileMissesKeys(key, l);
      JoinAfterBlank(missing);
      assert [] + missing == missing;
      assert EditedText(env, key, l) == "\n" + Join(missing, '\n') + "\n";
      assert DocumentedText(env, key, l) == Join(missing, '\n') + "\n";
      assert |EditedText(env, key, l)| == 1 + |DocumentedText(env, key, l)|;
    } else {
      var text := Join(Rewritten(BodyLines(env), key, l), '\n');
      assert EditedText(env, key, l) == text + "\n";
      assert |text + "\n"| != |text + ""|;
    }
  }

  /** A file of exactly the three assignments. */
  function FullFile(key: string, l: Limits): seq<string> {
    [Assignment(MemoryKey(key), l.memory), Assignment(CpusKey(key), l.cpus), Assignment(PidsKey(key), Itoa(l.pids))]
  }

  lemma {:induction false} JoinEndsLikeLast(parts: seq<string>, sep: char)
    requires parts != [] && parts[|parts| - 1] != ""
    ensures var s, last := Join(parts, sep), parts[|parts| - 1]; s != "" && s[|s| - 1] == last[|last| - 1]
  {
    if |parts| > 1 {
      JoinEndsLikeLast(parts[1..], sep);
    }
  }

  /** An assignment of a target's current value: one line, under its key, which the edit leaves alone. */
  lemma CurrentAssignment(k: string, t: map<string, string>)
    requires KeyShaped(k) && k in t && '\n' !in t[k]
    ensures var line := Assignment(k, t[k]);
            '\n' !in line && line != "" && LineKey(line) == Some(k) && Edit(line, t) == line
  {
    hide ReadLine, LineKey, KeyShaped;
    ShapedHasNoNewline(k);
    AssignmentReads(k, t[k]);
  }

  lemma FullFileLine(key: string, l: Limits, k: nat)
    requires (forall c :: c in key ==> KeyChar(c)) && OneLineValues(l) && k < 3
    ensures Order(key)[k] in Targets(key, l) && FullFile(key, l)[k] == Assignment(Order(key)[k], Targets(key, l)[Order(key)[k]])
    ensures var line := FullFile(key, l)[k];
            '\n' !in line && line != "" && LineKey(line) == Some(Order(key)[k]) && Edit(line, Targets(key, l)) == line
  {
    TargetsAreShaped(key, l);
    KeysDiffer(key, key);
    hide MemoryKey, CpusKey, PidsKey, Itoa, KeyShaped, Assignment, LineKey, Edit;
    var t := Targets(key, l);
    assert '\n' !in Itoa(l.pids);
    CurrentAssignment(Order(key)[k], t);
  }

  lemma FullFileEnd(key: string, l: Limits)
    ensures var last := FullFile(key, l)[2]; last != "" && last[|last| - 1] != '\n'
  {
    hide Itoa, PidsKey;
    var digits := Itoa(l.pids);
    assert digits[|digits| - 1] in digits;
    assert FullFile(key, l)[2] == PidsKey(key) + "=" + digits;
  }

  /** The lines of the full file as the editor sees them. */
  lemma FullFileBody(key: string, l: Limits)
    requires (forall c :: c in key ==> KeyChar(c)) && OneLineValues(l)
    ensures var env := Join(FullFile(key, l), '\n'); env != "" && !EndsInNewline(env) && BodyLines(env) == FullFile(key, l)
  {
    hide Join, Split, FullFile, Order, Targets, LineKey, Edit, Assignment;
    FullFileHasThree(key, l);
    FullFileLine(key, l, 0);
    FullFileLine(key, l, 1);
    FullFileLine(key, l, 2);
    FullFileEnd(key, l);
    var lines := FullFile(key, l);
    JoinEndsLikeLast(lines, '\n');
    SplitOfJoin(lines, '\n');
  }

  /** The edit finds every key and changes no line. */
  lemma FullFileUnchanged(key: string, l: Limits)
    requires (forall c :: c in key ==> KeyChar(c)) && OneLineValues(l)
    ensures EditAll(FullFile(key, l), Targets(key, l)) == FullFile(key, l)
    ensures (forall k :: k in Order(key) ==> k in Targets(key, l)) && Appended(FullFile(key, l), Order(key), Targets(key, l)) == []
  {
    hide FullFile, Order, Targets, LineKey, Edit, Assignment, Appended;
    FullFileHasThree(key, l);
    FullFileLine(key, l, 0);
    FullFileLine(key, l, 1);
    FullFileLine(key, l, 2);
    var lines, t := FullFile(key, l), Targets(key, l);
    assert EditAll(lines, t) == lines;
    forall k | k in Order(key)
      ensures OnLine(lines, k)
    {
      var i :| 0 <= i < 3 && Order(key)[i] == k;
      assert LineKey(lines[i]) == Some(k);
    }
    NothingAppended(lines, Order(key), t);
  }

  /** A file without a final newline that already holds the three values: nothing has to change, and a newline is added. */
  lemma FullFileGrows(key: string, l: Limits)
    requires (forall c :: c in key ==> KeyChar(c)) && OneLineValues(l)
    ensures var env := Join(FullFile(key, l), '\n');
            !EndsInNewline(env) && DocumentedText(env, key, l) == env && EditedText(env, key, l) == env + "\n"
  {
    hide Join, Appended, Targets, Order, FullFile, EditAll, BodyLines, EndsInNewline;
    FullFileBody(key, l);
    FullFileUnchanged(key, l);
    var lines := FullFile(key, l);
    assert lines + [] == lines && Join(lines, '\n') + "" == Join(lines, '\n');
  }

  lemma FullFileHasThree(key: string, l: Limits)
    ensures |FullFile(key, l)| == 3 && |Order(key)| == 3
  {
  }

  /** A concrete file on which the documented rule and the editor part ways although nothing is to change. */
  lemma NewlineAddedUnasked()
    ensures var env := "MEMORY_LIMIT_APP=512m" + "\n" + "CPUS_LIMIT_APP=1.0" + "\n" + "PIDS_LIMIT_APP=100";
            var l := Limits("512m", "1.0", 100);
            DocumentedText(env, "APP", l) == env && EditedText(env, "APP", l) == env + "\n"
  {
    hide DocumentedText, EditedText, KeyChar, Join, FullFile, EndsInNewline;
    var l := Limits("512m", "1.0", 100);
    AppFile();
    JoinThreeLines("MEMORY_LIMIT_APP=512m", "CPUS_LIMIT_APP=1.0", "PIDS_LIMIT_APP=100");
    assert forall c :: c in "APP" ==> KeyChar(c) by { AppIsAKey(); }
    FullFileGrows("APP", l);
  }

  lemma AppFile()
    ensures FullFile("APP", Limits("512m", "1.0", 100)) == ["MEMORY_LIMIT_APP=512m", "CPUS_LIMIT_APP=1.0", "PIDS_LIMIT_APP=100"]
  {
    hide Itoa;
    ThreeDigits();
    assert "MEMORY_LIMIT_" + "APP" + "=" + "512m" == "MEMORY_LIMIT_APP=512m";
    assert "CPUS_LIMIT_" + "APP" + "=" + "1.0" == "CPUS_LIMIT_APP=1.0";
    assert "PIDS_LIMIT_" + "APP" + "=" + "100" == "PIDS_LIMIT_APP=100";
  }

  lemma AppIsAKey()
    ensures forall c :: c in "APP" ==> KeyChar(c)
  {
  }

  lemma ThreeDigits()
    ensures Itoa(100) == "100"
  {
    assert Decimal(1) == "1" && Decimal(10) == "10";
  }

  lemma JoinThreeLines(a: string, b: string, c: string)
    ensures Join([a, b, c], '\n') == a + "\n" + b + "\n" + c
  {
    assert [a, b, c][1..] == [b, c] && [b, c][1..] == [c];
    assert Join([b, c], '\n') == b + "\n" + c;
  }

  lemma BodyOfEnded(env: string, all: seq<string>)
    requires env != "" && env[|env| - 1] == '\n' && Split(env, '\n') == all + [""]
    ensures BodyLines(env) == all
  {
    hide Split;
  }

  lemma {:induction false} JoinEnd(parts: seq<string>, sep: char)
    requires parts != []
    ensures Join(parts + [""], sep) == Join(parts, sep) + [sep]
  {
    var all := parts + [""];
    if |parts| == 1 {
      assert all[1..] == [""];
    } else {
      JoinEnd(parts[1..], sep);
      assert all[1..] == parts[1..] + [""];
    }
  }

  lemma RewrittenOneLiners(env: string, key: string, l: Limits)
    requires (forall c :: c in key ==> KeyChar(c)) && OneLineValues(l)
    ensures Rewritten(BodyLines(env), key, l) != []
    ensures forall k :: 0 <= k < |Rewritten(BodyLines(env), key, l)| ==> '\n' !in Rewritten(BodyLines(env), key, l)[k]
  {
    hide Split, LineKey, BodyLines, OnLine, KeyShaped, Edit;
    var lines, t := BodyLines(env), Targets(key, l);
    BodyHasLines(env);
    BodyReadsAlike(env);
    TargetsAreShaped(key, l);
    forall k | k in t
      ensures '\n' !in Assignment(k, t[k])
    {
      ShapedHasNoNewline(k);
    }
    forall k | 0 <= k < |lines|
      ensures '\n' !in EditAll(lines, t)[k]
    {
      EditChoices(lines[k], t);
    }
    AppendedAreAssignments(lines, Order(key), t);
  }

  lemma ShapedHasNoNewline(k: string)
    requires KeyShaped(k)
    ensures '\n' !in k
  {
    assert !KeyChar('\n');
  }

  predicate Assigns(line: string, t: map<string, string>) { exists k :: k in t && line == Assignment(k, t[k]) }

  lemma EditChoices(line: string, t: map<string, string>)
    ensures Edit(line, t) == line || Assigns(Edit(line, t), t)
  {
  }

  lemma {:induction false} AppendedAreAssignments(lines: seq<string>, keys: seq<string>, t: map<string, string>)
    requires forall k :: k in keys ==> k in t
    ensures forall i :: 0 <= i < |Appended(lines, keys, t)| ==> Assigns(Appended(lines, keys, t)[i], t)
    decreases |keys|
  {
    hide OnLine, Assignment, Assigns;
    if keys != [] {
      var n := |keys| - 1;
      AppendedAreAssignments(lines, keys[..n], t);
      assert Assigns(Assignment(keys[n], t[keys[n]]), t) by { AssignmentAssigns(keys[n], t); }
    }
  }

  lemma AssignmentAssigns(k: string, t: map<string, string>)
    requires k in t
    ensures Assigns(Assignment(k, t[k]), t)
  {
    hide Assignment;
  }

  /** The edit is a map update: a file that reads as m reads as m with the three limits afterwards. */
  lemma EditIsMapUpdate(env: string, key: string, l: Limits)
    requires (forall c :: c in key ==> KeyChar(c)) && OneLineValues(l) && ReadEnv(env).Some?
    ensures ReadEnv(EditedText(env, key, l)) == Some(ReadEnv(env).value + Targets(key, l))
  {
    hide Split, BodyLines, Rewritten, Targets, ReadLines, EditedText;
    BodyReadsAlike(env);
    RewrittenReads(BodyLines(env), key, l);
    EditedLines(env, key, l);
    BodyReadsAlike(EditedText(env, key, l));
  }

  /** Byte for byte: a line whose key is not one of the three is where it was, as it was. */
  lemma OtherLinesStay(env: string, key: string, l: Limits, i: nat)
    requires (forall c :: c in key ==> KeyChar(c)) && OneLineValues(l)
    requires i < |BodyLines(env)| && (LineKey(BodyLines(env)[i]).Some? ==> LineKey(BodyLines(env)[i]).value !in Targets(key, l))
    ensures i < |BodyLines(EditedText(env, key, l))| && BodyLines(EditedText(env, key, l))[i] == BodyLines(env)[i]
  {
    hide Split, BodyLines, LineKey, EditedText;
    EditedLines(env, key, l);
  }

  // ---- A later edit absorbs an earlier one ----

  lemma EditTwice(line: string, t1: map<string, string>, t2: map<string, string>)
    requires t1.Keys == t2.Keys && forall k :: k in t1 ==> KeyShaped(k)
    ensures Edit(Edit(line, t1), t2) == Edit(line, t2)
  {
    hide ReadLine, LineKey;
    EditReads(line, t1);
  }

  lemma {:induction false} AppendedTwice(lines: seq<string>, keys: seq<string>, t1: map<string, string>, t2: map<string, string>)
    requires t1.Keys == t2.Keys && (forall k :: k in keys ==> k in t1 && KeyShaped(k))
    ensures EditAll(Appended(lines, keys, t1), t2) == Appended(lines, keys, t2)
    decreases |keys|
  {
    hide OnLine, KeyShaped, Assignment, LineKey;
    if keys != [] {
      var n := |keys| - 1;
      AppendedTwice(lines, keys[..n], t1, t2);
      AssignmentReads(keys[n], t1[keys[n]]);
      var a := Appended(lines, keys[..n], t1);
      var last := Assignment(keys[n], t1[keys[n]]);
      assert Edit(last, t2) == Assignment(keys[n], t2[keys[n]]);
      assert EditAll(a + [last], t2) == EditAll(a, t2) + [Edit(last, t2)];
    }
  }

  /** After an edit every target is on some line. */
  lemma TargetOnLine(lines: seq<string>, key: string, l: Limits, k: string)
    requires k in Order(key) && forall c :: c in key ==> KeyChar(c)
    ensures OnLine(Rewritten(lines, key, l), k)
  {
    hide LineKey, MemoryKey, CpusKey, PidsKey, Edit, KeyShaped, Assignment;
    var t := Targets(key, l);
    TargetsAreShaped(key, l);
    if OnLine(lines, k) {
      var i :| 0 <= i < |lines| && LineKey(lines[i]) == Some(k);
      EditReads(lines[i], t);
      assert LineKey(Rewritten(lines, key, l)[i]) == Some(k);
    } else {
      var j := AppendedAt(lines, Order(key), t, k);
      AssignmentReads(k, t[k]);
      assert LineKey(Rewritten(lines, key, l)[|lines| + j]) == Some(k);
    }
  }

  lemma {:induction false} AppendedAt(lines: seq<string>, keys: seq<string>, t: map<string, string>, k: string) returns (j: nat)
    requires (forall x :: x in keys ==> x in t) && k in keys && !OnLine(lines, k)
    ensures j < |Appended(lines, keys, t)| && Appended(lines, keys, t)[j] == Assignment(k, t[k])
    decreases |keys|
  {
    hide OnLine, Assignment;
    var n := |keys| - 1;
    if keys[n] == k {
      j := |Appended(lines, keys[..n], t)|;
    } else {
      assert keys == keys[..n] + [keys[n]];
      j := AppendedAt(lines, keys[..n], t, k);
    }
  }

  lemma {:induction false} NothingAppended(lines: seq<string>, keys: seq<string>, t: map<string, string>)
    requires forall k :: k in keys ==> k in t && OnLine(lines, k)
    ensures Appended(lines, keys, t) == []
    decreases |keys|
  {
    hide OnLine;
    if keys != [] {
      NothingAppended(lines, keys[..|keys| - 1], t);
    }
  }

  lemma RewrittenTwice(lines: seq<string>, key: string, first: Limits, second: Limits)
    requires forall c :: c in key ==> KeyChar(c)
    ensures Rewritten(Rewritten(lines, key, first), key, second) == Rewritten(lines, key, second)
  {
    hide LineKey, OnLine, KeyShaped, Edit;
    var t1, t2 := Targets(key, first), Targets(key, second);
    var once := Rewritten(lines, key, first);
    TargetsAreShaped(key, first);
    forall k | k in Order(key)
      ensures OnLine(once, k)
    {
      TargetOnLine(lines, key, first, k);
    }
    NothingAppended(once, Order(key), t2);
    AppendedTwice(lines, Order(key), t1, t2);
    forall i | 0 <= i < |lines|
      ensures Edit(Edit(lines[i], t1), t2) == Edit(lines[i], t2)
    {
      EditTwice(lines[i], t1, t2);
    }
    assert EditAll(once, t2) == EditAll(EditAll(lines, t1), t2) + EditAll(Appended(lines, Order(key), t1), t2);
    assert EditAll(EditAll(lines, t1), t2) == EditAll(lines, t2);
  }

  /** Two edits of one service leave the bytes the second alone would have left. */
  lemma LaterEditAbsorbs(env: string, key: string, first: Limits, second: Limits)
    requires (forall c :: c in key ==> KeyChar(c)) && OneLineValues(first)
    ensures EditedText(EditedText(env, key, first), key, second) == EditedText(env, key, second)
  {
    hide Split, BodyLines, Rewritten, Join;
    EditedLines(env, key, first);
    RewrittenTwice(BodyLines(env), key, first, second);
  }

  /** An edit of another service leaves this service's limits as they read. */
  lemma OtherServiceKeepsLimits(env: string, key: string, l: Limits, other: string)
    requires (forall c :: c in key ==> KeyChar(c)) && OneLineValues(l) && ReadEnv(env).Some? && other != key
    ensures ReadEnv(EditedText(env, key, l)).Some?
    ensures forall k :: k in Order(other) ==>
              k !in Targets(key, l) &&
              (k in ReadEnv(env).value <==> k in ReadEnv(EditedText(env, key, l)).value) &&
              (k in ReadEnv(env).value ==> ReadEnv(EditedText(env, key, l)).value[k] == ReadEnv(env).value[k])
  {
    hide ReadEnv, EditedText;
    EditIsMapUpdate(env, key, l);
    KeysDiffer(key, other);
    KeysDiffer(other, key);
  }
}
