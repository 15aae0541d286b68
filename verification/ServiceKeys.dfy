// The .env key of a service (serviceKey, internal/core/install.go:305-321) and the index that
// keeps the keys of one app apart (internal/core/install_phase_plan.go:1290-1331).
module ServiceKeys {
  import opened Wrappers
  import opened Text
  import opened EnvFile

  // One-character upper-casing, strings.ToUpper rune by rune.
  type Upper = char -> char

  predicate Allowed(c: char) { 'A' <= c <= 'Z' || IsDigit(c) }

  function UpperCase(upper: Upper, s: string): (r: string)
    ensures |r| == |s|
  {
    seq(|s|, k requires 0 <= k < |s| => upper(s[k]))
  }

  /** The maximal runs of allowed characters, in order. */
  function Words(s: string): (words: seq<string>)
    ensures forall k :: 0 <= k < |words| ==> words[k] != "" && forall c :: c in words[k] ==> Allowed(c)
    ensures s != "" && Allowed(s[|s| - 1]) ==> words != []
  {
    if s == "" then []
    else
      var n := |s| - 1;
      var before := Words(s[..n]);
      if !Allowed(s[n]) then before
      else if n > 0 && Allowed(s[n - 1]) then before[|before| - 1 := before[|before| - 1] + [s[n]]]
      else before + [[s[n]]]
  }

  /** A service's key: the words of its upper-cased name joined by single underscores. */
  function KeyOf(upper: Upper, service: string): string { Join(Words(UpperCase(upper, service)), '_') }

  lemma {:induction false} JoinSnoc(words: seq<string>, last: string, sep: char)
    requires words != []
    ensures Join(words + [last], sep) == Join(words, sep) + [sep] + last
  {
    var all := words + [last];
    if |words| == 1 {
      assert all[1..] == [last];
    } else {
      JoinSnoc(words[1..], last, sep);
      assert all[1..] == words[1..] + [last];
      assert all[0] == words[0];
    }
  }

  lemma {:induction false} JoinExtend(words: seq<string>, c: char, sep: char)
    requires words != []
    ensures Join(words[|words| - 1 := words[|words| - 1] + [c]], sep) == Join(words, sep) + [c]
  {
    var n := |words| - 1;
    var all := words[n := words[n] + [c]];
    if n > 0 {
      assert all[1..] == words[1..][n - 1 := words[1..][n - 1] + [c]];
      JoinExtend(words[1..], c, sep);
    }
  }

  function Lead(s: string): string { if s != "" && !Allowed(s[0]) then "_" else "" }

  function Tail(s: string): string { if s != "" && Words(s) != [] && !Allowed(s[|s| - 1]) then "_" else "" }

  /** What the builder holds: a leading underscore, the words so far, and a trailing underscore. */
  function Built(s: string): string { Lead(s) + Join(Words(s), '_') + Tail(s) }

  lemma FirstWord(s: string)
    requires s != "" && Allowed(s[0])
    ensures Words(s) != []
  {
    if |s| > 1 {
      FirstWord(s[..|s| - 1]);
    }
  }

  lemma WordsStep(s: string, c: char)
    ensures Words(s + [c]) ==
            if !Allowed(c) then Words(s)
            else if s != "" && Allowed(s[|s| - 1]) then Words(s)[|Words(s)| - 1 := Words(s)[|Words(s)| - 1] + [c]]
            else Words(s) + [[c]]
  {
    assert (s + [c])[..|s|] == s;
  }

  // The builder's next content.
  function Pushed(s: string, c: char): string {
    if Allowed(c) then Built(s) + [c]
    else if s != "" && !Allowed(s[|s| - 1]) then Built(s)
    else Built(s) + "_"
  }

  lemma BuiltFirst(c: char)
    ensures Built([c]) == Pushed("", c)
  {
    hide Join, Words;
    assert "" + [c] == [c];
    WordsStep("", c);
    JoinFew([c]);
    NoWords();
    BuiltOfNothing();
    assert Words("") + [[c]] == [[c]] && Tail([c]) == "";
    assert Lead([c]) == if Allowed(c) then "" else "_";
  }

  lemma BuiltAfterUnderscore(s: string, c: char)
    requires s != "" && Words(s) == []
    ensures Built(s + [c]) == Pushed(s, c)
  {
    hide Join, Words;
    WordsStep(s, c);
    JoinFew([c]);
    if Allowed(s[0]) {
      FirstWord(s);
    }
    assert Tail(s) == "" && Lead(s) == "_" && Built(s) == "_";
    assert Words(s) + [[c]] == [[c]];
    assert Lead(s + [c]) == "_" && Tail(s + [c]) == "";
  }

  lemma Concatenations(lead: string, core: string, c: char)
    ensures lead + (core + [c]) + "" == lead + core + "" + [c]
    ensures lead + (core + "_" + [c]) + "" == lead + core + "_" + [c]
    ensures lead + core + "_" == lead + core + "" + "_"
  {
  }

  lemma TailAfterWord(s: string, c: char)
    requires s != "" && Words(s) != []
    ensures Lead(s + [c]) == Lead(s) && Tail(s + [c]) == (if Allowed(c) then "" else "_")
    ensures Tail(s) == if Allowed(s[|s| - 1]) then "" else "_"
  {
    hide Words;
    WordsStep(s, c);
  }

  lemma JoinOneMore(words: seq<string>, next: seq<string>, allowed: bool, open: bool, c: char)
    requires words != []
    requires next == if !allowed then words else if open then words[|words| - 1 := words[|words| - 1] + [c]] else words + [[c]]
    ensures Join(next, '_') ==
            if !allowed then Join(words, '_') else if open then Join(words, '_') + [c] else Join(words, '_') + "_" + [c]
  {
    hide Join;
    if allowed && open {
      JoinExtend(words, c, '_');
    } else if allowed {
      JoinSnoc(words, [c], '_');
    }
  }

  lemma JoinAfterWord(s: string, c: char)
    requires s != "" && Words(s) != []
    ensures var core, next := Join(Words(s), '_'), Join(Words(s + [c]), '_');
            next == if !Allowed(c) then core else if Allowed(s[|s| - 1]) then core + [c] else core + "_" + [c]
  {
    hide Join, Words, Allowed;
    WordsStep(s, c);
    JoinOneMore(Words(s), Words(s + [c]), Allowed(c), Allowed(s[|s| - 1]), c);
  }

  lemma BuiltAfterWord(s: string, c: char)
    requires s != "" && Words(s) != []
    ensures Built(s + [c]) == Pushed(s, c)
  {
    hide Join, Words, Lead, Tail, Allowed;
    JoinAfterWord(s, c);
    TailAfterWord(s, c);
    var lead, core := Lead(s), Join(Words(s), '_');
    Concatenations(lead, core, c);
    if Allowed(s[|s| - 1]) {
      assert Built(s) == lead + core + "";
    } else {
      assert Built(s) == lead + core + "_";
    }
  }

  lemma BuiltStep(s: string, c: char)
    ensures Built(s + [c]) == Pushed(s, c)
  {
    hide Join, Words, Built, Pushed;
    if s == "" {
      assert s + [c] == [c];
      BuiltFirst(c);
    } else if Words(s) == [] {
      BuiltAfterUnderscore(s, c);
    } else {
      BuiltAfterWord(s, c);
    }
  }

  lemma NoWords()
    ensures Words("") == []
  {
  }

  lemma BuiltOfNothing()
    ensures Built("") == ""
  {
  }

  lemma JoinFew(w: string)
    ensures Join([], '_') == "" && Join([w], '_') == w
  {
  }

  function TrimUnderscores(s: string): string {
    if s != "" && s[0] == '_' then TrimUnderscores(s[1..])
    else if s != "" && s[|s| - 1] == '_' then TrimUnderscores(s[..|s| - 1])
    else s
  }

  /** A nonempty join of words begins and ends with an allowed character. */
  lemma {:induction false} JoinEnds(words: seq<string>)
    requires words != [] && forall k :: 0 <= k < |words| ==> words[k] != "" && forall c :: c in words[k] ==> Allowed(c)
    ensures var s := Join(words, '_'); s != "" && Allowed(s[0]) && Allowed(s[|s| - 1])
  {
    var w := words[0];
    assert w[0] in w && w[|w| - 1] in w;
    if |words| > 1 {
      JoinEnds(words[1..]);
      var rest := Join(words[1..], '_');
      assert Join(words, '_') == w + "_" + rest;
    }
  }

  lemma TrimCore(core: string)
    requires core != "" && core[0] != '_' && core[|core| - 1] != '_'
    ensures TrimUnderscores(core) == core && TrimUnderscores(core + "_") == core
    ensures TrimUnderscores("_" + core) == core && TrimUnderscores("_" + core + "_") == core
  {
    assert (core + "_")[..|core|] == core;
    assert ("_" + core)[1..] == core;
    assert ("_" + core + "_")[1..] == core + "_";
  }

  lemma TrimPadded(lead: string, core: string, tail: string)
    requires lead in ["", "_"] && tail in ["", "_"] && core != "" && core[0] != '_' && core[|core| - 1] != '_'
    ensures TrimUnderscores(lead + core + tail) == core
  {
    hide TrimUnderscores;
    TrimCore(core);
    assert "" + core + "" == core && "" + core + "_" == core + "_" && "_" + core + "" == "_" + core;
  }

  lemma TrimNothing()
    ensures TrimUnderscores("") == "" && TrimUnderscores("_") == ""
  {
    assert "_"[1..] == "";
  }

  lemma TrimBuilt(s: string)
    ensures TrimUnderscores(Built(s)) == Join(Words(s), '_')
  {
    hide Join, Words, TrimUnderscores;
    var core := Join(Words(s), '_');
    if Words(s) == [] {
      JoinFew("");
      TrimNothing();
      assert Tail(s) == "" && Built(s) == Lead(s);
    } else {
      JoinEnds(Words(s));
      TrimPadded(Lead(s), core, Tail(s));
    }
  }

  /** serviceKey: one pass with a builder and the last-underscore flag, then a trim. */
  method ServiceKey(upper: Upper, service: string) returns (key: string)
    ensures key == KeyOf(upper, service)
  {
    hide Join, Words, Built;
    var text := UpperCase(upper, service);
    var b := "";
    var lastUnderscore := false;
    assert Built(text[..0]) == "" by { BuiltOfNothing(); }
    for i := 0 to |text|
      invariant b == Built(text[..i])
      invariant lastUnderscore <==> i > 0 && !Allowed(text[i - 1])
    {
      BuiltStep(text[..i], text[i]);
      assert text[..i] + [text[i]] == text[..i + 1];
      if Allowed(text[i]) {
        b := b + [text[i]];
        lastUnderscore := false;
        continue;
      }
      if !lastUnderscore {
        b := b + "_";
        lastUnderscore := true;
      }
    }
    assert text[..|text|] == text;
    TrimBuilt(text);
    key := TrimUnderscores(b);
  }

  lemma {:induction false} JoinChars(words: seq<string>)
    requires forall k :: 0 <= k < |words| ==> forall c :: c in words[k] ==> Allowed(c)
    ensures forall c :: c in Join(words, '_') ==> KeyChar(c)
  {
    if |words| > 1 {
      JoinChars(words[1..]);
    }
  }

  /** Keys are made of upper-case letters, digits and underscores. */
  lemma KeyIsShaped(upper: Upper, service: string)
    ensures forall c :: c in KeyOf(upper, service) ==> KeyChar(c)
  {
    hide Join, Words;
    JoinChars(Words(UpperCase(upper, service)));
  }

  // ---- Keys read off the names ----

  /** Every character upper-cases to a letter A to Z or a digit 0 to 9. */
  predicate Plain(upper: Upper, name: string) {
    name != "" && forall c :: c in name ==> 'A' <= upper(c) <= 'Z' || '0' <= upper(c) <= '9'
  }

  lemma {:induction false} WordsOfWord(s: string)
    requires s != "" && forall c :: c in s ==> 'A' <= c <= 'Z' || '0' <= c <= '9'
    ensures Words(s) == [s]
  {
    var n := |s| - 1;
    assert s == s[..n] + [s[n]] && s[n] in s;
    if n > 0 {
      assert s[..n] != "" && forall c :: c in s[..n] ==> c in s;
      WordsOfWord(s[..n]);
      assert s[n - 1] in s;
    } else {
      assert Words(s[..0]) == [];
    }
  }

  /** Any other character separates words, whatever stands around it. */
  lemma {:induction false} WordsAround(a: string, c: char, b: string)
    requires !('A' <= c <= 'Z' || '0' <= c <= '9')
    ensures Words(a + [c] + b) == Words(a) + Words(b)
    decreases |b|
  {
    hide Words;
    if b == "" {
      assert a + [c] + b == a + [c];
      WordsStep(a, c);
      NoWords();
    } else {
      var n := |b| - 1;
      var before := a + [c] + b[..n];
      assert a + [c] + b == before + [b[n]] && b == b[..n] + [b[n]];
      WordsAround(a, c, b[..n]);
      WordsStep(before, b[n]);
      WordsStep(b[..n], b[n]);
      EndsInWord(b[..n]);
      assert n > 0 ==> before[|before| - 1] == b[n - 1];
    }
  }

  lemma EndsInWord(s: string)
    ensures s != "" && Allowed(s[|s| - 1]) ==> Words(s) != []
    ensures Words("") == []
  {
  }

  function AllUpperCase(upper: Upper, names: seq<string>): seq<string> {
    seq(|names|, k requires 0 <= k < |names| => UpperCase(upper, names[k]))
  }

  lemma {:induction false} WordsOfNames(upper: Upper, names: seq<string>, sep: char)
    requires names != [] && forall k :: 0 <= k < |names| ==> Plain(upper, names[k])
    requires !('A' <= upper(sep) <= 'Z' || '0' <= upper(sep) <= '9')
    ensures Words(UpperCase(upper, Join(names, sep))) == AllUpperCase(upper, names)
  {
    hide Words;
    var first := UpperCase(upper, names[0]);
    assert forall k :: 0 <= k < |first| ==> names[0][k] in names[0];
    WordsOfWord(first);
    if |names| == 1 {
      assert AllUpperCase(upper, names) == [first];
    } else {
      var rest := Join(names[1..], sep);
      WordsOfNames(upper, names[1..], sep);
      WordsAround(first, upper(sep), UpperCase(upper, rest));
      assert UpperCase(upper, names[0] + [sep] + rest) == first + [upper(sep)] + UpperCase(upper, rest);
      assert AllUpperCase(upper, names) == [first] + AllUpperCase(upper, names[1..]);
    }
  }

  /** The key of plain names with one other character between them is the names upper-cased, joined by underscores. */
  lemma KeyOfNames(upper: Upper, names: seq<string>, sep: char)
    requires names != [] && forall k :: 0 <= k < |names| ==> Plain(upper, names[k])
    requires !('A' <= upper(sep) <= 'Z' || '0' <= upper(sep) <= '9')
    ensures KeyOf(upper, Join(names, sep)) == Join(AllUpperCase(upper, names), '_')
  {
    hide Words, Join;
    WordsOfNames(upper, names, sep);
  }

  /** A plain name is its own key, character by character. */
  lemma KeyOfPlainName(upper: Upper, name: string)
    requires Plain(upper, name)
    ensures |KeyOf(upper, name)| == |name| && forall k :: 0 <= k < |name| ==> KeyOf(upper, name)[k] == upper(name[k])
  {
    hide Words;
    assert forall k :: 0 <= k < |name| ==> name[k] in name;
    WordsOfWord(UpperCase(upper, name));
  }

  /** Other characters at either end, or more than one in a row, leave no trace in the key. */
  lemma KeyIgnoresPadding(upper: Upper, a: string, c: char, d: char, b: string)
    requires !('A' <= upper(c) <= 'Z' || '0' <= upper(c) <= '9') && !('A' <= upper(d) <= 'Z' || '0' <= upper(d) <= '9')
    ensures KeyOf(upper, a + [c]) == KeyOf(upper, a) && KeyOf(upper, [c] + b) == KeyOf(upper, b)
    ensures KeyOf(upper, a + [c] + [d] + b) == KeyOf(upper, a + [c] + b)
  {
    hide Words, Join;
    var ua, ub := UpperCase(upper, a), UpperCase(upper, b);
    NoWords();
    WordsAround(ua, upper(c), "");
    WordsAround("", upper(c), ub);
    WordsAround(ua, upper(c), ub);
    WordsAround(ua + [upper(c)], upper(d), ub);
    assert Words(ua) + [] == Words(ua) && [] + Words(ub) == Words(ub);
    assert UpperCase(upper, a + [c]) == ua + [upper(c)] + "" == ua + [upper(c)];
    assert UpperCase(upper, [c] + b) == "" + [upper(c)] + ub;
    assert UpperCase(upper, a + [c] + b) == ua + [upper(c)] + ub;
    assert UpperCase(upper, a + [c] + [d] + b) == ua + [upper(c)] + [upper(d)] + ub;
  }

  /** Two services get the same key exactly when their names have the same words. */
  lemma SameKeyIffSameWords(upper: Upper, a: string, b: string)
    ensures KeyOf(upper, a) == KeyOf(upper, b) <==> Words(UpperCase(upper, a)) == Words(UpperCase(upper, b))
    ensures KeyOf(upper, a) == "" <==> Words(UpperCase(upper, a)) == []
  {
    hide Join, Words;
    var v, w := Words(UpperCase(upper, a)), Words(UpperCase(upper, b));
    JoinFew("");
    WordsApart(v);
    WordsApart(w);
    if v != [] {
      JoinEnds(v);
    }
    if w != [] {
      JoinEnds(w);
    }
    if v != [] && w != [] {
      SplitOfJoin(v, '_');
      SplitOfJoin(w, '_');
    }
  }

  lemma WordsApart(words: seq<string>)
    requires forall k :: 0 <= k < |words| ==> words[k] != "" && forall c :: c in words[k] ==> Allowed(c)
    ensures forall k :: 0 <= k < |words| ==> '_' !in words[k]
  {
    assert !Allowed('_');
  }

  // ---- The index ----

  datatype MemoryBand = MemoryBand(min: string, recommended: string, max: string)

  datatype PidsBand = PidsBand(default: GoInt, max: GoInt)

  // A catalog resource profile.
  datatype Profile = Profile(service: string, memory: MemoryBand, cpus: MemoryBand, pids: PidsBand, allowOverride: bool)

  /** No service and no key occurs twice, and no key is empty. */
  predicate Indexable(upper: Upper, profiles: seq<Profile>) {
    && (forall i :: 0 <= i < |profiles| ==> KeyOf(upper, profiles[i].service) != "")
    && (forall i, j :: 0 <= i < j < |profiles| ==> KeyOf(upper, profiles[i].service) != KeyOf(upper, profiles[j].service))
  }

  function IndexOf(profiles: seq<Profile>): map<string, Profile> {
    if profiles == [] then map[]
    else IndexOf(profiles[..|profiles| - 1])[profiles[|profiles| - 1].service := profiles[|profiles| - 1]]
  }

  lemma {:induction false} IndexHolds(profiles: seq<Profile>, service: string)
    requires forall i, j :: 0 <= i < j < |profiles| ==> profiles[i].service != profiles[j].service
    ensures service in IndexOf(profiles) <==> exists i :: 0 <= i < |profiles| && profiles[i].service == service
    ensures forall i :: 0 <= i < |profiles| && profiles[i].service == service ==> IndexOf(profiles)[service] == profiles[i]
  {
    if profiles != [] {
      IndexHolds(profiles[..|profiles| - 1], service);
    }
  }

  lemma {:induction false} NoWordsExactly(s: string)
    ensures Words(s) == [] <==> forall c :: c in s ==> !('A' <= c <= 'Z' || '0' <= c <= '9')
  {
    if s != "" {
      var front, last := s[..|s| - 1], s[|s| - 1];
      NoWordsExactly(front);
      assert s == front + [last];
      assert last in s && forall c :: c in front ==> c in s;
      WordsStep(front, last);
      EndsInWord(s);
    }
  }

  /** Spelled out: every name has a letter or digit, and no two names have the same key. */
  lemma IndexableExactly(upper: Upper, profiles: seq<Profile>)
    ensures Indexable(upper, profiles) <==>
              && (forall p :: p in profiles ==> exists c :: c in p.service && ('A' <= upper(c) <= 'Z' || '0' <= upper(c) <= '9'))
              && (forall i, j :: 0 <= i < j < |profiles| ==> KeyOf(upper, profiles[i].service) != KeyOf(upper, profiles[j].service))
  {
    hide Words, KeyOf;
    forall p | p in profiles
      ensures KeyOf(upper, p.service) != "" <==> exists c :: c in p.service && ('A' <= upper(c) <= 'Z' || '0' <= upper(c) <= '9')
    {
      KeyNotEmptyExactly(upper, p.service);
    }
  }

  lemma KeyNotEmptyExactly(upper: Upper, service: string)
    ensures KeyOf(upper, service) != "" <==> exists c :: c in service && ('A' <= upper(c) <= 'Z' || '0' <= upper(c) <= '9')
  {
    hide Words, KeyOf;
    SameKeyIffSameWords(upper, service, service);
    NoWordsExactly(UpperCase(upper, service));
    var name := UpperCase(upper, service);
    if c :| c in service && ('A' <= upper(c) <= 'Z' || '0' <= upper(c) <= '9') {
      var k :| 0 <= k < |service| && service[k] == c;
      assert name[k] == upper(c) && upper(c) in name;
    }
    if c :| c in name && ('A' <= c <= 'Z' || '0' <= c <= '9') {
      var k :| 0 <= k < |name| && name[k] == c;
      assert service[k] in service && upper(service[k]) == c;
    }
  }

  function KeysOf(upper: Upper, profiles: seq<Profile>): set<string> { set p | p in profiles :: KeyOf(upper, p.service) }

  function ServicesOf(profiles: seq<Profile>): set<string> { set p | p in profiles :: p.service }

  lemma IndexableStep(upper: Upper, profiles: seq<Profile>, p: Profile)
    requires Indexable(upper, profiles)
    ensures Indexable(upper, profiles + [p]) <==> KeyOf(upper, p.service) != "" && KeyOf(upper, p.service) !in KeysOf(upper, profiles)
    ensures KeysOf(upper, profiles + [p]) == KeysOf(upper, profiles) + {KeyOf(upper, p.service)}
    ensures ServicesOf(profiles + [p]) == ServicesOf(profiles) + {p.service}
    ensures p.service in ServicesOf(profiles) ==> KeyOf(upper, p.service) in KeysOf(upper, profiles)
  {
    hide KeyOf;
    var longer := profiles + [p];
    assert longer[|profiles|] == p && forall i :: 0 <= i < |profiles| ==> longer[i] == profiles[i];
  }

  lemma IndexablePrefix(upper: Upper, profiles: seq<Profile>, n: nat)
    requires n <= |profiles| && Indexable(upper, profiles)
    ensures Indexable(upper, profiles[..n])
  {
    hide KeyOf;
  }

  lemma IndexStep(profiles: seq<Profile>, p: Profile)
    ensures IndexOf(profiles + [p]) == IndexOf(profiles)[p.service := p]
  {
    assert (profiles + [p])[..|profiles|] == profiles;
  }

  lemma NoProfiles(upper: Upper)
    ensures Indexable(upper, []) && KeysOf(upper, []) == {} && ServicesOf([]) == {} && IndexOf([]) == map[]
  {
  }

  /** indexResourceProfiles: accepted exactly when the keys are nonempty and distinct. */
  method IndexResourceProfiles(upper: Upper, profiles: seq<Profile>) returns (index: Option<map<string, Profile>>)
    ensures index.Some? <==> Indexable(upper, profiles)
    ensures index.Some? ==> index.value == IndexOf(profiles)
  {
    hide KeyOf, Indexable, KeysOf, ServicesOf, IndexOf;
    var byService: map<string, Profile> := map[];
    var keys: set<string> := {};
    NoProfiles(upper);
    assert profiles[..0] == [];
    for i := 0 to |profiles|
      invariant Indexable(upper, profiles[..i])
      invariant byService == IndexOf(profiles[..i]) && byService.Keys == ServicesOf(profiles[..i])
      invariant keys == KeysOf(upper, profiles[..i])
    {
      var p := profiles[i];
      assert profiles[..i + 1] == profiles[..i] + [p];
      IndexableStep(upper, profiles[..i], p);
      IndexStep(profiles[..i], p);
      if !Indexable(upper, profiles[..i + 1]) {
        NotIndexable(upper, profiles, i + 1);
      }
      if p.service in byService {
        return None;
      }
      var key := ServiceKey(upper, p.service);
      if key == "" || key in keys {
        return None;
      }
      keys := keys + {key};
      byService := byService[p.service := p];
    }
    assert profiles[..|profiles|] == profiles;
    index := Some(byService);
  }

  lemma NotIndexable(upper: Upper, profiles: seq<Profile>, n: nat)
    requires n <= |profiles| && !Indexable(upper, profiles[..n])
    ensures !Indexable(upper, profiles)
  {
    hide Indexable;
    if Indexable(upper, profiles) {
      IndexablePrefix(upper, profiles, n);
    }
  }

  /** Two services of an accepted index share no limit variable. */
  lemma IndexKeepsLimitsApart(upper: Upper, profiles: seq<Profile>, i: nat, j: nat)
    requires Indexable(upper, profiles) && i < |profiles| && j < |profiles| && i != j
    ensures forall k :: k in Order(KeyOf(upper, profiles[i].service)) ==> k !in Order(KeyOf(upper, profiles[j].service))
  {
    hide KeyOf, MemoryKey, CpusKey, PidsKey;
    var a, b := KeyOf(upper, profiles[i].service), KeyOf(upper, profiles[j].service);
    assert a != b;
    KeysDiffer(a, b);
    KeysDiffer(b, a);
  }
}
