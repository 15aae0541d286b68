// Resource limits: choosing and overriding them at install
// (internal/core/install_phase_plan.go:1357-1472, 1529-1614), and changing them afterwards
// (internal/core/reconfigure.go:173-305, internal/core/reconfigure_apply.go:40-103).
module Resources {
  import opened Wrappers
  import opened Text
  import opened EnvFile
  import opened ServiceKeys

  // validateCPUOverride goes through floating point and is not looked into.
  type CpuRule = (Profile, string) -> bool

  // strconv.ParseFloat succeeds with a positive value.
  type CpuSyntax = string -> bool

  // ---- Memory values ----

  function Multiplier(unit: char): Option<nat> {
    match unit
    case 'b' => Some(1)
    case 'k' => Some(1024)
    case 'm' => Some(1024 * 1024)
    case 'g' => Some(1024 * 1024 * 1024)
    case _ => None
  }

  /** parseMemoryBytes, with the overflow guard on the quotient as written. */
  function ParseMemoryBytes(value: string): Option<nat> {
    if value == "" || Multiplier(value[|value| - 1]).None? then None
    else
      var multiplier := Multiplier(value[|value| - 1]).value;
      var amount := ParseUint64(value[..|value| - 1]);
      if amount.None? || amount.value == 0 || multiplier == 0 || amount.value > MAX_UINT64 / multiplier then None
      else Some(amount.value * multiplier)
  }

  lemma QuotientGuard(amount: nat, multiplier: nat)
    requires multiplier in {1, 1024, 1024 * 1024, 1024 * 1024 * 1024}
    ensures amount <= MAX_UINT64 / multiplier <==> amount * multiplier <= MAX_UINT64
  {
    if multiplier == 1 {
    } else if multiplier == 1024 {
    } else if multiplier == 1024 * 1024 {
    } else {
      assert multiplier == 1024 * 1024 * 1024;
    }
  }

  /** A memory value is accepted exactly when its true product is positive and fits 64 bits, and is then that product. */
  lemma MemoryIsTheExactProduct(number: string, unit: char)
    ensures ParseMemoryBytes(number + [unit]) ==
            if Multiplier(unit).Some? && number != "" && AllDigits(number) &&
               0 < DecimalValue(number) * Multiplier(unit).value <= MAX_UINT64
            then Some(DecimalValue(number) * Multiplier(unit).value) else None
  {
    hide DecimalValue;
    var value := number + [unit];
    assert value[..|value| - 1] == number;
    if Multiplier(unit).Some? && number != "" && AllDigits(number) {
      var amount, multiplier := DecimalValue(number), Multiplier(unit).value;
      QuotientGuard(amount, multiplier);
      assert amount <= amount * multiplier;
    }
  }

  /** The four units, and no other: a count of bytes, of 1024, of 1024^2 or of 1024^3 bytes. */
  lemma MemoryUnits(n: nat, unit: char)
    requires n > 0
    ensures n <= MAX_UINT64 ==> ParseMemoryBytes(Itoa(n) + "b") == Some(n)
    ensures n * 1024 <= MAX_UINT64 ==> ParseMemoryBytes(Itoa(n) + "k") == Some(n * 1024)
    ensures n * 1048576 <= MAX_UINT64 ==> ParseMemoryBytes(Itoa(n) + "m") == Some(n * 1048576)
    ensures n * 1073741824 <= MAX_UINT64 ==> ParseMemoryBytes(Itoa(n) + "g") == Some(n * 1073741824)
    ensures unit !in "bkmg" ==> ParseMemoryBytes(Itoa(n) + [unit]) == None
  {
    hide ParseMemoryBytes, DecimalValue;
    MemoryIsTheExactProduct(Itoa(n), 'b');
    MemoryIsTheExactProduct(Itoa(n), 'k');
    MemoryIsTheExactProduct(Itoa(n), 'm');
    MemoryIsTheExactProduct(Itoa(n), 'g');
    MemoryIsTheExactProduct(Itoa(n), unit);
    assert "b" == ['b'] && "k" == ['k'] && "m" == ['m'] && "g" == ['g'];
  }

  lemma ParsedMemoryIsOneLine(value: string)
    requires ParseMemoryBytes(value).Some?
    ensures '\n' !in value
  {
    hide DecimalValue;
    assert value == value[..|value| - 1] + [value[|value| - 1]];
    assert AllDigits(value[..|value| - 1]);
  }

  // ---- Bands ----

  datatype Selected = Selected(memory: string, cpus: string, pids: GoInt)

  // Empty strings and zero leave a limit as it is.
  datatype Override = Override(service: string, memory: string, cpus: string, pids: GoInt)

  /** validateMemoryOverride. */
  predicate MemoryInBand(p: Profile, value: string) {
    var got, low, high := ParseMemoryBytes(value), ParseMemoryBytes(p.memory.min), ParseMemoryBytes(p.memory.max);
    got.Some? && low.Some? && high.Some? && low.value <= got.value <= high.value
  }

  predicate PidsInBand(p: Profile, pids: int) { 1 <= pids <= p.pids.max }

  predicate InBand(p: Profile, s: Selected) { MemoryInBand(p, s.memory) && PidsInBand(p, s.pids) }

  /** What the catalog declares: min <= recommended <= max, and the pids default within 1..max. */
  predicate BandsOrdered(p: Profile) {
    && MemoryInBand(p, p.memory.min) && MemoryInBand(p, p.memory.recommended) && PidsInBand(p, p.pids.default)
  }

  predicate LimitsAccepted(cpuOk: CpuRule, p: Profile, o: Override) {
    && (o.memory != "" ==> MemoryInBand(p, o.memory))
    && (o.cpus != "" ==> cpuOk(p, o.cpus))
    && (o.pids != 0 ==> PidsInBand(p, o.pids))
  }

  function Merged(chosen: Selected, o: Override): Selected {
    Selected(if o.memory != "" then o.memory else chosen.memory,
             if o.cpus != "" then o.cpus else chosen.cpus,
             if o.pids != 0 then o.pids else chosen.pids)
  }

  /** applyResourceLimitOverride: each limit that is set is checked and replaced in turn. */
  method ApplyResourceLimitOverride(cpuOk: CpuRule, chosen: Selected, p: Profile, o: Override) returns (r: Option<Selected>)
    ensures r == if LimitsAccepted(cpuOk, p, o) then Some(Merged(chosen, o)) else None
    ensures r.Some? && InBand(p, chosen) ==> InBand(p, r.value)
  {
    hide MemoryInBand;
    var next := chosen;
    if o.memory != "" {
      if !MemoryInBand(p, o.memory) {
        return None;
      }
      next := next.(memory := o.memory);
    }
    if o.cpus != "" {
      if !cpuOk(p, o.cpus) {
        return None;
      }
      next := next.(cpus := o.cpus);
    }
    if o.pids != 0 {
      if !PidsInBand(p, o.pids) {
        return None;
      }
      next := next.(pids := o.pids);
    }
    r := Some(next);
  }

  // ---- Install ----

  function Choice(p: Profile, useMin: bool): Selected {
    if useMin then Selected(p.memory.min, p.cpus.min, p.pids.default)
    else Selected(p.memory.recommended, p.cpus.recommended, p.pids.default)
  }

  ghost predicate AllInBand(profiles: seq<Profile>, selected: map<string, Selected>) {
    forall i :: 0 <= i < |profiles| ==> profiles[i].service in selected && InBand(profiles[i], selected[profiles[i].service])
  }

  predicate ServicesDiffer(profiles: seq<Profile>) {
    forall i, j :: 0 <= i < j < |profiles| ==> profiles[i].service != profiles[j].service
  }

  /** selectResourceProfiles. */
  method SelectResourceProfiles(profiles: seq<Profile>, useMin: bool) returns (selected: map<string, Selected>)
    requires ServicesDiffer(profiles)
    ensures forall i :: 0 <= i < |profiles| ==>
              profiles[i].service in selected && selected[profiles[i].service] == Choice(profiles[i], useMin)
    ensures forall s :: s in selected ==> exists i :: 0 <= i < |profiles| && profiles[i].service == s
  {
    selected := map[];
    for i := 0 to |profiles|
      invariant forall k :: 0 <= k < i ==>
                  profiles[k].service in selected && selected[profiles[k].service] == Choice(profiles[k], useMin)
      invariant forall s :: s in selected ==> exists k :: 0 <= k < i && profiles[k].service == s
    {
      selected := selected[profiles[i].service := Choice(profiles[i], useMin)];
    }
  }

  /** An override that applyResourceOverride lets through. */
  predicate OverrideAccepted(cpuOk: CpuRule, index: map<string, Profile>, o: Override) {
    o.service in index && index[o.service].allowOverride && LimitsAccepted(cpuOk, index[o.service], o)
  }

  /** The limits of one service after a list of overrides: each limit is the last one set for it. */
  function AfterOverrides(chosen: Selected, service: string, overrides: seq<Override>): Selected {
    if overrides == [] then chosen
    else
      var last := overrides[|overrides| - 1];
      var before := AfterOverrides(chosen, service, overrides[..|overrides| - 1]);
      if last.service == service then Merged(before, last) else before
  }

  /** applyResourceOverrides: accepted exactly when every override is, whatever their order. */
  method ApplyResourceOverrides(cpuOk: CpuRule, start: map<string, Selected>, index: map<string, Profile>, overrides: seq<Override>)
    returns (selected: map<string, Selected>, ok: bool)
    requires forall s :: s in index ==> s in start
    ensures ok <==> forall k :: 0 <= k < |overrides| ==> OverrideAccepted(cpuOk, index, overrides[k])
    ensures ok ==> selected.Keys == start.Keys && forall s :: s in start ==> selected[s] == AfterOverrides(start[s], s, overrides)
  {
    hide LimitsAccepted, Merged, InBand;
    selected, ok := start, true;
    for i := 0 to |overrides|
      invariant selected.Keys == start.Keys
      invariant forall k :: 0 <= k < i ==> OverrideAccepted(cpuOk, index, overrides[k])
      invariant forall s :: s in start ==> selected[s] == AfterOverrides(start[s], s, overrides[..i])
    {
      var o := overrides[i];
      if o.service !in index || !index[o.service].allowOverride {
        assert !OverrideAccepted(cpuOk, index, overrides[i]);
        ok := false;
        return;
      }
      var next := ApplyResourceLimitOverride(cpuOk, selected[o.service], index[o.service], o);
      if next.None? {
        assert !OverrideAccepted(cpuOk, index, overrides[i]);
        ok := false;
        return;
      }
      assert overrides[..i + 1][..i] == overrides[..i];
      selected := selected[o.service := next.value];
    }
    assert overrides[..|overrides|] == overrides;
  }

  /** A limit that no override of the service sets stays as chosen. */
  lemma {:induction false} UnsetLimitsStay(chosen: Selected, service: string, overrides: seq<Override>)
    ensures var after := AfterOverrides(chosen, service, overrides);
            && ((forall o :: o in overrides && o.service == service ==> o.memory == "") ==> after.memory == chosen.memory)
            && ((forall o :: o in overrides && o.service == service ==> o.cpus == "") ==> after.cpus == chosen.cpus)
            && ((forall o :: o in overrides && o.service == service ==> o.pids == 0) ==> after.pids == chosen.pids)
    decreases |overrides|
  {
    if overrides != [] {
      var before := overrides[..|overrides| - 1];
      assert overrides[|overrides| - 1] in overrides && forall o :: o in before ==> o in overrides;
      UnsetLimitsStay(chosen, service, before);
    }
  }

  /** A limit is what the last override of the service that sets it says; overrides of other services do not matter. */
  lemma {:induction false} LastSettingWins(chosen: Selected, before: seq<Override>, o: Override, later: seq<Override>)
    ensures var after := AfterOverrides(chosen, o.service, before + [o] + later);
            && (o.memory != "" && (forall x :: x in later && x.service == o.service ==> x.memory == "") ==> after.memory == o.memory)
            && (o.cpus != "" && (forall x :: x in later && x.service == o.service ==> x.cpus == "") ==> after.cpus == o.cpus)
            && (o.pids != 0 && (forall x :: x in later && x.service == o.service ==> x.pids == 0) ==> after.pids == o.pids)
    ensures var after, earlier := AfterOverrides(chosen, o.service, before + [o]), AfterOverrides(chosen, o.service, before);
            && (o.memory == "" ==> after.memory == earlier.memory)
            && (o.cpus == "" ==> after.cpus == earlier.cpus)
            && (o.pids == 0 ==> after.pids == earlier.pids)
    decreases |later|
  {
    var all := before + [o] + later;
    assert (before + [o])[..|before|] == before;
    if later == [] {
      assert all == before + [o];
    } else {
      var earlier := later[..|later| - 1];
      assert all[..|all| - 1] == before + [o] + earlier && all[|all| - 1] == later[|later| - 1];
      assert later[|later| - 1] in later && forall x :: x in earlier ==> x in later;
      LastSettingWins(chosen, before, o, earlier);
    }
  }

  lemma {:induction false} AfterOverridesInBand(cpuOk: CpuRule, p: Profile, index: map<string, Profile>, chosen: Selected, overrides: seq<Override>)
    requires p.service in index && index[p.service] == p && InBand(p, chosen)
    requires forall k :: 0 <= k < |overrides| ==> OverrideAccepted(cpuOk, index, overrides[k])
    ensures InBand(p, AfterOverrides(chosen, p.service, overrides))
    decreases |overrides|
  {
    hide MemoryInBand;
    if overrides != [] {
      assert OverrideAccepted(cpuOk, index, overrides[|overrides| - 1]);
      AfterOverridesInBand(cpuOk, p, index, chosen, overrides[..|overrides| - 1]);
    }
  }

  function BandValue(b: MemoryBand, useMin: bool): string { if useMin then b.min else b.recommended }

  /** Every profile's value of one band parses, memory and CPU. */
  predicate BandParses(cpuParses: CpuSyntax, profiles: seq<Profile>, useMin: bool) {
    forall i :: 0 <= i < |profiles| ==>
      ParseMemoryBytes(BandValue(profiles[i].memory, useMin)).Some? && cpuParses(BandValue(profiles[i].cpus, useMin))
  }

  /** sumResourceBand as far as it can refuse; the total itself is not kept. */
  method CheckResourceBand(cpuParses: CpuSyntax, profiles: seq<Profile>, useMin: bool) returns (ok: bool)
    ensures ok <==> BandParses(cpuParses, profiles, useMin)
  {
    hide ParseMemoryBytes;
    for i := 0 to |profiles|
      invariant BandParses(cpuParses, profiles[..i], useMin)
    {
      if ParseMemoryBytes(BandValue(profiles[i].memory, useMin)).None? || !cpuParses(BandValue(profiles[i].cpus, useMin)) {
        return false;
      }
    }
    ok := true;
  }

  /** The recommended band is totalled always, the minimum band when it is chosen. */
  predicate TotalsParse(cpuParses: CpuSyntax, profiles: seq<Profile>, useMin: bool) {
    BandParses(cpuParses, profiles, false) && (useMin ==> BandParses(cpuParses, profiles, true))
  }

  /** Spelled out: every override names a profile that allows overrides, and stays within that profile's own limits. */
  lemma AcceptedOverrides(cpuOk: CpuRule, profiles: seq<Profile>, o: Override)
    requires ServicesDiffer(profiles)
    ensures OverrideAccepted(cpuOk, IndexOf(profiles), o) <==>
            exists p :: p in profiles && p.service == o.service && p.allowOverride &&
                        (o.memory == "" || MemoryInBand(p, o.memory)) &&
                        (o.cpus == "" || cpuOk(p, o.cpus)) && (o.pids == 0 || 1 <= o.pids <= p.pids.max)
  {
    hide MemoryInBand;
    IndexHolds(profiles, o.service);
  }

  /** A memory limit in the units of its band is accepted exactly between the two ends, both included. */
  lemma MemoryWithin(p: Profile, n: nat, low: nat, high: nat)
    requires n > 0 && low > 0 && high > 0 && n * 1048576 <= MAX_UINT64 && low * 1048576 <= MAX_UINT64 && high * 1048576 <= MAX_UINT64
    requires p.memory.min == Itoa(low) + "m" && p.memory.max == Itoa(high) + "m"
    ensures MemoryInBand(p, Itoa(n) + "m") <==> low <= n <= high
  {
    hide ParseMemoryBytes, Itoa;
    MemoryUnits(n, 'm');
    MemoryUnits(low, 'm');
    MemoryUnits(high, 'm');
  }

  predicate Untouched(overrides: seq<Override>, service: string) { forall o :: o in overrides ==> o.service != service }

  lemma UntouchedStays(chosen: Selected, service: string, overrides: seq<Override>)
    requires Untouched(overrides, service)
    ensures AfterOverrides(chosen, service, overrides) == chosen
  {
    UnsetLimitsStay(chosen, service, overrides);
  }

  /** Spelled out: every recommended value must parse, and with the minimum chosen every minimum too. */
  lemma TotalsReadTheBands(cpuParses: CpuSyntax, profiles: seq<Profile>, useMin: bool)
    ensures TotalsParse(cpuParses, profiles, useMin) <==>
              && (forall p :: p in profiles ==> ParseMemoryBytes(p.memory.recommended).Some? && cpuParses(p.cpus.recommended))
              && (useMin ==> forall p :: p in profiles ==> ParseMemoryBytes(p.memory.min).Some? && cpuParses(p.cpus.min))
  {
    hide ParseMemoryBytes;
  }

  /** planResources after its input checks: the limits chosen for every service, or None for a refusal. An app without
      profiles is accepted whatever the overrides. */
  method PlanResources(upper: Upper, cpuParses: CpuSyntax, cpuOk: CpuRule, profiles: seq<Profile>, useMin: bool, overrides: seq<Override>)
    returns (selected: Option<map<string, Selected>>)
    ensures selected.Some? <==>
              profiles == [] ||
              (Indexable(upper, profiles) && TotalsParse(cpuParses, profiles, useMin) &&
               forall k :: 0 <= k < |overrides| ==> OverrideAccepted(cpuOk, IndexOf(profiles), overrides[k]))
    ensures selected.Some? && (forall i :: 0 <= i < |profiles| ==> BandsOrdered(profiles[i])) ==> AllInBand(profiles, selected.value)
    ensures selected.Some? ==> forall i :: 0 <= i < |profiles| ==>
              profiles[i].service in selected.value &&
              selected.value[profiles[i].service] == AfterOverrides(Choice(profiles[i], useMin), profiles[i].service, overrides)
    ensures selected.Some? && !useMin ==> forall p :: p in profiles && Untouched(overrides, p.service) ==>
              selected.value[p.service] == Selected(p.memory.recommended, p.cpus.recommended, p.pids.default)
    ensures selected.Some? && useMin ==> forall p :: p in profiles && Untouched(overrides, p.service) ==>
              selected.value[p.service] == Selected(p.memory.min, p.cpus.min, p.pids.default)
  {
    hide KeyOf, OverrideAccepted, BandsOrdered, InBand, AfterOverrides, Choice, Indexable, BandParses;
    if profiles == [] {
      return Some(map[]);
    }
    var index := IndexResourceProfiles(upper, profiles);
    if index.None? {
      return None;
    }
    var total := CheckResourceBand(cpuParses, profiles, false);
    if !total {
      return None;
    }
    if useMin {
      total := CheckResourceBand(cpuParses, profiles, true);
      if !total {
        return None;
      }
    }
    DistinctKeysDistinctServices(upper, profiles);
    forall s: string
      ensures s in index.value <==> exists i :: 0 <= i < |profiles| && profiles[i].service == s
    {
      IndexHolds(profiles, s);
    }
    var start := SelectResourceProfiles(profiles, useMin);
    var after, ok := ApplyResourceOverrides(cpuOk, start, index.value, overrides);
    if !ok {
      return None;
    }
    forall i | 0 <= i < |profiles| && BandsOrdered(profiles[i])
      ensures profiles[i].service in after && InBand(profiles[i], after[profiles[i].service])
    {
      IndexHolds(profiles, profiles[i].service);
      ChoiceInBand(profiles[i], useMin);
      AfterOverridesInBand(cpuOk, profiles[i], index.value, Choice(profiles[i], useMin), overrides);
    }
    forall p | p in profiles && Untouched(overrides, p.service)
      ensures after[p.service] == Choice(p, useMin)
    {
      UntouchedStays(Choice(p, useMin), p.service, overrides);
    }
    ChoiceIsBand();
    selected := Some(after);
  }

  lemma ChoiceIsBand()
    ensures forall p :: Choice(p, true) == Selected(p.memory.min, p.cpus.min, p.pids.default)
    ensures forall p :: Choice(p, false) == Selected(p.memory.recommended, p.cpus.recommended, p.pids.default)
  {
  }

  lemma ChoiceInBand(p: Profile, useMin: bool)
    requires BandsOrdered(p)
    ensures InBand(p, Choice(p, useMin))
  {
    hide MemoryInBand;
  }

  lemma DistinctKeysDistinctServices(upper: Upper, profiles: seq<Profile>)
    requires Indexable(upper, profiles)
    ensures ServicesDiffer(profiles)
  {
    hide KeyOf;
  }

  // ---- The values the .env template is rendered with ----

  predicate Carries(values: map<string, string>, key: string, s: Selected) {
    && MemoryKey(key) in values && values[MemoryKey(key)] == s.memory
    && CpusKey(key) in values && values[CpusKey(key)] == s.cpus
    && PidsKey(key) in values && values[PidsKey(key)] == Itoa(s.pids)
  }

  predicate Free(values: map<string, string>, key: string) { forall k :: k in Order(key) ==> k !in values }

  lemma OthersUnaffected(values: map<string, string>, key: string, l: Limits, other: string)
    requires other != key
    ensures Free(values + Targets(key, l), other) <==> Free(values, other)
    ensures forall s :: Carries(values, other, s) ==> Carries(values + Targets(key, l), other, s)
  {
    KeysDiffer(key, other);
    KeysDiffer(other, key);
    hide MemoryKey, CpusKey, PidsKey;
  }

  lemma NowCarried(values: map<string, string>, key: string, s: Selected)
    ensures Carries(values + Targets(key, Limits(s.memory, s.cpus, s.pids)), key, s)
  {
    KeysDiffer(key, key);
    hide MemoryKey, CpusKey, PidsKey;
  }

  /** addSelectedResourceValues: refused exactly when a placeholder already has one of the names. */
  method AddSelectedResourceValues(upper: Upper, profiles: seq<Profile>, selected: map<string, Selected>, start: map<string, string>)
    returns (values: Option<map<string, string>>)
    requires Indexable(upper, profiles) && forall i :: 0 <= i < |profiles| ==> profiles[i].service in selected
    ensures values.Some? <==> forall i :: 0 <= i < |profiles| ==> Free(start, KeyOf(upper, profiles[i].service))
    ensures values.Some? ==> forall i :: 0 <= i < |profiles| ==>
              Carries(values.value, KeyOf(upper, profiles[i].service), selected[profiles[i].service])
    ensures values.Some? ==> forall k :: k in start ==> k in values.value && values.value[k] == start[k]
  {
    hide KeyOf, Carries, Free, Targets;
    var all := start;
    for i := 0 to |profiles|
      invariant forall k :: 0 <= k < i ==> Free(start, KeyOf(upper, profiles[k].service))
      invariant forall k :: i <= k < |profiles| ==>
                  (Free(all, KeyOf(upper, profiles[k].service)) <==> Free(start, KeyOf(upper, profiles[k].service)))
      invariant forall k :: 0 <= k < i ==> Carries(all, KeyOf(upper, profiles[k].service), selected[profiles[k].service])
      invariant forall k :: k in start ==> k in all && all[k] == start[k]
    {
      var key := ServiceKey(upper, profiles[i].service);
      var chosen := selected[profiles[i].service];
      var next := AddLimits(all, key, chosen);
      if next.None? {
        return None;
      }
      forall k | 0 <= k < |profiles| && k != i
        ensures Free(next.value, KeyOf(upper, profiles[k].service)) <==> Free(all, KeyOf(upper, profiles[k].service))
        ensures Carries(all, KeyOf(upper, profiles[k].service), selected[profiles[k].service]) ==>
                Carries(next.value, KeyOf(upper, profiles[k].service), selected[profiles[k].service])
      {
        OthersUnaffected(all, key, Limits(chosen.memory, chosen.cpus, chosen.pids), KeyOf(upper, profiles[k].service));
      }
      NowCarried(all, key, chosen);
      all := next.value;
    }
    values := Some(all);
  }

  /** The three addSyntheticResolvedValue calls for one service. */
  method AddLimits(values: map<string, string>, key: string, s: Selected) returns (r: Option<map<string, string>>)
    ensures r.Some? <==> Free(values, key)
    ensures r.Some? ==> r.value == values + Targets(key, Limits(s.memory, s.cpus, s.pids))
    ensures r.Some? ==> forall k :: k in values ==> k in r.value && r.value[k] == values[k]
  {
    KeysDiffer(key, key);
    hide MemoryKey, CpusKey, PidsKey;
    if MemoryKey(key) in values {
      assert MemoryKey(key) in Order(key);
      return None;
    }
    var one := values[MemoryKey(key) := s.memory];
    if CpusKey(key) in one {
      assert CpusKey(key) in Order(key);
      return None;
    }
    var two := one[CpusKey(key) := s.cpus];
    if PidsKey(key) in two {
      assert PidsKey(key) in Order(key);
      return None;
    }
    r := Some(two[PidsKey(key) := Itoa(s.pids)]);
  }
}
