// Changing one service's limits after install: planning against the band
// (internal/core/reconfigure.go:173-305) and applying with restore on failure
// (internal/core/reconfigure_apply.go:40-103).
module Reconfigure {
  import opened Wrappers
  import opened Text
  import opened EnvFile
  import opened ServiceKeys
  import opened Resources

  datatype Request = Request(service: string, memory: Option<string>, cpus: Option<string>, pids: Option<GoInt>)

  // Where an apply ends once the plan stands. Refused: before anything is written. The write
  // may fail before or after its rename. StatusFailed: after the manifest commit, not restored.
  datatype Fate = Refused | WriteFailed(landed: bool) | DeployFailed | CommitFailed | StatusFailed | Deployed

  // What the catalog and the host decide.
  datatype Context = Context(upper: Upper, cpuOk: CpuRule, profiles: seq<Profile>)

  /** readServiceResourceValues on the parsed file. */
  function ReadLimits(m: map<string, string>, key: string): Option<Selected> {
    if MemoryKey(key) !in m || CpusKey(key) !in m || PidsKey(key) !in m then None
    else
      var pids := Atoi(TrimSpace(m[PidsKey(key)]));
      if pids.None? then None else Some(Selected(m[MemoryKey(key)], m[CpusKey(key)], pids.value))
  }

  /** The request sets something, and nothing it sets is empty or below one. */
  predicate WellFormedRequest(r: Request) {
    && (r.memory.Some? || r.cpus.Some? || r.pids.Some?)
    && (r.memory.Some? ==> TrimSpace(r.memory.value) != "")
    && (r.cpus.Some? ==> TrimSpace(r.cpus.value) != "")
    && (r.pids.Some? ==> r.pids.value >= 1)
  }

  function OverrideOf(r: Request): Override {
    Override(r.service, if r.memory.Some? then r.memory.value else "", if r.cpus.Some? then r.cpus.value else "",
             if r.pids.Some? then r.pids.value else 0)
  }

  /** The request is one the catalog allows for this stack. */
  predicate Plannable(c: Context, env: string, r: Request) {
    && WellFormedRequest(r) && Indexable(c.upper, c.profiles) && OverrideAccepted(c.cpuOk, IndexOf(c.profiles), OverrideOf(r))
    && ReadEnv(env).Some? && ReadLimits(ReadEnv(env).value, KeyOf(c.upper, r.service)).Some?
  }

  /** The limits in effect afterwards: the requested ones, the installed ones where nothing was requested. */
  function Planned(c: Context, env: string, r: Request): Selected
    requires Plannable(c, env, r)
  {
    var current := ReadLimits(ReadEnv(env).value, KeyOf(c.upper, r.service)).value;
    Selected(if r.memory.Some? then r.memory.value else current.memory,
             if r.cpus.Some? then r.cpus.value else current.cpus,
             if r.pids.Some? then r.pids.value else current.pids)
  }

  function NewEnv(c: Context, env: string, r: Request): string
    requires Plannable(c, env, r)
  {
    var s := Planned(c, env, r);
    EditedText(env, KeyOf(c.upper, r.service), Limits(s.memory, s.cpus, s.pids))
  }

  /** What one reconfigure does to the .env. */
  predicate Step(c: Context, before: string, r: Request, fate: Fate, restoreWorks: bool, after: string, ok: bool) {
    if !Plannable(c, before, r) || fate == Refused then after == before && !ok
    else
      && (ok <==> fate == Deployed)
      && (fate in {Deployed, StatusFailed} ==> after == NewEnv(c, before, r))
      && (fate !in {Deployed, StatusFailed} && (restoreWorks || fate == WriteFailed(false)) ==> after == before)
      && (fate !in {Deployed, StatusFailed} && !restoreWorks && fate != WriteFailed(false) ==> after == NewEnv(c, before, r))
  }

  lemma SetIsMerged(c: Context, env: string, r: Request)
    requires Plannable(c, env, r)
    ensures Planned(c, env, r) == Merged(ReadLimits(ReadEnv(env).value, KeyOf(c.upper, r.service)).value, OverrideOf(r))
  {
    hide ReadEnv, ReadLimits, KeyOf, OverrideAccepted, Indexable;
    assert TrimSpace("") == "";
  }

  class Stack {
    var env: string

    constructor (env: string)
      ensures this.env == env
    {
      this.env := env;
    }

    /** buildReconfigurePlan. */
    method BuildReconfigurePlan(c: Context, r: Request) returns (plan: Option<Selected>)
      ensures plan == if Plannable(c, env, r) then Some(Planned(c, env, r)) else None
    {
      hide ReadEnv, KeyOf, Indexable, IndexOf, LimitsAccepted;
      if r.memory.None? && r.cpus.None? && r.pids.None? {
        return None;
      }
      var index := IndexResourceProfiles(c.upper, c.profiles);
      if index.None? || r.service !in index.value || !index.value[r.service].allowOverride {
        return None;
      }
      var profile := index.value[r.service];
      if (r.memory.Some? && TrimSpace(r.memory.value) == "") || (r.cpus.Some? && TrimSpace(r.cpus.value) == "") ||
         (r.pids.Some? && r.pids.value < 1) {
        return None;
      }
      var m := ReadEnv(env);
      if m.None? {
        return None;
      }
      var key := ServiceKey(c.upper, r.service);
      var current := ReadLimits(m.value, key);
      if current.None? {
        return None;
      }
      plan := ApplyResourceLimitOverride(c.cpuOk, current.value, profile, OverrideOf(r));
      if plan.Some? {
        SetIsMerged(c, env, r);
      }
    }

    /** applyReconfigure: edit, write, deploy, commit; restore the backup on any failure before the commit. */
    method Reconfigure(c: Context, r: Request, fate: Fate, restoreWorks: bool) returns (ok: bool)
      modifies this
      ensures Step(c, old(env), r, fate, restoreWorks, env, ok)
    {
      hide Plannable, Planned, EditedText, KeyOf;
      var plan := BuildReconfigurePlan(c, r);
      if plan.None? || fate == Refused {
        return false;
      }
      var backup := env;
      var key := ServiceKey(c.upper, r.service);
      var out := RewriteResourceEnvLines(env, key, Limits(plan.value.memory, plan.value.cpus, plan.value.pids));
      EditNeverFails(c, env, r);
      if fate != WriteFailed(false) {
        env := out.value;
      }
      if fate in {Deployed, StatusFailed} {
        return fate == Deployed;
      }
      if restoreWorks {
        env := backup;
      }
      ok := false;
    }
  }

  /** The duplicate-key refusal of the editor cannot be reached: the plan has already read the file. */
  lemma EditNeverFails(c: Context, env: string, r: Request)
    requires Plannable(c, env, r)
    ensures forall l :: !Repeats(BodyLines(env), Targets(KeyOf(c.upper, r.service), l))
  {
    hide ReadEnv, KeyOf, Repeats, BodyLines, Targets, ReadLimits, OverrideAccepted, Indexable;
    KeyIsShaped(c.upper, r.service);
    forall l
      ensures !Repeats(BodyLines(env), Targets(KeyOf(c.upper, r.service), l))
    {
      ReadableNeverRepeats(env, KeyOf(c.upper, r.service), l);
    }
  }

  // ---- Bands over reconfigures ----

  /** Every service's memory and pids limits are in the file and in their bands. */
  ghost predicate EnvInBand(c: Context, env: string) {
    ReadEnv(env).Some? &&
    forall i :: 0 <= i < |c.profiles| ==> LimitsInBand(c, ReadEnv(env).value, c.profiles[i])
  }

  predicate LimitsInBand(c: Context, m: map<string, string>, p: Profile) {
    var s := ReadLimits(m, KeyOf(c.upper, p.service));
    s.Some? && InBand(p, s.value)
  }

  /** Floating-point syntax has no line break. */
  ghost predicate CpusOnOneLine(cpuOk: CpuRule) { forall p, v :: cpuOk(p, v) ==> '\n' !in v }

  lemma {:induction false} ReadValuesOnOneLine(lines: seq<string>, key: string)
    requires ReadLines(lines).Some? && key in ReadLines(lines).value
    requires forall k :: 0 <= k < |lines| ==> '\n' !in lines[k]
    ensures '\n' !in ReadLines(lines).value[key]
    decreases |lines|
  {
    hide TrimSpace, TrimLeft;
    var n := |lines| - 1;
    var last := ReadLine(lines[n]);
    if last.Entry? && last.key == key {
      assert forall c :: c in last.value ==> c in lines[n];
    } else {
      ReadValuesOnOneLine(lines[..n], key);
    }
  }

  lemma PlannedOnOneLine(c: Context, env: string, r: Request)
    requires Plannable(c, env, r) && CpusOnOneLine(c.cpuOk)
    ensures '\n' !in Planned(c, env, r).memory && '\n' !in Planned(c, env, r).cpus
  {
    hide KeyOf, ReadLines, Indexable, IndexOf, BodyLines;
    BodyReadsAlike(env);
    var key := KeyOf(c.upper, r.service);
    var p := IndexOf(c.profiles)[r.service];
    assert TrimSpace("") == "";
    if r.memory.Some? {
      ParsedMemoryIsOneLine(r.memory.value);
    } else {
      ReadValuesOnOneLine(BodyLines(env), MemoryKey(key));
    }
    if r.cpus.Some? {
      assert c.cpuOk(p, r.cpus.value);
    } else {
      ReadValuesOnOneLine(BodyLines(env), CpusKey(key));
    }
  }

  lemma ItoaIsAWord(n: int)
    ensures TrimSpace(Itoa(n)) == Itoa(n)
  {
    TrimOfWord(Itoa(n));
  }

  /** The written limits read back. */
  lemma WrittenLimitsRead(m: map<string, string>, key: string, s: Selected)
    ensures ReadLimits(m + Targets(key, Limits(s.memory, s.cpus, s.pids)), key) == Some(s)
  {
    KeysDiffer(key, key);
    hide MemoryKey, CpusKey, PidsKey, Itoa, Atoi, TrimSpace;
    ItoaIsAWord(s.pids);
    AtoiOfItoa(s.pids);
  }

  lemma OtherLimitsRead(m: map<string, string>, key: string, l: Limits, other: string)
    requires other != key
    ensures ReadLimits(m + Targets(key, l), other) == ReadLimits(m, other)
  {
    KeysDiffer(key, other);
    KeysDiffer(other, key);
    hide MemoryKey, CpusKey, PidsKey, Itoa, Atoi, TrimSpace;
  }

  /** The edited file is the old one as a map, with the planned limits of the one service. */
  lemma NewEnvReads(c: Context, env: string, r: Request)
    requires Plannable(c, env, r) && CpusOnOneLine(c.cpuOk)
    ensures ReadEnv(NewEnv(c, env, r)).Some?
    ensures var s := Planned(c, env, r);
            ReadEnv(NewEnv(c, env, r)).value ==
            ReadEnv(env).value + Targets(KeyOf(c.upper, r.service), Limits(s.memory, s.cpus, s.pids))
  {
    hide ReadEnv, KeyOf, EditedText, Targets, Planned, OverrideAccepted, Indexable, ReadLimits;
    KeyIsShaped(c.upper, r.service);
    PlannedOnOneLine(c, env, r);
    var s := Planned(c, env, r);
    EditIsMapUpdate(env, KeyOf(c.upper, r.service), Limits(s.memory, s.cpus, s.pids));
  }

  /** Exactly the planned limits change: the service reads as planned, every other key reads as before. */
  lemma ReconfigureChangesOneService(c: Context, before: string, r: Request, restoreWorks: bool, after: string)
    requires Step(c, before, r, Deployed, restoreWorks, after, true) && CpusOnOneLine(c.cpuOk)
    ensures Plannable(c, before, r) && ReadEnv(after).Some?
    ensures ReadLimits(ReadEnv(after).value, KeyOf(c.upper, r.service)) == Some(Planned(c, before, r))
    ensures forall k :: k !in Order(KeyOf(c.upper, r.service)) ==>
              (k in ReadEnv(after).value <==> k in ReadEnv(before).value) &&
              (k in ReadEnv(before).value ==> ReadEnv(after).value[k] == ReadEnv(before).value[k])
  {
    hide ReadEnv, KeyOf, NewEnv, Plannable, Planned, ReadLimits, MemoryKey, CpusKey, PidsKey;
    NewEnvReads(c, before, r);
    PlannableReads(c, before, r);
    WrittenLimitsRead(ReadEnv(before).value, KeyOf(c.upper, r.service), Planned(c, before, r));
  }

  lemma PlannableReads(c: Context, env: string, r: Request)
    requires Plannable(c, env, r)
    ensures ReadEnv(env).Some?
  {
    hide ReadEnv;
  }

  /** What a reconfigure needs: a profile of the service that allows overrides, at least one limit set and each within that
      profile, and a file that reads and holds the three limits. */
  lemma PlannableExactly(c: Context, env: string, r: Request)
    ensures Plannable(c, env, r) <==>
              && Indexable(c.upper, c.profiles)
              && (exists p :: p in c.profiles && p.service == r.service && p.allowOverride &&
                              (r.memory.Some? ==> MemoryInBand(p, r.memory.value)) &&
                              (r.cpus.Some? ==> TrimSpace(r.cpus.value) != "" && c.cpuOk(p, r.cpus.value)) &&
                              (r.pids.Some? ==> 1 <= r.pids.value <= p.pids.max))
              && (r.memory.Some? || r.cpus.Some? || r.pids.Some?)
              && ReadEnv(env).Some?
              && "MEMORY_LIMIT_" + KeyOf(c.upper, r.service) in ReadEnv(env).value
              && "CPUS_LIMIT_" + KeyOf(c.upper, r.service) in ReadEnv(env).value
              && "PIDS_LIMIT_" + KeyOf(c.upper, r.service) in ReadEnv(env).value
              && Atoi(TrimSpace(ReadEnv(env).value["PIDS_LIMIT_" + KeyOf(c.upper, r.service)])).Some?
  {
    hide ReadEnv, KeyOf, IndexOf, ServicesDiffer, MemoryInBand, Atoi, Indexable;
    if Indexable(c.upper, c.profiles) {
      DistinctKeysDistinctServices(c.upper, c.profiles);
      AcceptedOverrides(c.cpuOk, c.profiles, OverrideOf(r));
      forall p | p in c.profiles && r.memory.Some? && MemoryInBand(p, r.memory.value)
        ensures TrimSpace(r.memory.value) != ""
      {
        BandedIsNotBlank(p, r.memory.value);
      }
      assert TrimSpace("") == "";
    }
  }

  lemma BandedIsNotBlank(p: Profile, value: string)
    requires MemoryInBand(p, value)
    ensures TrimSpace(value) != ""
  {
    hide TrimSpace, DecimalValue;
    BlankExactly(value);
    assert !IsSpace(value[|value| - 1]);
  }

  /** A deployed reconfigure leaves the file it found with three entries set: the requested limits, and those not requested
      as they were (the pids number in plain decimal). */
  lemma DeployedFileReads(c: Context, before: string, r: Request, restoreWorks: bool, after: string)
    requires Step(c, before, r, Deployed, restoreWorks, after, true) && CpusOnOneLine(c.cpuOk)
    ensures ReadEnv(before).Some? && ReadEnv(after).Some?
    ensures var m, key := ReadEnv(before).value, KeyOf(c.upper, r.service);
            && "MEMORY_LIMIT_" + key in m && "CPUS_LIMIT_" + key in m && "PIDS_LIMIT_" + key in m
            && Atoi(TrimSpace(m["PIDS_LIMIT_" + key])).Some?
            && ReadEnv(after).value ==
               m["MEMORY_LIMIT_" + key := if r.memory.Some? then r.memory.value else m["MEMORY_LIMIT_" + key]]
                ["CPUS_LIMIT_" + key := if r.cpus.Some? then r.cpus.value else m["CPUS_LIMIT_" + key]]
                ["PIDS_LIMIT_" + key := Itoa(if r.pids.Some? then r.pids.value else Atoi(TrimSpace(m["PIDS_LIMIT_" + key])).value)]
  {
    hide ReadEnv, KeyOf, EditedText, OverrideAccepted, Indexable, IndexOf, TrimSpace, Atoi, Itoa, CpusOnOneLine;
    NewEnvReads(c, before, r);
  }

  /** The target's profile, and that what is planned for it is in its band. */
  lemma PlannedInBand(c: Context, env: string, r: Request) returns (i: nat)
    requires Plannable(c, env, r) && EnvInBand(c, env)
    ensures i < |c.profiles| && c.profiles[i].service == r.service && InBand(c.profiles[i], Planned(c, env, r))
  {
    hide ReadEnv, KeyOf, MemoryInBand, ReadLimits;
    DistinctKeysDistinctServices(c.upper, c.profiles);
    IndexHolds(c.profiles, r.service);
    i :| 0 <= i < |c.profiles| && c.profiles[i].service == r.service;
    assert LimitsInBand(c, ReadEnv(env).value, c.profiles[i]);
    SetIsMerged(c, env, r);
  }

  lemma NewEnvInBand(c: Context, env: string, r: Request)
    requires Plannable(c, env, r) && EnvInBand(c, env) && CpusOnOneLine(c.cpuOk)
    ensures EnvInBand(c, NewEnv(c, env, r))
  {
    hide ReadEnv, KeyOf, NewEnv, Planned, ReadLimits, InBand, Targets, OverrideAccepted;
    var t := PlannedInBand(c, env, r);
    var s := Planned(c, env, r);
    var key := KeyOf(c.upper, r.service);
    NewEnvReads(c, env, r);
    WrittenLimitsRead(ReadEnv(env).value, key, s);
    forall i | 0 <= i < |c.profiles|
      ensures LimitsInBand(c, ReadEnv(NewEnv(c, env, r)).value, c.profiles[i])
    {
      assert LimitsInBand(c, ReadEnv(env).value, c.profiles[i]);
      if i != t {
        OtherLimitsRead(ReadEnv(env).value, key, Limits(s.memory, s.cpus, s.pids), KeyOf(c.upper, c.profiles[i].service));
      }
    }
  }

  /** However it ends, and whether or not the restore works, every limit stays in its band. */
  lemma StepStaysInBand(c: Context, before: string, r: Request, fate: Fate, restoreWorks: bool, after: string, ok: bool)
    requires Step(c, before, r, fate, restoreWorks, after, ok) && EnvInBand(c, before) && CpusOnOneLine(c.cpuOk)
    ensures EnvInBand(c, after)
  {
    hide Plannable, EnvInBand, NewEnv;
    if Plannable(c, before, r) {
      NewEnvInBand(c, before, r);
    }
  }

  // One reconfigure of a run.
  datatype Event = Event(request: Request, fate: Fate, restoreWorks: bool, ok: bool)

  predicate IsRun(c: Context, envs: seq<string>, events: seq<Event>) {
    && |envs| == |events| + 1
    && forall i :: 0 <= i < |events| ==>
         Step(c, envs[i], events[i].request, events[i].fate, events[i].restoreWorks, envs[i + 1], events[i].ok)
  }

  /** Install's choice in band, any reconfigures afterwards: every limit is in band after each of them. */
  lemma {:induction false} RunStaysInBand(c: Context, envs: seq<string>, events: seq<Event>, j: nat)
    requires IsRun(c, envs, events) && j < |envs| && EnvInBand(c, envs[0]) && CpusOnOneLine(c.cpuOk)
    ensures EnvInBand(c, envs[j])
    decreases j
  {
    hide Step, EnvInBand;
    if j > 0 {
      RunStaysInBand(c, envs, events, j - 1);
      var e := events[j - 1];
      StepStaysInBand(c, envs[j - 1], e.request, e.fate, e.restoreWorks, envs[j], e.ok);
    }
  }

  lemma StepKeepsOthers(c: Context, before: string, r: Request, fate: Fate, restoreWorks: bool, after: string, ok: bool, service: string)
    requires Step(c, before, r, fate, restoreWorks, after, ok) && CpusOnOneLine(c.cpuOk) && ReadEnv(before).Some?
    requires KeyOf(c.upper, r.service) != KeyOf(c.upper, service)
    ensures ReadEnv(after).Some?
    ensures ReadLimits(ReadEnv(after).value, KeyOf(c.upper, service)) == ReadLimits(ReadEnv(before).value, KeyOf(c.upper, service))
  {
    hide ReadEnv, KeyOf, NewEnv, Plannable, Planned, ReadLimits, Targets;
    if Plannable(c, before, r) {
      var s := Planned(c, before, r);
      NewEnvReads(c, before, r);
      OtherLimitsRead(ReadEnv(before).value, KeyOf(c.upper, r.service), Limits(s.memory, s.cpus, s.pids), KeyOf(c.upper, service));
    }
  }

  /** The catalog sizes this service, and it is not the one at i. */
  predicate OtherService(c: Context, i: nat, service: string) {
    exists m :: 0 <= m < |c.profiles| && m != i && c.profiles[m].service == service
  }

  /** A service that no request of the run names keeps its limits. */
  lemma {:induction false} RunKeepsUntouchedService(c: Context, envs: seq<string>, events: seq<Event>, j: nat, i: nat)
    requires IsRun(c, envs, events) && j < |envs| && ReadEnv(envs[0]).Some? && CpusOnOneLine(c.cpuOk)
    requires Indexable(c.upper, c.profiles) && i < |c.profiles|
    requires forall k :: 0 <= k < j ==> OtherService(c, i, events[k].request.service)
    ensures ReadEnv(envs[j]).Some?
    ensures ReadLimits(ReadEnv(envs[j]).value, KeyOf(c.upper, c.profiles[i].service)) ==
            ReadLimits(ReadEnv(envs[0]).value, KeyOf(c.upper, c.profiles[i].service))
    decreases j
  {
    hide Step, ReadEnv, KeyOf, ReadLimits;
    if j > 0 {
      RunKeepsUntouchedService(c, envs, events, j - 1, i);
      assert OtherService(c, i, events[j - 1].request.service);
      var e := events[j - 1];
      var m :| 0 <= m < |c.profiles| && m != i && c.profiles[m].service == e.request.service;
      StepKeepsOthers(c, envs[j - 1], e.request, e.fate, e.restoreWorks, envs[j], e.ok, c.profiles[i].service);
    }
  }

  /** Install and after: a rendered .env that carries the chosen limits starts every such run in band. */
  lemma InstallStartsInBand(c: Context, env: string, selected: map<string, Selected>)
    requires AllInBand(c.profiles, selected) && ReadEnv(env).Some?
    requires forall i :: 0 <= i < |c.profiles| ==>
               Carries(ReadEnv(env).value, KeyOf(c.upper, c.profiles[i].service), selected[c.profiles[i].service])
    ensures EnvInBand(c, env)
  {
    hide ReadEnv, KeyOf, InBand, Itoa, Atoi, TrimSpace;
    forall i | 0 <= i < |c.profiles|
      ensures LimitsInBand(c, ReadEnv(env).value, c.profiles[i])
    {
      var s := selected[c.profiles[i].service];
      ItoaIsAWord(s.pids);
      AtoiOfItoa(s.pids);
    }
  }
}
