// planPorts: the bounded re-planning loop against an external probe, and what it
// amounts to on a host whose answers do not change (install_phase_plan.go).
module PortRetry {
  import opened Wrappers
  import opened Text
  import opened PortPlanning

  // Denied is a bind refused for lack of privileges (EACCES).
  datatype ProbeResult = Free | Denied | Failed

  // The environment: what the n-th probe answers for a binding. It may change arbitrarily with n.
  type Environment = (nat, PortBinding) -> ProbeResult

  const MAX_ATTEMPTS: nat := 64
  const SCAN_WINDOW: nat := 1024

  datatype Search = Search(
    base: seq<PortBinding>, explicit: PortMap, rangePorts: set<int>, publicPorts: set<int>,
    autoPort: bool, answer: Environment)
  {
    ghost predicate Accepts(m: PortMap) { OverridesAccepted(base, m, rangePorts, publicPorts) }
  }

  // ---- One round as a function of the environment ----

  /** The first binding, from i on, that its probe does not report free; binding j is probed at time t + j. */
  ghost function FirstConflict(planned: seq<PortBinding>, answer: Environment, t: nat, i: nat): (k: nat)
    requires i <= |planned|
    ensures i <= k <= |planned|
    ensures forall j :: i <= j < k ==> answer(t + j, planned[j]) == Free
    ensures k < |planned| ==> answer(t + k, planned[k]) != Free
    decreases |planned| - i
  {
    if i == |planned| || answer(t + i, planned[i]) != Free then i
    else FirstConflict(planned, answer, t, i + 1)
  }

  lemma FirstConflictFrom(planned: seq<PortBinding>, answer: Environment, t: nat, i: nat)
    requires i <= |planned|
    ensures FirstConflict(planned, answer, t, i) ==
            if i == |planned| || answer(t + i, planned[i]) != Free then i else FirstConflict(planned, answer, t, i + 1)
  {
  }

  function ScanStart(b: PortBinding): int {
    if b.hostPort + 1 <= 1024 then 1025 else b.hostPort + 1
  }

  function ScanEnd(b: PortBinding): int {
    if ScanStart(b) + SCAN_WINDOW <= 65536 then ScanStart(b) + SCAN_WINDOW else 65536
  }

  datatype ScanResult = ScanResult(port: int, clock: nat)

  /** Probes the candidates c, c + 1, ... not in avoid; port 0 when none of them answers free. */
  ghost function ScanFrom(answer: Environment, t: nat, b: PortBinding, c: int, avoid: set<int>): (r: ScanResult)
    requires ScanStart(b) <= c
    ensures r.port != 0 ==> c <= r.port < ScanEnd(b) && r.port !in avoid && r.clock > 0
    ensures r.port != 0 ==> answer(r.clock - 1, b.(hostPort := r.port)) == Free
    decreases ScanEnd(b) - c
  {
    if c >= ScanEnd(b) then ScanResult(0, t)
    else if c in avoid then ScanFrom(answer, t, b, c + 1, avoid)
    else if answer(t, b.(hostPort := c)) == Free then ScanResult(c, t + 1)
    else ScanFrom(answer, t + 1, b, c + 1, avoid)
  }

  predicate Suggestible(s: Search, b: PortBinding, result: ProbeResult) {
    result != Denied && b.hostIP == LOOPBACK && b.hostPort !in s.rangePorts && b.hostPort !in s.publicPorts
  }

  // The typed conflict: the suggestion (0 for none) when the binding is remappable, None for a plain error.
  datatype Conflict = Conflict(suggestion: Option<int>, clock: nat)

  ghost function ConflictAt(s: Search, planned: seq<PortBinding>, t: nat, k: nat): Conflict
    requires k < |planned|
  {
    if Suggestible(s, planned[k], s.answer(t + k, planned[k])) then
      var scan := ScanFrom(s.answer, t + k + 1, planned[k], ScanStart(planned[k]), HostPorts(planned));
      Conflict(Some(scan.port), scan.clock)
    else Conflict(None, t + k + 1)
  }

  datatype Outcome =
    | Planned(bindings: seq<PortBinding>, overrides: PortMap, attempt: nat, clock: nat)
    | Refused

  predicate GivesUp(s: Search, k: nat, suggestion: Option<int>, attempt: nat)
    requires k < |s.base|
  {
    !s.autoPort || s.base[k].hostPort in s.explicit || suggestion.None? || suggestion.value == 0 || attempt >= MAX_ATTEMPTS
  }

  // Refusal, a plan whose bindings all probed free, or one more override to retry with.
  datatype Round = Final | AllFree(bindings: seq<PortBinding>) | Retry(overrides: PortMap)

  ghost function RoundAt(s: Search, overrides: PortMap, attempt: nat, t: nat): (r: (Round, nat))
    ensures r.0.Retry? ==> attempt < MAX_ATTEMPTS
  {
    if !s.Accepts(overrides) then (Final, t)
    else
      var planned := Substituted(s.base, overrides);
      var k := FirstConflict(planned, s.answer, t, 0);
      if k == |planned| then (AllFree(planned), t + k)
      else
        var conflict := ConflictAt(s, planned, t, k);
        if GivesUp(s, k, conflict.suggestion, attempt) then (Final, conflict.clock)
        else (Retry(overrides[s.base[k].hostPort := conflict.suggestion.value]), conflict.clock)
  }

  /** The rounds from the given attempt on. Attempt numbers run from 0 to 64, so there are at most 65 rounds. */
  ghost function PlanRun(s: Search, overrides: PortMap, attempt: nat, t: nat): (r: Outcome)
    requires attempt <= MAX_ATTEMPTS
    ensures r.Planned? ==> attempt <= r.attempt <= MAX_ATTEMPTS
    decreases MAX_ATTEMPTS - attempt
  {
    var (round, clock) := RoundAt(s, overrides, attempt, t);
    match round
    case Final => Refused
    case AllFree(bindings) => Planned(bindings, overrides, attempt, clock)
    case Retry(overrides') => PlanRun(s, overrides', attempt + 1, clock)
  }

  // ---- The imperative planner ----

  class Host {
    const answer: Environment
    var clock: nat

    constructor (answer: Environment)
      ensures this.answer == answer && clock == 0
    {
      this.answer := answer;
      clock := 0;
    }

    method Probe(b: PortBinding) returns (result: ProbeResult)
      modifies this
      ensures result == answer(old(clock), b) && clock == old(clock) + 1
    {
      result := answer(clock, b);
      clock := clock + 1;
    }
  }

  // The port rendered into the local target URL, as far as the admin backstop reads it.
  datatype TargetURL = NoTemplate | Unrenderable | Rendered(port: Option<int>)

  datatype AdminHints = AdminHints(target: TargetURL, pangolinPort: Option<int>)

  ghost predicate PublicAdminPort(base: seq<PortBinding>, publicPorts: set<int>, hints: AdminHints) {
    exists b :: b in base && b.hostPort in publicPorts
                && (hints.target == Rendered(Some(b.hostPort)) || hints.pangolinPort == Some(b.hostPort))
  }

  /** The fallback to the first non-public port can never be the reason for a refusal. */
  method RefusePublicAdminPorts(base: seq<PortBinding>, publicPorts: set<int>, hints: AdminHints) returns (refused: bool)
    ensures refused <==> publicPorts != {} && (hints.target.Unrenderable? || PublicAdminPort(base, publicPorts, hints))
  {
    if publicPorts == {} {
      return false;
    }
    var admin: set<int> := {};
    match hints.target {
      case Unrenderable => return true;
      case Rendered(port) => if port.Some? { admin := {port.value}; }
      case NoTemplate =>
        var i := 0;
        while i < |base| && base[i].hostPort in publicPorts
          invariant 0 <= i <= |base|
        {
          i := i + 1;
        }
        if i < |base| {
          admin := {base[i].hostPort};
        }
    }
    if hints.pangolinPort.Some? {
      admin := admin + {hints.pangolinPort.value};
    }
    for i := 0 to |base|
      invariant forall j :: 0 <= j < i ==> !(base[j].hostPort in publicPorts && base[j].hostPort in admin)
    {
      if base[i].hostPort in publicPorts && base[i].hostPort in admin {
        return true;
      }
    }
    refused := false;
  }

  method Clone(base: seq<PortBinding>) returns (copy: array<PortBinding>)
    ensures fresh(copy) && copy[..] == base
  {
    copy := new PortBinding[|base|](i requires 0 <= i < |base| => base[i]);
  }

  class InstallPlan {
    const ports: seq<Port>
    const hints: AdminHints
    const autoPort: bool
    const host: Host
    var portOverrides: PortMap
    var localPorts: seq<PortBinding>

    constructor (ports: seq<Port>, hints: AdminHints, autoPort: bool, host: Host, portOverrides: PortMap)
      ensures this.ports == ports && this.hints == hints && this.autoPort == autoPort && this.host == host
      ensures this.portOverrides == portOverrides && localPorts == []
    {
      this.ports, this.hints, this.autoPort, this.host := ports, hints, autoPort, host;
      this.portOverrides, localPorts := portOverrides, [];
    }

    ghost predicate CatalogAccepted() {
      && AllWellFormed(ports) && KeysDistinct(ExpandedAll(ports))
      && var publicPorts := HostPortsOfKind(ports, PublicPort);
         !(publicPorts != {} && (hints.target.Unrenderable? || PublicAdminPort(ExpandedAll(ports), publicPorts, hints)))
    }

    ghost function TheSearch(explicit: PortMap): Search
      requires AllWellFormed(ports)
    {
      Search(ExpandedAll(ports), explicit, HostPortsOfKind(ports, RangePort), HostPortsOfKind(ports, PublicPort), autoPort, host.answer)
    }

    method SuggestFreePort(conflict: PortBinding, plannedPorts: set<int>) returns (port: int)
      modifies host
      ensures ScanResult(port, host.clock) ==
              ScanFrom(host.answer, old(host.clock), conflict, ScanStart(conflict), plannedPorts)
    {
      var start := conflict.hostPort + 1;
      if start <= 1024 {
        start := 1025;
      }
      var candidate := start;
      while candidate < start + SCAN_WINDOW && candidate <= 65535
        invariant start <= candidate
        invariant ScanFrom(host.answer, host.clock, conflict, candidate, plannedPorts) ==
                  ScanFrom(host.answer, old(host.clock), conflict, start, plannedPorts)
        decreases 65536 - candidate
      {
        if candidate !in plannedPorts {
          var probe := host.Probe(conflict.(hostPort := candidate));
          if probe == Free {
            return candidate;
          }
        }
        candidate := candidate + 1;
      }
      port := 0;
    }

    method EnrichPortConflict(s: Search, binding: PortBinding, plannedPorts: set<int>, result: ProbeResult)
      returns (suggestion: Option<int>)
      modifies host
      ensures !Suggestible(s, binding, result) ==> suggestion == None && host.clock == old(host.clock)
      ensures Suggestible(s, binding, result) ==>
        var scan := ScanFrom(host.answer, old(host.clock), binding, ScanStart(binding), plannedPorts);
        suggestion == Some(scan.port) && host.clock == scan.clock
    {
      if result == Denied {
        return None;
      }
      if binding.hostIP != LOOPBACK {
        return None;
      }
      if binding.hostPort in s.rangePorts || binding.hostPort in s.publicPorts {
        return None;
      }
      var port := SuggestFreePort(binding, plannedPorts);
      suggestion := Some(port);
    }

    /** Probes the planned bindings in order up to the first that is not free. */
    method ProbePlanned(planned: array<PortBinding>) returns (conflict: int, result: ProbeResult, bound: seq<PortBinding>)
      modifies host
      ensures var k := FirstConflict(planned[..], host.answer, old(host.clock), 0);
              if k == planned.Length
              then conflict == -1 && bound == planned[..] && host.clock == old(host.clock) + k
              else conflict == k && result == host.answer(old(host.clock) + k, planned[k]) && host.clock == old(host.clock) + k + 1
    {
      hide FirstConflict;
      conflict, result, bound := -1, Free, [];
      ghost var plan, t := planned[..], host.clock;
      for i := 0 to planned.Length
        invariant planned[..] == plan && host.clock == t + i && bound == plan[..i]
        invariant FirstConflict(plan, host.answer, t, i) == FirstConflict(plan, host.answer, t, 0)
      {
        FirstConflictFrom(plan, host.answer, t, i);
        result := host.Probe(planned[i]);
        assert planned[i] == plan[i];
        if result != Free {
          conflict := i;
          return;
        }
        bound := bound + [planned[i]];
      }
      FirstConflictFrom(plan, host.answer, t, planned.Length);
    }

    /** One attempt: rewrite a fresh clone of the catalog bindings, probe it, and decide on the first conflict. */
    method PlanRound(s: Search, overrides: PortMap, attempt: nat) returns (round: Round)
      requires s.answer == host.answer
      modifies host
      ensures (round, host.clock) == RoundAt(s, overrides, attempt, old(host.clock))
    {
      hide OverridesAccepted, Substituted, FirstConflict, ScanFrom, HostPorts, Suggestible;
      var planned := Clone(s.base);
      var accepted := ApplyPortOverrides(planned, overrides, s.rangePorts, s.publicPorts);
      if !accepted {
        return Final;
      }
      var conflict, result, bound := ProbePlanned(planned);
      if conflict == -1 {
        return AllFree(bound);
      }
      var suggestion := EnrichPortConflict(s, planned[conflict], HostPorts(planned[..]), result);
      if GivesUp(s, conflict, suggestion, attempt) {
        return Final;
      }
      round := Retry(overrides[s.base[conflict].hostPort := suggestion.value]);
    }

    /** The retry loop: re-plan from the catalog ports until a whole round probes free or a conflict is final. */
    method Replan(s: Search) returns (ok: bool, bound: seq<PortBinding>, overrides: PortMap)
      requires s.answer == host.answer
      modifies host
      ensures var outcome := PlanRun(s, s.explicit, 0, old(host.clock));
              && (ok <==> outcome.Planned?)
              && (ok ==> bound == outcome.bindings && overrides == outcome.overrides && host.clock == outcome.clock)
    {
      hide RoundAt;
      overrides := s.explicit;
      var attempt := 0;
      while true
        invariant 0 <= attempt <= MAX_ATTEMPTS
        invariant PlanRun(s, overrides, attempt, host.clock) == PlanRun(s, s.explicit, 0, old(host.clock))
        decreases MAX_ATTEMPTS - attempt
      {
        var round := PlanRound(s, overrides, attempt);
        match round {
          case Final => return false, [], overrides;
          case AllFree(bindings) => return true, bindings, overrides;
          case Retry(overrides') => overrides, attempt := overrides', attempt + 1;
        }
      }
    }

    method PlanPorts() returns (ok: bool)
      modifies this, host
      ensures ok ==> CatalogAccepted()
      ensures CatalogAccepted() ==>
        var outcome := PlanRun(TheSearch(old(portOverrides)), old(portOverrides), 0, old(host.clock));
        && (ok <==> outcome.Planned?)
        && (ok ==> localPorts == outcome.bindings && portOverrides == outcome.overrides && host.clock == outcome.clock)
      ensures !ok ==> localPorts == old(localPorts) && portOverrides == old(portOverrides)
    {
      hide PlanRun, WellFormed, Expanded, ExpandedAll, HostPortsOfKind, KeysDistinct;
      var catalog := CatalogPortBindings(ports);
      if catalog.None? {
        return false;
      }
      var CatalogBindings(base, publicPorts, rangePorts) := catalog.value;
      var refused := RefusePublicAdminPorts(base, publicPorts, hints);
      if refused {
        return false;
      }
      var bound, overrides;
      ok, bound, overrides := Replan(Search(base, portOverrides, rangePorts, publicPorts, autoPort, host.answer));
      if ok {
        localPorts, portOverrides := bound, overrides;
      }
    }
  }

  // ---- Any environment ----

  /** The bindings as probed in the last round: consecutive probes, each answering free. */
  ghost predicate AllFreeAt(answer: Environment, t: nat, bs: seq<PortBinding>) {
    forall j :: 0 <= j < |bs| ==> answer(t + j, bs[j]) == Free
  }

  /** The conflicting binding must not be moved: the request says so, or its probe was refused for lack of privileges, or
      the binding is not on loopback, or its host port is a range's or public. */
  ghost predicate Immovable(s: Search, b: PortBinding, source: int, result: ProbeResult) {
    || !s.autoPort || source in s.explicit || result == Denied || b.hostIP != "127.0.0.1"
    || b.hostPort in s.rangePorts || b.hostPort in s.publicPorts
  }

  lemma RoundDecides(s: Search, overrides: PortMap, attempt: nat, t: nat, k: nat)
    requires attempt <= 64 && s.Accepts(overrides) && k < |s.base| && k == FirstConflict(Substituted(s.base, overrides), s.answer, t, 0)
    ensures var planned := Substituted(s.base, overrides);
            var scan := ScanFrom(s.answer, t + k + 1, planned[k], ScanStart(planned[k]), HostPorts(planned));
            if Immovable(s, planned[k], s.base[k].hostPort, s.answer(t + k, planned[k])) || scan.port == 0 || attempt >= 64
            then RoundAt(s, overrides, attempt, t).0 == Final
            else RoundAt(s, overrides, attempt, t) == (Retry(overrides[s.base[k].hostPort := scan.port]), scan.clock)
  {
    hide ScanFrom, OverridesAccepted, Substituted, FirstConflict, HostPorts;
  }

  /** A round that meets its first conflict ends the run when the binding must not be moved, when no port is found or after
      64 retries; otherwise the next round has that one override more. The host may change meanwhile. */
  lemma ConflictDecides(s: Search, overrides: PortMap, attempt: nat, t: nat, k: nat)
    requires attempt <= 64 && s.Accepts(overrides) && k < |s.base| && k == FirstConflict(Substituted(s.base, overrides), s.answer, t, 0)
    ensures var planned := Substituted(s.base, overrides);
            var scan := ScanFrom(s.answer, t + k + 1, planned[k], ScanStart(planned[k]), HostPorts(planned));
            PlanRun(s, overrides, attempt, t) ==
            if Immovable(s, planned[k], s.base[k].hostPort, s.answer(t + k, planned[k])) || scan.port == 0 || attempt >= 64 then Refused
            else PlanRun(s, overrides[s.base[k].hostPort := scan.port], attempt + 1, scan.clock)
  {
    hide ScanFrom, OverridesAccepted, Substituted, FirstConflict, RoundAt, Immovable, HostPorts;
    RoundDecides(s, overrides, attempt, t, k);
  }

  /** Without auto-port nothing is moved that the request did not move: there is one round. */
  lemma WithoutAutoPortOneRound(s: Search, t: nat)
    requires !s.autoPort
    ensures PlanRun(s, s.explicit, 0, t).Planned? <==>
              s.Accepts(s.explicit) && AllFreeAt(s.answer, t, Substituted(s.base, s.explicit))
    ensures PlanRun(s, s.explicit, 0, t).Planned? ==>
              PlanRun(s, s.explicit, 0, t).bindings == Substituted(s.base, s.explicit) && PlanRun(s, s.explicit, 0, t).overrides == s.explicit
  {
    hide ScanFrom, OverridesAccepted, Substituted, FirstConflict;
    if s.Accepts(s.explicit) {
      var planned := Substituted(s.base, s.explicit);
      var k := FirstConflict(planned, s.answer, t, 0);
      if k < |planned| {
        ConflictDecides(s, s.explicit, 0, t, k);
      }
    }
  }

  /** Overrides grow by ports the request did not set itself. */
  ghost predicate KeepsExplicit(s: Search, m: PortMap) {
    forall source :: source in s.explicit ==> source in m && m[source] == s.explicit[source]
  }

  lemma RoundShape(s: Search, overrides: PortMap, attempt: nat, t: nat)
    requires KeepsExplicit(s, overrides)
    ensures var (round, clock) := RoundAt(s, overrides, attempt, t);
            && (round.Retry? ==> KeepsExplicit(s, round.overrides))
            && (round.AllFree? ==>
                 && s.Accepts(overrides) && round.bindings == Substituted(s.base, overrides)
                 && clock >= |round.bindings| && AllFreeAt(s.answer, clock - |round.bindings|, round.bindings))
  {
    hide OverridesAccepted, ScanFrom;
  }

  /** A successful plan, however the host changes while it is made. */
  lemma {:induction false} PlannedIsSound(s: Search, overrides: PortMap, attempt: nat, t: nat)
    requires attempt <= MAX_ATTEMPTS && KeysDistinct(s.base) && KeepsExplicit(s, overrides)
    ensures var r := PlanRun(s, overrides, attempt, t);
            r.Planned? ==>
              && s.Accepts(r.overrides) && KeepsExplicit(s, r.overrides)
              && r.bindings == Substituted(s.base, r.overrides) && KeysDistinct(r.bindings)
              && r.clock >= |r.bindings| && AllFreeAt(s.answer, r.clock - |r.bindings|, r.bindings)
    decreases MAX_ATTEMPTS - attempt
  {
    hide RoundAt, OverridesAccepted, Substituted, KeysDistinct, KeepsExplicit, AllFreeAt;
    RoundShape(s, overrides, attempt, t);
    var (round, clock) := RoundAt(s, overrides, attempt, t);
    if round.AllFree? {
      SubstitutionShape(s.base, overrides, s.rangePorts, s.publicPorts);
    } else if round.Retry? {
      PlannedIsSound(s, round.overrides, attempt + 1, clock);
    }
  }

  /** What the user sees of it: binding by binding, only a remappable host port may have moved. */
  lemma PlannedPreservesCatalog(s: Search, t: nat, i: nat)
    requires KeysDistinct(s.base) && i < |s.base|
    ensures var r := PlanRun(s, s.explicit, 0, t);
            r.Planned? ==>
              && |r.bindings| == |s.base|
              && r.bindings[i].(hostPort := s.base[i].hostPort) == s.base[i]
              && (s.base[i].hostPort in s.rangePorts || s.base[i].hostPort in s.publicPorts ==> r.bindings[i] == s.base[i])
              && (r.bindings[i] != s.base[i] ==> 1024 < r.bindings[i].hostPort <= 65535)
              && (IsFirst(s.base, i) && s.base[i].hostPort in s.explicit ==> r.bindings[i].hostPort == s.explicit[s.base[i].hostPort])
  {
    PlannedIsSound(s, s.explicit, 0, t);
    var r := PlanRun(s, s.explicit, 0, t);
    if r.Planned? {
      SubstitutionShape(s.base, r.overrides, s.rangePorts, s.publicPorts);
    }
  }

  // ---- A host whose answers do not change ----

  ghost predicate Steady(answer: Environment) {
    forall t: nat, b :: answer(t, b) == answer(0, b)
  }

  ghost predicate Available(answer: Environment, b: PortBinding) { answer(0, b) == Free }

  ghost predicate IsCandidate(answer: Environment, b: PortBinding, avoid: set<int>, port: int) {
    ScanStart(b) <= port < ScanEnd(b) && port !in avoid && Available(answer, b.(hostPort := port))
  }

  /** The scan returns the least free unplanned port of its window, and 0 exactly when there is none. */
  lemma {:induction false} ScanIsLeast(answer: Environment, t: nat, b: PortBinding, c: int, avoid: set<int>)
    requires Steady(answer) && ScanStart(b) <= c
    ensures var port := ScanFrom(answer, t, b, c, avoid).port;
            && (port != 0 ==> IsCandidate(answer, b, avoid, port) && forall p :: c <= p < port ==> !IsCandidate(answer, b, avoid, p))
            && (port == 0 ==> forall p :: c <= p ==> !IsCandidate(answer, b, avoid, p))
    decreases ScanEnd(b) - c
  {
    if c < ScanEnd(b) {
      if c in avoid {
        ScanIsLeast(answer, t, b, c + 1, avoid);
      } else {
        assert Available(answer, b.(hostPort := c)) <==> answer(t, b.(hostPort := c)) == Free;
        ScanIsLeast(answer, t + 1, b, c + 1, avoid);
      }
    }
  }

  /** Where a suggestion is looked for: above the conflicting port and above 1024, through 1024 candidates or to 65535. */
  predicate InWindow(b: PortBinding, port: int) {
    b.hostPort < port && 1024 < port <= 65535 && (port <= b.hostPort + 1024 || port <= 2048)
  }

  /** The suggested port is the least one of the window that is not planned and that the host gives; 0 means there is none. */
  lemma SuggestionIsLeastFree(answer: Environment, t: nat, b: PortBinding, avoid: set<int>)
    requires Steady(answer)
    ensures var port := ScanFrom(answer, t, b, ScanStart(b), avoid).port;
            && (port != 0 ==> InWindow(b, port) && port !in avoid && answer(0, b.(hostPort := port)) == Free)
            && forall p :: InWindow(b, p) && p !in avoid && answer(0, b.(hostPort := p)) == Free ==> port != 0 && port <= p
  {
    hide ScanFrom, Steady;
    var port := ScanFrom(answer, t, b, ScanStart(b), avoid).port;
    ScanIsLeast(answer, t, b, ScanStart(b), avoid);
    assert forall p :: InWindow(b, p) <==> ScanStart(b) <= p < ScanEnd(b);
    assert forall p :: IsCandidate(answer, b, avoid, p) <==> InWindow(b, p) && p !in avoid && answer(0, b.(hostPort := p)) == Free;
  }

  ghost predicate IsLeastCandidate(answer: Environment, b: PortBinding, avoid: set<int>, port: int) {
    IsCandidate(answer, b, avoid, port) && forall p :: p < port ==> !IsCandidate(answer, b, avoid, p)
  }

  /** Binding k of the plan may be moved off a conflict: the whole condition, read off the request and the host. */
  ghost predicate Repairable(s: Search, planned: seq<PortBinding>, k: nat)
    requires k < |planned| == |s.base|
  {
    && s.autoPort && s.base[k].hostPort !in s.explicit && IsFirst(s.base, k)
    && Suggestible(s, planned[k], s.answer(0, planned[k]))
    && exists port :: IsLeastCandidate(s.answer, planned[k], HostPorts(planned), port)
  }

  /** Reference: a single left-to-right pass that moves each taken binding to the least free port above it. */
  ghost function Repair(s: Search, planned: seq<PortBinding>, i: nat): Option<seq<PortBinding>>
    requires i <= |planned| == |s.base|
    decreases |planned| - i
  {
    if i == |planned| then Some(planned)
    else if Available(s.answer, planned[i]) then Repair(s, planned, i + 1)
    else if !Repairable(s, planned, i) then None
    else
      var port :| IsLeastCandidate(s.answer, planned[i], HostPorts(planned), port);
      Repair(s, planned[i := planned[i].(hostPort := port)], i + 1)
  }

  /** How many bindings, from i on, the host refuses. */
  ghost function Taken(answer: Environment, planned: seq<PortBinding>, i: nat): nat
    requires i <= |planned|
    decreases |planned| - i
  {
    if i == |planned| then 0
    else (if Available(answer, planned[i]) then 0 else 1) + Taken(answer, planned, i + 1)
  }

  lemma {:induction false} SkipAvailable(s: Search, planned: seq<PortBinding>, i: nat, k: nat)
    requires i <= k <= |planned| == |s.base|
    requires forall j :: i <= j < k ==> Available(s.answer, planned[j])
    ensures Repair(s, planned, i) == Repair(s, planned, k)
    ensures Taken(s.answer, planned, i) == Taken(s.answer, planned, k)
    decreases k - i
  {
    if i < k {
      SkipAvailable(s, planned, i + 1, k);
    }
  }

  lemma {:induction false} TakenDependsOnTail(answer: Environment, p: seq<PortBinding>, q: seq<PortBinding>, i: nat)
    requires i <= |p| == |q| && forall j :: i <= j < |p| ==> p[j] == q[j]
    ensures Taken(answer, p, i) == Taken(answer, q, i)
    decreases |p| - i
  {
    if i < |p| {
      TakenDependsOnTail(answer, p, q, i + 1);
    }
  }

  /** Overriding one more first binding changes exactly that binding. */
  lemma SubstituteOneMore(base: seq<PortBinding>, m: PortMap, k: nat, port: GoInt)
    requires IsFirst(base, k)
    ensures Substituted(base, m[base[k].hostPort := port]) == Substituted(base, m)[k := base[k].(hostPort := port)]
  {
    var longer := Substituted(base, m[base[k].hostPort := port]);
    forall i | 0 <= i < |base|
      ensures longer[i] == Substituted(base, m)[k := base[k].(hostPort := port)][i]
    {
      if i != k && IsFirst(base, i) {
        assert base[i].hostPort != base[k].hostPort;
      }
    }
  }

  /** Moving one binding to a host port nobody plans keeps the pairs distinct. */
  lemma MoveKeepsDistinct(planned: seq<PortBinding>, k: nat, b: PortBinding)
    requires KeysDistinct(planned) && k < |planned| && b.hostPort !in HostPorts(planned)
    ensures KeysDistinct(planned[k := b])
  {
    hide HostPorts;
    var next := planned[k := b];
    forall i, j | 0 <= i < j < |next|
      ensures BindKey(next[i]) != BindKey(next[j])
    {
      assert BindKey(planned[i]) != BindKey(planned[j]);
      assert planned[i] in planned && planned[j] in planned;
      PlannedPort(planned, i);
      PlannedPort(planned, j);
    }
  }

  lemma PlannedPort(planned: seq<PortBinding>, i: nat)
    requires i < |planned|
    ensures planned[i].hostPort in HostPorts(planned)
  {
    assert planned[i] in planned;
  }

  /** The source of a conflicting first binding can carry an override to the port. */
  lemma SourceIsValid(s: Search, m: PortMap, k: nat, port: GoInt)
    requires s.Accepts(m) && IsFirst(s.base, k) && 1024 < port <= 65535
    requires Substituted(s.base, m)[k].hostPort !in s.rangePorts && Substituted(s.base, m)[k].hostPort !in s.publicPorts
    ensures OverrideValid(s.base, s.base[k].hostPort, port, s.rangePorts, s.publicPorts)
  {
    hide KeysDistinct;
    var source := s.base[k].hostPort;
    assert Binds(s.base, source);
    if source in m {
      assert OverrideValid(s.base, source, m[source], s.rangePorts, s.publicPorts);
    }
  }

  lemma OneMoreOverride(s: Search, m: PortMap, source: int, port: GoInt)
    requires s.Accepts(m) && OverrideValid(s.base, source, port, s.rangePorts, s.publicPorts)
    requires KeysDistinct(Substituted(s.base, m[source := port]))
    ensures s.Accepts(m[source := port])
  {
    hide Substituted, KeysDistinct, OverrideValid;
    var longer := m[source := port];
    forall x | x in longer
      ensures OverrideValid(s.base, x, longer[x], s.rangePorts, s.publicPorts)
    {
      assert x == source || (x in m && longer[x] == m[x]);
    }
  }

  /** A suggested port keeps the override map acceptable. */
  lemma SuggestionAccepted(s: Search, m: PortMap, k: nat, port: GoInt)
    requires KeysDistinct(s.base) && s.Accepts(m) && IsFirst(s.base, k)
    requires var planned := Substituted(s.base, m);
             && planned[k].hostPort !in s.rangePorts && planned[k].hostPort !in s.publicPorts
             && port !in HostPorts(planned) && 1024 < port <= 65535
    ensures s.Accepts(m[s.base[k].hostPort := port])
  {
    hide Substituted, KeysDistinct, OverridesAccepted, OverrideValid, HostPorts;
    SubstituteOneMore(s.base, m, k, port);
    SubstitutionShape(s.base, m, s.rangePorts, s.publicPorts);
    MoveKeepsDistinct(Substituted(s.base, m), k, s.base[k].(hostPort := port));
    SourceIsValid(s, m, k, port);
    OneMoreOverride(s, m, s.base[k].hostPort, port);
  }

  lemma RoundMeetsStuck(s: Search, overrides: PortMap, attempt: nat, t: nat, i: nat)
    requires Steady(s.answer) && i < |s.base| && !IsFirst(s.base, i) && !Available(s.answer, s.base[i])
    ensures !RoundAt(s, overrides, attempt, t).0.AllFree?
  {
    hide OverridesAccepted, ScanFrom;
    var planned := Substituted(s.base, overrides);
    assert s.answer(t + i, planned[i]) == s.answer(0, planned[i]);
  }

  /** A taken binding that is not the first of its host port is never moved, so no later round can succeed. */
  lemma {:induction false} StuckBehindFirst(s: Search, overrides: PortMap, attempt: nat, t: nat, i: nat)
    requires attempt <= MAX_ATTEMPTS && Steady(s.answer)
    requires i < |s.base| && !IsFirst(s.base, i) && !Available(s.answer, s.base[i])
    ensures PlanRun(s, overrides, attempt, t).Refused?
    decreases MAX_ATTEMPTS - attempt
  {
    hide RoundAt, IsFirst;
    RoundMeetsStuck(s, overrides, attempt, t, i);
    var (round, clock) := RoundAt(s, overrides, attempt, t);
    if round.Retry? {
      StuckBehindFirst(s, round.overrides, attempt + 1, clock, i);
    }
  }

  /** What the conflict of a round says, on a steady host. */
  lemma ConflictOnSteadyHost(s: Search, planned: seq<PortBinding>, t: nat, k: nat)
    requires Steady(s.answer) && k < |planned| == |s.base|
    ensures var suggestion := ConflictAt(s, planned, t, k).suggestion;
            && (suggestion.Some? <==> Suggestible(s, planned[k], s.answer(0, planned[k])))
            && (suggestion.Some? && suggestion.value != 0 ==> IsLeastCandidate(s.answer, planned[k], HostPorts(planned), suggestion.value))
            && (suggestion == Some(0) ==> forall p :: !IsLeastCandidate(s.answer, planned[k], HostPorts(planned), p))
  {
    assert s.answer(t + k, planned[k]) == s.answer(0, planned[k]);
    ScanIsLeast(s.answer, t + k + 1, planned[k], ScanStart(planned[k]), HostPorts(planned));
  }

  lemma FirstConflictOnSteadyHost(planned: seq<PortBinding>, answer: Environment, t: nat)
    requires Steady(answer)
    ensures var k := FirstConflict(planned, answer, t, 0);
            && (forall j :: 0 <= j < k ==> Available(answer, planned[j]))
            && (k < |planned| ==> !Available(answer, planned[k]))
  {
    assert forall j :: 0 <= j < |planned| ==> answer(t + j, planned[j]) == answer(0, planned[j]);
  }

  lemma NotFirstUnmoved(base: seq<PortBinding>, m: PortMap, k: nat)
    requires k < |base| && !IsFirst(base, k)
    ensures Substituted(base, m)[k] == base[k]
  {
  }

  /** The pass takes the same port the loop was offered. */
  lemma RepairTakesLeast(s: Search, planned: seq<PortBinding>, k: nat, port: int)
    requires k < |planned| == |s.base| && !Available(s.answer, planned[k]) && Repairable(s, planned, k)
    requires IsLeastCandidate(s.answer, planned[k], HostPorts(planned), port)
    ensures Repair(s, planned, k) == Repair(s, planned[k := planned[k].(hostPort := port)], k + 1)
  {
    forall p | IsLeastCandidate(s.answer, planned[k], HostPorts(planned), p)
      ensures p == port
    {
    }
  }

  /** From any round on, with everything before i settled, the rest of the loop is the rest of the pass. */
  lemma {:induction false} RetryIsRepair(s: Search, overrides: PortMap, attempt: nat, t: nat, i: nat)
    requires attempt <= MAX_ATTEMPTS && Steady(s.answer) && KeysDistinct(s.base)
    requires s.Accepts(overrides) && i <= |s.base|
    requires forall j :: 0 <= j < i ==> Available(s.answer, Substituted(s.base, overrides)[j])
    ensures var planned := Substituted(s.base, overrides);
            var r, repaired := PlanRun(s, overrides, attempt, t), Repair(s, planned, i);
            && (r.Planned? <==> repaired.Some? && attempt + Taken(s.answer, planned, i) <= MAX_ATTEMPTS)
            && (r.Planned? ==> r.bindings == repaired.value && r.attempt == attempt + Taken(s.answer, planned, i))
    decreases |s.base| - i
  {
    hide OverridesAccepted, Substituted, FirstConflict, ScanFrom, KeysDistinct, ConflictAt, IsLeastCandidate, IsFirst, Suggestible, Steady;
    var planned := Substituted(s.base, overrides);
    var k := FirstConflict(planned, s.answer, t, 0);
    FirstConflictOnSteadyHost(planned, s.answer, t);
    SkipAvailable(s, planned, i, k);
    if k < |planned| {
      var conflict := ConflictAt(s, planned, t, k);
      ConflictOnSteadyHost(s, planned, t, k);
      if !IsFirst(s.base, k) {
        assert planned[k] == s.base[k] by { NotFirstUnmoved(s.base, overrides, k); }
        StuckBehindFirst(s, overrides, attempt, t, k);
      } else if !GivesUp(s, k, conflict.suggestion, attempt) {
        RepairThenRetry(s, overrides, planned, k, conflict.suggestion.value);
        RetryIsRepair(s, overrides[s.base[k].hostPort := conflict.suggestion.value], attempt + 1, conflict.clock, k + 1);
      }
    }
  }

  /** One repaired conflict: the next round's plan is the pass's next plan, and is accepted. */
  lemma RepairThenRetry(s: Search, overrides: PortMap, planned: seq<PortBinding>, k: nat, port: int)
    requires KeysDistinct(s.base) && s.Accepts(overrides) && planned == Substituted(s.base, overrides)
    requires k < |planned| && !Available(s.answer, planned[k]) && Repairable(s, planned, k)
    requires IsLeastCandidate(s.answer, planned[k], HostPorts(planned), port)
    requires forall j :: 0 <= j < k ==> Available(s.answer, planned[j])
    ensures MIN_INT <= port <= MAX_INT && s.Accepts(overrides[s.base[k].hostPort := port])
    ensures var next := Substituted(s.base, overrides[s.base[k].hostPort := port]);
            && Repair(s, planned, k) == Repair(s, next, k + 1)
            && Taken(s.answer, planned, k) == 1 + Taken(s.answer, next, k + 1)
            && forall j :: 0 <= j < k + 1 ==> Available(s.answer, next[j])
  {
    hide OverridesAccepted, KeysDistinct;
    var next := planned[k := planned[k].(hostPort := port)];
    SuggestionAccepted(s, overrides, k, port);
    SubstituteOneMore(s.base, overrides, k, port);
    assert Substituted(s.base, overrides[s.base[k].hostPort := port]) == next;
    RepairTakesLeast(s, planned, k, port);
    TakenDependsOnTail(s.answer, planned, next, k + 1);
  }

  /** On a steady host the retry loop is the single pass, bounded by 64 repairs: it succeeds exactly when the
      pass does and at most 64 bindings are taken, with the same bindings, in one round per taken binding plus one. */
  lemma PlanPortsIsSinglePass(s: Search, t: nat)
    requires Steady(s.answer) && KeysDistinct(s.base)
    ensures var r := PlanRun(s, s.explicit, 0, t);
            var planned := Substituted(s.base, s.explicit);
            var repaired := Repair(s, planned, 0);
            && (r.Planned? <==> s.Accepts(s.explicit) && repaired.Some? && Taken(s.answer, planned, 0) <= MAX_ATTEMPTS)
            && (r.Planned? ==> r.bindings == repaired.value && r.attempt == Taken(s.answer, planned, 0))
  {
    if s.Accepts(s.explicit) {
      RetryIsRepair(s, s.explicit, 0, t, 0);
    }
  }

  // ---- When auto-port succeeds, told from the request and the host ----

  /** The ports of a binding's scan window that the host would give it. */
  ghost function FreeAbove(answer: Environment, b: PortBinding): set<int> {
    set p | ScanStart(b) <= p < ScanEnd(b) && Available(answer, b.(hostPort := p))
  }

  /** A taken binding that may be moved, with more free ports above it than the plan has bindings. */
  ghost predicate Movable(s: Search, b: PortBinding, bindings: nat) {
    Suggestible(s, b, s.answer(0, b)) && |FreeAbove(s.answer, b)| > bindings
  }

  lemma SubsetIsNoLarger(a: set<int>, b: set<int>)
    requires a <= b
    ensures |a| <= |b|
  {
    var rest := b - a;
    assert b == a + rest && a * rest == {};
  }

  lemma {:induction false} FewHostPorts(bs: seq<PortBinding>)
    ensures |HostPorts(bs)| <= |bs|
  {
    if bs != [] {
      var front := bs[..|bs| - 1];
      FewHostPorts(front);
      assert bs == front + [bs[|bs| - 1]];
      assert HostPorts(bs) == HostPorts(front) + {bs[|bs| - 1].hostPort};
    }
  }

  /** Below any candidate there is a least one. */
  lemma {:induction false} LeastCandidate(answer: Environment, b: PortBinding, avoid: set<int>, c: int) returns (least: int)
    requires IsCandidate(answer, b, avoid, c)
    ensures IsLeastCandidate(answer, b, avoid, least)
    decreases c - ScanStart(b)
  {
    if p :| p < c && IsCandidate(answer, b, avoid, p) {
      least := LeastCandidate(answer, b, avoid, p);
    } else {
      least := c;
    }
  }

  lemma MovableIsRepairable(s: Search, planned: seq<PortBinding>, i: nat)
    requires i < |planned| == |s.base| && s.autoPort && IsFirst(s.base, i)
    requires s.base[i].hostPort !in s.explicit && Movable(s, planned[i], |s.base|)
    ensures Repairable(s, planned, i)
  {
    hide Suggestible, IsFirst, Available, HostPorts;
    var free, avoid := FreeAbove(s.answer, planned[i]), HostPorts(planned);
    FewHostPorts(planned);
    if free <= avoid {
      SubsetIsNoLarger(free, avoid);
    }
    var c :| c in free && c !in avoid;
    var least := LeastCandidate(s.answer, planned[i], avoid, c);
  }

  /** Every taken binding from i on can be moved, whatever the earlier ones moved to. */
  ghost predicate AllMovable(s: Search, planned: seq<PortBinding>, i: nat)
    requires |planned| == |s.base|
  {
    forall j :: i <= j < |planned| && !Available(s.answer, planned[j]) ==>
      IsFirst(s.base, j) && s.base[j].hostPort !in s.explicit && Movable(s, planned[j], |s.base|)
  }

  lemma {:induction false} RepairSucceeds(s: Search, planned: seq<PortBinding>, i: nat)
    requires i <= |planned| == |s.base| && s.autoPort && AllMovable(s, planned, i)
    ensures Repair(s, planned, i).Some?
    decreases |planned| - i
  {
    hide Movable, IsFirst, IsLeastCandidate, Available;
    if i < |planned| {
      if Available(s.answer, planned[i]) {
        RepairSucceeds(s, planned, i + 1);
      } else {
        MovableIsRepairable(s, planned, i);
        var port :| IsLeastCandidate(s.answer, planned[i], HostPorts(planned), port);
        RepairSucceeds(s, planned[i := planned[i].(hostPort := port)], i + 1);
        RepairTakesLeast(s, planned, i, port);
      }
    }
  }

  /** Auto-port succeeds on a steady host whenever the request's own overrides are acceptable, catalog host ports are
      distinct, at most 64 planned bindings are taken, none of those is explicit, range, public or privileged, and each
      has more free ports in its window than there are bindings. */
  lemma AutoPortSucceeds(s: Search, t: nat)
    requires Steady(s.answer) && s.autoPort && s.Accepts(s.explicit)
    requires forall i, j :: 0 <= i < j < |s.base| ==> s.base[i].hostPort != s.base[j].hostPort
    requires var planned := Substituted(s.base, s.explicit);
             && Taken(s.answer, planned, 0) <= MAX_ATTEMPTS
             && forall j :: 0 <= j < |planned| && !Available(s.answer, planned[j]) ==>
                  s.base[j].hostPort !in s.explicit && Movable(s, planned[j], |s.base|)
    ensures PlanRun(s, s.explicit, 0, t).Planned?
    ensures PlanRun(s, s.explicit, 0, t).attempt == Taken(s.answer, Substituted(s.base, s.explicit), 0)
  {
    hide OverridesAccepted, Movable, Available, Substituted, PlanRun, Taken, Steady;
    var planned := Substituted(s.base, s.explicit);
    assert KeysDistinct(s.base);
    assert AllMovable(s, planned, 0);
    RepairSucceeds(s, planned, 0);
    PlanPortsIsSinglePass(s, t);
  }
}
