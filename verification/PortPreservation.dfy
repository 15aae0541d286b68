// Recorded host ports across updates, and the agreement of a remapped compose
// with the plan that remapped it (install_port_remap.go).
module PortPreservation {
  import opened Wrappers
  import opened Text
  import opened PortPlanning
  import opened ComposePorts
  import PortRetry

  // ---- Updates keep recorded ports ----

  ghost predicate InBoth(defaults: HostPortMap, effective: HostPortMap, k: Key) {
    k in defaults && k in effective
  }

  /** The override maps the iteration over defaults can end with: one for every iteration order. */
  ghost predicate IsPreserving(defaults: HostPortMap, effective: HostPortMap, overrides: PortMap) {
    && (forall k :: InBoth(defaults, effective, k) && effective[k] != defaults[k] ==> defaults[k] in overrides)
    && (forall h :: h in overrides ==>
         exists k :: InBoth(defaults, effective, k) && defaults[k] == h && effective[k] != h && overrides[h] == effective[k])
  }

  method CollectPreserved(defaults: HostPortMap, effective: HostPortMap) returns (overrides: PortMap)
    ensures IsPreserving(defaults, effective, overrides)
  {
    overrides := map[];
    var pending := defaults.Items;
    while pending != {}
      invariant pending <= defaults.Items
      invariant forall k :: InBoth(defaults, effective, k) && effective[k] != defaults[k] && (k, defaults[k]) !in pending ==> defaults[k] in overrides
      invariant forall h :: h in overrides ==>
        exists k :: InBoth(defaults, effective, k) && defaults[k] == h && effective[k] != h && overrides[h] == effective[k]
      decreases pending
    {
      var entry :| entry in pending;
      var (key, defaultHost) := entry;
      if key in effective && effective[key] != defaultHost {
        assert InBoth(defaults, effective, key);
        overrides := overrides[defaultHost := effective[key]];
      }
      pending := pending - {entry};
    }
  }

  method AllMatched(overrides: PortMap, matched: set<int>) returns (ok: bool)
    ensures ok <==> forall h :: h in overrides ==> h in matched
  {
    var pending := overrides.Items;
    while pending != {}
      invariant pending <= overrides.Items
      invariant forall h :: h in overrides && (h, overrides[h]) !in pending ==> h in matched
      decreases pending
    {
      var entry :| entry in pending;
      var (source, _) := entry;
      if source !in matched {
        assert source in overrides && source !in matched;
        return false;
      }
      pending := pending - {entry};
    }
    ok := true;
  }

  /** The "not matched" refusal is unreachable: every override comes from a binding of the rendered compose. */
  method PreserveUpdateHostPorts(loopback: LoopbackTest, onDisk: Compose, rendered: Compose)
    returns (ok: bool, out: Compose, overrides: PortMap)
    ensures ok
    ensures IsPreserving(HostPortsOf(loopback, rendered), HostPortsOf(loopback, onDisk), overrides)
    ensures out == Rewritten(loopback, rendered, overrides)
  {
    var effective := ExtractLoopbackHostPorts(loopback, onDisk);
    var defaults := ExtractLoopbackHostPorts(loopback, rendered);
    overrides := CollectPreserved(defaults, effective);
    if overrides == map[] {
      NoOverridesNoChange(loopback, rendered);
      return true, rendered, overrides;
    }
    var matched;
    out, matched := RewriteComposeHostPorts(loopback, rendered, overrides);
    forall h | h in overrides
      ensures Matches(loopback, rendered, overrides, h)
    {
      var k :| InBoth(defaults, effective, k) && defaults[k] == h;
      ExtractedIsMatched(loopback, rendered, overrides, k);
    }
    ok := AllMatched(overrides, matched);
  }

  /** Bindings that share a new default must share their recorded port. */
  ghost predicate Consistent(defaults: HostPortMap, effective: HostPortMap) {
    forall k, l :: InBoth(defaults, effective, k) && InBoth(defaults, effective, l) && defaults[k] == defaults[l]
      ==> effective[k] == effective[l]
  }

  ghost predicate HostsDistinct(ports: HostPortMap) {
    forall k, l :: k in ports && l in ports && ports[k] == ports[l] ==> k == l
  }

  ghost predicate KeepsRecorded(effective: HostPortMap, after: HostPortMap) {
    forall k :: InBoth(after, effective, k) ==> after[k] == effective[k]
  }

  /** Every recorded port survives the update exactly when bindings sharing a new default agree on it. */
  lemma PreservationExact(loopback: LoopbackTest, onDisk: Compose, rendered: Compose, overrides: PortMap)
    requires IsPreserving(HostPortsOf(loopback, rendered), HostPortsOf(loopback, onDisk), overrides)
    ensures var defaults, effective := HostPortsOf(loopback, rendered), HostPortsOf(loopback, onDisk);
            var after := HostPortsOf(loopback, Rewritten(loopback, rendered, overrides));
            && after.Keys == defaults.Keys
            && (KeepsRecorded(effective, after) <==> Consistent(defaults, effective))
  {
    hide HostPortsOf, Rewritten;
    var defaults, effective := HostPortsOf(loopback, rendered), HostPortsOf(loopback, onDisk);
    ExtractAfterRewrite(loopback, rendered, overrides);
    var after := HostPortsOf(loopback, Rewritten(loopback, rendered, overrides));
    forall k | InBoth(defaults, effective, k)
      ensures InBoth(after, effective, k) && after[k] == Target(overrides, defaults[k])
    {
    }
    if Consistent(defaults, effective) {
      forall k | InBoth(after, effective, k)
        ensures after[k] == effective[k]
      {
        assert InBoth(defaults, effective, k);
      }
    }
  }

  /** With distinct new defaults, recorded ports are kept and a newly declared binding keeps its default. */
  lemma DistinctDefaultsPreserve(loopback: LoopbackTest, onDisk: Compose, rendered: Compose, overrides: PortMap)
    requires IsPreserving(HostPortsOf(loopback, rendered), HostPortsOf(loopback, onDisk), overrides)
    requires HostsDistinct(HostPortsOf(loopback, rendered))
    ensures var defaults, effective := HostPortsOf(loopback, rendered), HostPortsOf(loopback, onDisk);
            var after := HostPortsOf(loopback, Rewritten(loopback, rendered, overrides));
            && KeepsRecorded(effective, after)
            && forall k :: k in defaults && k !in effective ==> k in after && after[k] == defaults[k]
  {
    hide HostPortsOf, Rewritten;
    var defaults, effective := HostPortsOf(loopback, rendered), HostPortsOf(loopback, onDisk);
    PreservationExact(loopback, onDisk, rendered, overrides);
    ExtractAfterRewrite(loopback, rendered, overrides);
    assert Consistent(defaults, effective);
  }

  /** With distinct new defaults, every override of a preserved binding's default is that binding's recorded port. */
  lemma PreservedTarget(defaults: HostPortMap, effective: HostPortMap, overrides: PortMap, k: Key)
    requires IsPreserving(defaults, effective, overrides) && HostsDistinct(defaults) && InBoth(defaults, effective, k)
    ensures if effective[k] == defaults[k] then defaults[k] !in overrides
            else defaults[k] in overrides && overrides[defaults[k]] == effective[k]
  {
  }

  /** On the text itself: a recorded short entry "ip:port:container[/protocol]" survives an update. The new rendering's
      entry for the same service and container carries the recorded port afterwards, and nothing else of it changes. */
  lemma RecordedTextSurvives(loopback: LoopbackTest, onDisk: Compose, rendered: Compose, overrides: PortMap,
                             i: nat, j: nat, x: nat, y: nat, oldIP: string, ip: string, recorded: GoInt, default: GoInt,
                             container: string, protocol: Option<string>)
    requires IsPreserving(HostPortsOf(loopback, rendered), HostPortsOf(loopback, onDisk), overrides)
    requires HostsDistinct(HostPortsOf(loopback, rendered))
    requires loopback(oldIP) && loopback(ip) && PlainPart(oldIP) && PlainPart(ip) && PlainPart(container)
    requires i < |onDisk| && j < |onDisk[i].ports| && x < |rendered| && y < |rendered[x].ports| && onDisk[i].name == rendered[x].name
    requires onDisk[i].ports[j] == Short(Suffixed(ShortText(oldIP, Itoa(recorded), container), protocol))
    requires rendered[x].ports[y] == Short(Suffixed(ShortText(ip, Itoa(default), container), protocol))
    requires LastFor(loopback, onDisk, i, j, Suffixed(container, protocol))
    requires LastFor(loopback, rendered, x, y, Suffixed(container, protocol))
    ensures Rewritten(loopback, rendered, overrides)[x].ports[y] ==
            Short(Suffixed(ShortText(ip, Itoa(recorded), container), protocol))
  {
    hide HostPortsOf, IsPreserving, HostsDistinct, LastFor, ExtractEntry, RewriteEntry, PlainPart, ShortText, Suffixed, Itoa;
    var key := Key(rendered[x].name, Suffixed(container, protocol));
    ShortReads(loopback, oldIP, recorded, container, protocol);
    ShortReads(loopback, ip, default, container, protocol);
    LastEntryWins(loopback, onDisk, i, j, Suffixed(container, protocol), recorded);
    LastEntryWins(loopback, rendered, x, y, Suffixed(container, protocol), default);
    PreservedTarget(HostPortsOf(loopback, rendered), HostPortsOf(loopback, onDisk), overrides, key);
    ShortRewrites(loopback, ip, default, container, protocol, overrides);
    assert Rewritten(loopback, rendered, overrides)[x].ports[y] == RewriteEntry(loopback, rendered[x].ports[y], overrides).entry;
  }

  /** Recorded ports of bindings in both renderings are distinct and meet no default of a binding that is new. */
  ghost predicate NoClash(defaults: HostPortMap, effective: HostPortMap) {
    && (forall k, l :: InBoth(defaults, effective, k) && InBoth(defaults, effective, l) && effective[k] == effective[l] ==> k == l)
    && (forall k, l :: InBoth(defaults, effective, k) && l in defaults && l !in effective ==> effective[k] != defaults[l])
  }

  lemma DistinctAfterImpliesBefore(defaults: HostPortMap, overrides: PortMap)
    requires HostsDistinct(Mapped(defaults, overrides))
    ensures HostsDistinct(defaults)
  {
    var after := Mapped(defaults, overrides);
    forall k, l | k in defaults && l in defaults && defaults[k] == defaults[l]
      ensures k == l
    {
      assert k in after && l in after && after[k] == after[l];
    }
  }

  lemma KeptOrDefault(defaults: HostPortMap, effective: HostPortMap, after: HostPortMap)
    requires after.Keys == defaults.Keys && HostsDistinct(defaults)
    requires KeepsRecorded(effective, after) && forall k :: k in defaults && k !in effective ==> after[k] == defaults[k]
    ensures HostsDistinct(after) <==> NoClash(defaults, effective)
  {
    assert forall k :: k in defaults ==> k in after && after[k] == if k in effective then effective[k] else defaults[k] by {
      assert forall k :: InBoth(defaults, effective, k) ==> InBoth(after, effective, k);
    }
    if HostsDistinct(after) {
      assert forall k :: InBoth(defaults, effective, k) ==> k in after && after[k] == effective[k];
    }
  }

  /** Preservation does not look at other defaults: the host ports after an update are distinct exactly when the new
      defaults are, the recorded ports it keeps are, and none of those is the default of a newly declared binding. */
  lemma DistinctAfterUpdate(loopback: LoopbackTest, onDisk: Compose, rendered: Compose, overrides: PortMap)
    requires IsPreserving(HostPortsOf(loopback, rendered), HostPortsOf(loopback, onDisk), overrides)
    ensures var defaults, effective := HostPortsOf(loopback, rendered), HostPortsOf(loopback, onDisk);
            HostsDistinct(HostPortsOf(loopback, Rewritten(loopback, rendered, overrides)))
            <==> HostsDistinct(defaults) && NoClash(defaults, effective)
  {
    hide HostPortsOf, Rewritten, HostsDistinct, NoClash, KeepsRecorded, IsPreserving;
    var defaults, effective := HostPortsOf(loopback, rendered), HostPortsOf(loopback, onDisk);
    ExtractAfterRewrite(loopback, rendered, overrides);
    var after := HostPortsOf(loopback, Rewritten(loopback, rendered, overrides));
    if HostsDistinct(after) {
      DistinctAfterImpliesBefore(defaults, overrides);
    }
    if HostsDistinct(defaults) {
      DistinctDefaultsPreserve(loopback, onDisk, rendered, overrides);
      KeptOrDefault(defaults, effective, after);
    }
  }

  // ---- Concrete documents ----

  /** A short entry on the loopback address. */
  function LoopbackEntry(host: GoInt, container: string, protocol: string): PortEntry {
    Short(Suffixed(ShortText(LOOPBACK, Itoa(host), container), Some(protocol)))
  }

  lemma LoopbackEntryReads(loopback: LoopbackTest, host: GoInt, container: string, protocol: string)
    requires loopback(LOOPBACK) && PlainPart(container)
    ensures ExtractEntry(loopback, LoopbackEntry(host, container, protocol)) == Some(Bind(container + "/" + protocol, host))
  {
    hide ExtractEntry;
    ShortReads(loopback, LOOPBACK, host, container, Some(protocol));
  }

  /** A document of one service with one or two loopback entries. */
  lemma SmallDocument(loopback: LoopbackTest, name: string, first: PortEntry, second: PortEntry, a: Bind, b: Bind)
    requires ExtractEntry(loopback, first) == Some(a) && ExtractEntry(loopback, second) == Some(b)
    ensures HostPortsOf(loopback, [Service(name, false, [first])]) == map[Key(name, a.container) := a.host]
    ensures HostPortsOf(loopback, [Service(name, false, [first, second])]) ==
            map[Key(name, a.container) := a.host, Key(name, b.container) := b.host]
  {
    hide ExtractEntry;
    var one, two := [first], [first, second];
    assert one[..0] == [] && two[..1] == one;
    assert PortsOf(loopback, name, one) == map[Key(name, a.container) := a.host];
    assert PortsOf(loopback, name, two) == PortsOf(loopback, name, one)[Key(name, b.container) := b.host];
    OneServiceDocument(loopback, Service(name, false, one));
    OneServiceDocument(loopback, Service(name, false, two));
  }

  lemma OneServiceDocument(loopback: LoopbackTest, s: Service)
    ensures HostPortsOf(loopback, [s]) == PortsOf(loopback, s.name, s.ports)
  {
    hide PortsOf;
    assert [s][..0] == [];
    assert HostPortsOf(loopback, []) == map[];
    assert map[] + PortsOf(loopback, s.name, s.ports) == PortsOf(loopback, s.name, s.ports);
  }

  const WEB_ON_DISK: Compose := [Service("web", false, [LoopbackEntry(9090, "80", "tcp")])]
  const WEB_OVERRIDES: PortMap := map[8080 := 9090]
  const WEB_RENDERED: Compose := [Service("web", false, [LoopbackEntry(8080, "80", "tcp"), LoopbackEntry(9090, "90", "tcp")])]

  /** A stack recorded on 9090 is updated to a rendering that adds a binding with default 9090: both end up there. */
  lemma PreservedPortMayCollide(loopback: LoopbackTest)
    requires loopback(LOOPBACK)
    ensures HostsDistinct(HostPortsOf(loopback, WEB_ON_DISK)) && HostsDistinct(HostPortsOf(loopback, WEB_RENDERED))
    ensures forall overrides :: IsPreserving(HostPortsOf(loopback, WEB_RENDERED), HostPortsOf(loopback, WEB_ON_DISK), overrides)
              <==> overrides == WEB_OVERRIDES
    ensures HostPortsOf(loopback, Rewritten(loopback, WEB_RENDERED, WEB_OVERRIDES)) ==
            map[Key("web", "80/tcp") := 9090, Key("web", "90/tcp") := 9090]
  {
    hide HostPortsOf, Rewritten, LoopbackEntry, ExtractEntry;
    var old80, new80, new90 := LoopbackEntry(9090, "80", "tcp"), LoopbackEntry(8080, "80", "tcp"), LoopbackEntry(9090, "90", "tcp");
    LoopbackEntryReads(loopback, 9090, "80", "tcp");
    LoopbackEntryReads(loopback, 8080, "80", "tcp");
    LoopbackEntryReads(loopback, 9090, "90", "tcp");
    assert "80" + "/" + "tcp" == "80/tcp" && "90" + "/" + "tcp" == "90/tcp";
    SmallDocument(loopback, "web", old80, old80, Bind("80/tcp", 9090), Bind("80/tcp", 9090));
    SmallDocument(loopback, "web", new80, new90, Bind("80/tcp", 8080), Bind("90/tcp", 9090));
    PortsCollide(HostPortsOf(loopback, WEB_RENDERED), HostPortsOf(loopback, WEB_ON_DISK), Key("web", "80/tcp"), Key("web", "90/tcp"));
    ExtractAfterRewrite(loopback, WEB_RENDERED, WEB_OVERRIDES);
  }

  lemma PortsCollide(defaults: HostPortMap, effective: HostPortMap, a: Key, b: Key)
    requires a != b && effective == map[a := 9090] && defaults == map[a := 8080, b := 9090]
    ensures HostsDistinct(effective) && HostsDistinct(defaults)
    ensures forall overrides :: IsPreserving(defaults, effective, overrides) <==> overrides == WEB_OVERRIDES
    ensures Mapped(defaults, WEB_OVERRIDES) == map[a := 9090, b := 9090]
  {
    assert InBoth(defaults, effective, a);
    forall overrides | IsPreserving(defaults, effective, overrides)
      ensures overrides == WEB_OVERRIDES
    {
      forall h | h in overrides
        ensures h == 8080 && overrides[h] == 9090
      {
        var k :| InBoth(defaults, effective, k) && defaults[k] == h && effective[k] != h && overrides[h] == effective[k];
        assert k == a;
      }
      assert 8080 in overrides;
    }
  }

  // One update of a stack: the new rendering and the overrides it was rewritten with.
  datatype Update = Update(rendered: Compose, overrides: PortMap)

  ghost function AfterUpdates(loopback: LoopbackTest, doc: Compose, updates: seq<Update>): Compose {
    if updates == [] then doc
    else Rewritten(loopback, updates[|updates| - 1].rendered, updates[|updates| - 1].overrides)
  }

  /** Each update preserved the ports of the compose the one before it left on disk. */
  ghost predicate IsUpdateRun(loopback: LoopbackTest, doc: Compose, updates: seq<Update>) {
    forall n :: 0 <= n < |updates| ==>
      var defaults := HostPortsOf(loopback, updates[n].rendered);
      var effective := HostPortsOf(loopback, AfterUpdates(loopback, doc, updates[..n]));
      IsPreserving(defaults, effective, updates[n].overrides) && Consistent(defaults, effective)
  }

  /** A binding that every rendering of a run of updates declares keeps its host port through the whole run. */
  lemma {:induction false} PortsFixedOverUpdates(loopback: LoopbackTest, doc: Compose, updates: seq<Update>, k: Key)
    requires IsUpdateRun(loopback, doc, updates) && k in HostPortsOf(loopback, doc)
    requires forall n :: 0 <= n < |updates| ==> k in HostPortsOf(loopback, updates[n].rendered)
    ensures var after := HostPortsOf(loopback, AfterUpdates(loopback, doc, updates));
            k in after && after[k] == HostPortsOf(loopback, doc)[k]
  {
    hide HostPortsOf, Rewritten, IsPreserving, Consistent;
    if updates != [] {
      var front, last := updates[..|updates| - 1], updates[|updates| - 1];
      assert forall n :: 0 <= n < |front| ==> front[n] == updates[n] && front[..n] == updates[..n];
      PortsFixedOverUpdates(loopback, doc, front, k);
      var onDisk := AfterUpdates(loopback, doc, front);
      PreservationExact(loopback, onDisk, last.rendered, last.overrides);
      assert InBoth(HostPortsOf(loopback, Rewritten(loopback, last.rendered, last.overrides)), HostPortsOf(loopback, onDisk), k);
    }
  }

  // ---- The install remap agrees with the plan ----

  method ApplyComposePortRemap(loopback: LoopbackTest, compose: Compose, overrides: PortMap) returns (ok: bool, out: Compose)
    ensures ok <==> forall h :: h in overrides ==> Matches(loopback, compose, overrides, h)
    ensures out == if ok then Rewritten(loopback, compose, overrides) else compose
  {
    hide Matches, Rewritten;
    if overrides == map[] {
      NoOverridesNoChange(loopback, compose);
      return true, compose;
    }
    var rewritten, matched := RewriteComposeHostPorts(loopback, compose, overrides);
    ok := AllMatched(overrides, matched);
    out := if ok then rewritten else compose;
  }

  /** The compose binds, for every extracted key, the host port of the plan's binding in the key's slot. */
  ghost predicate Carries(loopback: LoopbackTest, doc: Compose, bindings: seq<PortBinding>, slots: map<Key, nat>) {
    && HostPortsOf(loopback, doc).Keys == slots.Keys
    && forall k :: k in slots ==> slots[k] < |bindings| && HostPortsOf(loopback, doc)[k] == bindings[slots[k]].hostPort
  }

  /** The remap moved the binding in the plan too: it is the first of its host port, or nothing moved. */
  ghost predicate SlotAgrees(base: seq<PortBinding>, overrides: PortMap, i: nat)
    requires i < |base|
  {
    IsFirst(base, i) || base[i].hostPort !in overrides || overrides[base[i].hostPort] == base[i].hostPort
  }

  /** If template and catalog agreed before the remap, compose and plan agree after it exactly when every carried
      binding whose host port is overridden is the first of the plan with that port. */
  lemma PlanAndComposeAgree(loopback: LoopbackTest, compose: Compose, base: seq<PortBinding>, overrides: PortMap, slots: map<Key, nat>)
    requires Carries(loopback, compose, base, slots)
    ensures Carries(loopback, Rewritten(loopback, compose, overrides), Substituted(base, overrides), slots)
            <==> forall k :: k in slots ==> SlotAgrees(base, overrides, slots[k])
  {
    hide HostPortsOf, Rewritten;
    ExtractAfterRewrite(loopback, compose, overrides);
    var before := HostPortsOf(loopback, compose);
    var after, planned := HostPortsOf(loopback, Rewritten(loopback, compose, overrides)), Substituted(base, overrides);
    forall k | k in slots
      ensures after[k] == planned[slots[k]].hostPort <==> SlotAgrees(base, overrides, slots[k])
    {
      assert after[k] == Target(overrides, before[k]);
    }
  }

  /** Distinct catalog host ports, across protocols, are enough; then the remap is also never refused. */
  lemma DistinctPortsAgree(loopback: LoopbackTest, compose: Compose, base: seq<PortBinding>, overrides: PortMap, slots: map<Key, nat>)
    requires Carries(loopback, compose, base, slots)
    requires forall i, j :: 0 <= i < j < |base| ==> base[i].hostPort != base[j].hostPort
    requires forall h :: h in overrides ==> exists k :: k in slots && base[slots[k]].hostPort == h
    ensures Carries(loopback, Rewritten(loopback, compose, overrides), Substituted(base, overrides), slots)
    ensures forall h :: h in overrides ==> Matches(loopback, compose, overrides, h)
  {
    hide HostPortsOf, Rewritten, Matches;
    PlanAndComposeAgree(loopback, compose, base, overrides, slots);
    forall h | h in overrides
      ensures Matches(loopback, compose, overrides, h)
    {
      var k :| k in slots && base[slots[k]].hostPort == h;
      ExtractedIsMatched(loopback, compose, overrides, k);
    }
  }

  /** Whatever the planner settles on: the compose remapped with its overrides carries its bindings exactly when every
      carried binding whose host port was overridden is the first of the plan with that port. */
  lemma PlannedComposeAgrees(loopback: LoopbackTest, compose: Compose, s: PortRetry.Search, t: nat, slots: map<Key, nat>)
    requires KeysDistinct(s.base) && Carries(loopback, compose, s.base, slots)
    ensures var r := PortRetry.PlanRun(s, s.explicit, 0, t);
            r.Planned? ==>
              (Carries(loopback, Rewritten(loopback, compose, r.overrides), r.bindings, slots)
               <==> forall k :: k in slots ==> SlotAgrees(s.base, r.overrides, slots[k]))
  {
    hide HostPortsOf, Rewritten, Carries, SlotAgrees, PortRetry.PlanRun;
    PortRetry.PlannedIsSound(s, s.explicit, 0, t);
    var r := PortRetry.PlanRun(s, s.explicit, 0, t);
    if r.Planned? {
      PlanAndComposeAgree(loopback, compose, s.base, r.overrides, slots);
    }
  }

  const DNS: seq<PortBinding> := [PortBinding("dns", LOOPBACK, 5353, 53, "tcp"), PortBinding("dns", LOOPBACK, 5353, 53, "udp")]
  const DNS_COMPOSE: Compose := [Service("dns", false, [LoopbackEntry(5353, "53", "tcp"), LoopbackEntry(5353, "53", "udp")])]
  const DNS_REMAP: PortMap := map[5353 := 5454]

  /** One host port on two protocols: both sides accept the remap, the plan moves the TCP binding only, the compose moves both. */
  lemma SharedHostPortDisagrees(loopback: LoopbackTest)
    requires loopback(LOOPBACK)
    ensures OverridesAccepted(DNS, DNS_REMAP, {}, {})
    ensures Substituted(DNS, DNS_REMAP) == [DNS[0].(hostPort := 5454), DNS[1]]
    ensures forall h :: h in DNS_REMAP ==> Matches(loopback, DNS_COMPOSE, DNS_REMAP, h)
    ensures HostPortsOf(loopback, Rewritten(loopback, DNS_COMPOSE, DNS_REMAP)) ==
            map[Key("dns", "53/tcp") := 5454, Key("dns", "53/udp") := 5454]
  {
    hide HostPortsOf, Rewritten, Matches, LoopbackEntry, ExtractEntry;
    LoopbackEntryReads(loopback, 5353, "53", "tcp");
    LoopbackEntryReads(loopback, 5353, "53", "udp");
    assert "53" + "/" + "tcp" == "53/tcp" && "53" + "/" + "udp" == "53/udp";
    SmallDocument(loopback, "dns", LoopbackEntry(5353, "53", "tcp"), LoopbackEntry(5353, "53", "udp"),
                  Bind("53/tcp", 5353), Bind("53/udp", 5353));
    ExtractAfterRewrite(loopback, DNS_COMPOSE, DNS_REMAP);
    ExtractedIsMatched(loopback, DNS_COMPOSE, DNS_REMAP, Key("dns", "53/tcp"));
    DnsPlan();
  }

  lemma DnsPlan()
    ensures OverridesAccepted(DNS, DNS_REMAP, {}, {})
    ensures Substituted(DNS, DNS_REMAP) == [DNS[0].(hostPort := 5454), DNS[1]]
  {
    assert DNS[0].hostPort == 5353 && IsFirst(DNS, 0) && !IsFirst(DNS, 1);
    assert Binds(DNS, 5353);
  }
}
