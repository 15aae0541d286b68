// Host bindings of an install plan: expansion of the catalog's ports and the
// simultaneous substitution of port overrides (install_phase_plan.go).
module PortPlanning {
  import opened Wrappers
  import opened Text

  // Host port to host port, as Go's map[int]int.
  type PortMap = map<int, GoInt>

  datatype Port = Port(
    service: string, container: int, host: int, protocol: string, isPublic: bool,
    hostRange: string, containerRange: string)
  {
    predicate IsRange() { hostRange != "" || containerRange != "" }
  }

  datatype PortBinding = PortBinding(
    service: string, hostIP: string, hostPort: int, containerPort: int, protocol: string)

  const LOOPBACK := "127.0.0.1"
  const ALL_INTERFACES := "0.0.0.0"

  predicate ValidPort(p: int) { 1 <= p <= 65535 }

  // ---- Catalog expansion ----

  datatype Span = Span(lo: int, hi: int)

  // A range entry's host low end, host high end and container low end.
  datatype Bounds = Bounds(lo: int, hi: int, containerLo: int)

  /** An inclusive "<lo>-<hi>" span with both ends in 1..65535. */
  function ParsePortRange(spec: string): (r: Option<Span>)
    ensures r.Some? ==> 1 <= r.value.lo <= r.value.hi <= 65535
  {
    var cut := Cut(spec, '-');
    if !cut.found then None
    else
      var lo, hi := Atoi(cut.before), Atoi(cut.after);
      if lo.None? || hi.None? then None
      else if !ValidPort(lo.value) || !ValidPort(hi.value) || lo.value > hi.value then None
      else Some(Span(lo.value, hi.value))
  }

  function EffectiveProtocol(protocol: string): string {
    if protocol == "" then "tcp" else protocol
  }

  function BindInterface(isPublic: bool): string {
    if isPublic then ALL_INTERFACES else LOOPBACK
  }

  /** The bounds of a well-formed catalog range entry. */
  function RangeBounds(port: Port): (r: Option<Bounds>)
    requires port.IsRange()
    ensures r.Some? ==> 1 <= r.value.lo <= r.value.hi <= 65535
    ensures r.Some? ==> 1 <= r.value.containerLo && r.value.containerLo + (r.value.hi - r.value.lo) <= 65535
  {
    if port.hostRange == "" || port.containerRange == "" then None
    else
      var hosts, containers := ParsePortRange(port.hostRange), ParsePortRange(port.containerRange);
      if hosts.None? || containers.None? then None
      else if hosts.value.hi - hosts.value.lo != containers.value.hi - containers.value.lo then None
      else if (port.host != 0 && port.host != hosts.value.lo) || (port.container != 0 && port.container != containers.value.lo) then None
      else Some(Bounds(hosts.value.lo, hosts.value.hi, containers.value.lo))
  }

  ghost predicate WellFormed(port: Port) {
    if port.IsRange() then RangeBounds(port).Some?
    else ValidPort(port.host) && ValidPort(port.container)
  }

  function BindingAt(port: Port, host: int, container: int): PortBinding {
    PortBinding(port.service, BindInterface(port.isPublic), host, container, EffectiveProtocol(port.protocol))
  }

  ghost function Run(port: Port, bounds: Bounds): seq<PortBinding>
    requires bounds.lo <= bounds.hi
  {
    seq(bounds.hi - bounds.lo + 1, k => BindingAt(port, bounds.lo + k, bounds.containerLo + k))
  }

  /** What one well-formed catalog entry binds: a single port, or one port per offset of the span. */
  ghost function Expanded(port: Port): (bs: seq<PortBinding>)
    requires WellFormed(port)
  {
    if port.IsRange() then Run(port, RangeBounds(port).value)
    else [BindingAt(port, port.host, port.container)]
  }

  /** Every entry of a list is well formed. */
  ghost predicate AllWellFormed(ports: seq<Port>) {
    forall k :: 0 <= k < |ports| ==> WellFormed(ports[k])
  }

  ghost function ExpandedAll(ports: seq<Port>): seq<PortBinding>
    requires AllWellFormed(ports)
  {
    if ports == [] then []
    else ExpandedAll(ports[..|ports| - 1]) + Expanded(ports[|ports| - 1])
  }

  // The two catalog properties that pin a host port.
  datatype PortKind = PublicPort | RangePort

  predicate HasKind(port: Port, kind: PortKind) {
    match kind
    case PublicPort => port.isPublic
    case RangePort => port.IsRange()
  }

  function HostPorts(bs: seq<PortBinding>): set<int> {
    set b | b in bs :: b.hostPort
  }

  /** Host ports bound by the catalog entries of one kind. */
  ghost function HostPortsOfKind(ports: seq<Port>, kind: PortKind): set<int>
    requires AllWellFormed(ports)
  {
    if ports == [] then {}
    else
      var last := ports[|ports| - 1];
      HostPortsOfKind(ports[..|ports| - 1], kind) + (if HasKind(last, kind) then HostPorts(Expanded(last)) else {})
  }

  function BindKey(b: PortBinding): (string, int) { (b.protocol, b.hostPort) }

  /** No two bindings share a protocol and a host port. */
  ghost predicate KeysDistinct(bs: seq<PortBinding>) {
    forall i, j :: 0 <= i < j < |bs| ==> BindKey(bs[i]) != BindKey(bs[j])
  }

  method RangePortBindings(port: Port) returns (r: Option<seq<PortBinding>>)
    requires port.IsRange()
    ensures r.Some? <==> WellFormed(port)
    ensures r.Some? ==> r.value == Expanded(port)
  {
    hide ParsePortRange;
    var parsed := RangeBounds(port);
    if parsed.None? {
      return None;
    }
    var bounds := parsed.value;
    var bindings: seq<PortBinding> := [];
    var offset := 0;
    while bounds.lo + offset <= bounds.hi
      invariant 0 <= offset <= bounds.hi - bounds.lo + 1
      invariant bindings == Run(port, bounds)[..offset]
    {
      bindings := bindings + [BindingAt(port, bounds.lo + offset, bounds.containerLo + offset)];
      offset := offset + 1;
    }
    return Some(bindings);
  }

  method PortBindings(port: Port) returns (r: Option<seq<PortBinding>>)
    ensures r.Some? <==> WellFormed(port)
    ensures r.Some? ==> r.value == Expanded(port)
  {
    if port.IsRange() {
      r := RangePortBindings(port);
    } else if !ValidPort(port.host) || !ValidPort(port.container) {
      r := None;
    } else {
      r := Some([BindingAt(port, port.host, port.container)]);
    }
  }

  datatype CatalogBindings = CatalogBindings(base: seq<PortBinding>, publicPorts: set<int>, rangePorts: set<int>)

  /** Appends one entry's bindings, unless one of them repeats an earlier protocol and host port. */
  method AddBindings(before: seq<PortBinding>, seenBefore: set<(string, int)>, bindings: seq<PortBinding>)
    returns (distinct: bool, base: seq<PortBinding>, seen: set<(string, int)>)
    requires KeysDistinct(before) && seenBefore == set b | b in before :: BindKey(b)
    ensures distinct <==> KeysDistinct(before + bindings)
    ensures distinct ==> base == before + bindings && seen == set b | b in base :: BindKey(b)
  {
    base, seen := before, seenBefore;
    for k := 0 to |bindings|
      invariant base == before + bindings[..k] && KeysDistinct(base)
      invariant seen == set b | b in base :: BindKey(b)
    {
      var binding := bindings[k];
      assert base + [binding] == before + bindings[..k + 1];
      if BindKey(binding) in seen {
        RepeatedKey(base, binding);
        PrefixDuplicate(base + [binding], before + bindings);
        return false, base, seen;
      }
      seen := seen + {BindKey(binding)};
      base := base + [binding];
    }
    assert bindings[..|bindings|] == bindings;
    distinct := true;
  }

  method CatalogPortBindings(ports: seq<Port>) returns (r: Option<CatalogBindings>)
    ensures r.Some? <==> AllWellFormed(ports) && KeysDistinct(ExpandedAll(ports))
    ensures r.Some? ==> r.value.base == ExpandedAll(ports)
    ensures r.Some? ==> r.value.publicPorts == HostPortsOfKind(ports, PublicPort)
    ensures r.Some? ==> r.value.rangePorts == HostPortsOfKind(ports, RangePort)
  {
    hide RangeBounds, WellFormed, Expanded, KeysDistinct, HostPorts;
    var base: seq<PortBinding> := [];
    assert KeysDistinct(base) by { NoBindingsDistinct(); }
    var seen: set<(string, int)> := {};
    var publicPorts: set<int>, rangePorts: set<int> := {}, {};
    for i := 0 to |ports|
      invariant AllWellFormed(ports[..i]) && base == ExpandedAll(ports[..i]) && KeysDistinct(base)
      invariant seen == set b | b in base :: BindKey(b)
      invariant publicPorts == HostPortsOfKind(ports[..i], PublicPort)
      invariant rangePorts == HostPortsOfKind(ports[..i], RangePort)
    {
      var port := ports[i];
      var bindings := PortBindings(port);
      if bindings.None? {
        return None;
      }
      ExpandedAllStep(ports, i);
      ghost var before := base;
      var distinct;
      distinct, base, seen := AddBindings(base, seen, bindings.value);
      if !distinct {
        DuplicateIsFinal(ports, i, before + bindings.value);
        return None;
      }
      if port.isPublic {
        publicPorts := publicPorts + HostPorts(bindings.value);
      }
      if port.IsRange() {
        rangePorts := rangePorts + HostPorts(bindings.value);
      }
    }
    assert ports[..|ports|] == ports;
    r := Some(CatalogBindings(base, publicPorts, rangePorts));
  }

  lemma NoBindingsDistinct()
    ensures KeysDistinct([])
  {
  }

  lemma ExpandedAllPrefix(ports: seq<Port>, i: nat)
    requires i <= |ports| && AllWellFormed(ports)
    ensures ExpandedAll(ports[..i]) <= ExpandedAll(ports)
  {
    if i == |ports| {
      assert ports[..i] == ports;
    } else {
      ExpandedAllPrefix(ports[..|ports| - 1], i);
      assert ports[..|ports| - 1][..i] == ports[..i];
    }
  }

  lemma RepeatedKey(bs: seq<PortBinding>, b: PortBinding)
    requires exists x :: x in bs && BindKey(x) == BindKey(b)
    ensures !KeysDistinct(bs + [b])
  {
    var k :| 0 <= k < |bs| && BindKey(bs[k]) == BindKey(b);
    var longer := bs + [b];
    assert longer[k] == bs[k] && longer[|bs|] == b;
  }

  lemma PrefixDuplicate(part: seq<PortBinding>, whole: seq<PortBinding>)
    requires part <= whole
    ensures KeysDistinct(whole) ==> KeysDistinct(part)
  {
    assert forall x :: 0 <= x < |part| ==> part[x] == whole[x];
  }

  lemma DuplicateIsFinal(ports: seq<Port>, i: nat, part: seq<PortBinding>)
    requires i < |ports| && AllWellFormed(ports[..i]) && WellFormed(ports[i])
    requires part <= ExpandedAll(ports[..i]) + Expanded(ports[i]) && !KeysDistinct(part)
    ensures !(AllWellFormed(ports) && KeysDistinct(ExpandedAll(ports)))
  {
    hide *;
    if AllWellFormed(ports) && KeysDistinct(ExpandedAll(ports)) {
      ExpandedAllPrefix(ports, i + 1);
      ExpandedAllStep(ports, i);
      PrefixDuplicate(part, ExpandedAll(ports));
    }
  }

  lemma ExpandedAllStep(ports: seq<Port>, i: nat)
    requires i < |ports| && AllWellFormed(ports[..i]) && WellFormed(ports[i])
    ensures AllWellFormed(ports[..i + 1])
    ensures ExpandedAll(ports[..i + 1]) == ExpandedAll(ports[..i]) + Expanded(ports[i])
    ensures forall kind :: HostPortsOfKind(ports[..i + 1], kind) ==
                           HostPortsOfKind(ports[..i], kind) + (if HasKind(ports[i], kind) then HostPorts(Expanded(ports[i])) else {})
  {
    hide RangeBounds;
    assert ports[..i + 1][..i] == ports[..i];
  }

  /** A range keeps a constant host-minus-container offset and stays within the port space. */
  lemma RangeExpansion(port: Port, bounds: Bounds, k: nat)
    requires port.IsRange() && RangeBounds(port) == Some(bounds) && k < |Expanded(port)|
    ensures |Expanded(port)| == bounds.hi - bounds.lo + 1
    ensures var b := Expanded(port)[k];
            && bounds.lo <= b.hostPort <= bounds.hi && ValidPort(b.hostPort) && ValidPort(b.containerPort)
            && b.hostPort - b.containerPort == bounds.lo - bounds.containerLo
            && b.hostIP == BindInterface(port.isPublic)
  {
    hide RangeBounds;
    var run := Run(port, bounds);
    assert run[k] == BindingAt(port, bounds.lo + k, bounds.containerLo + k);
  }

  // ---- What an entry binds, field by field ----

  /** A port-range text is accepted exactly for 1 <= lo <= hi <= 65535, and read as that span. */
  lemma RangeTextReads(lo: GoInt, hi: GoInt)
    ensures ParsePortRange(Itoa(lo) + "-" + Itoa(hi)) == if 1 <= lo <= hi <= 65535 then Some(Span(lo, hi)) else None
  {
    hide Itoa, Atoi, Cut;
    var text := Itoa(lo) + "-" + Itoa(hi);
    if lo < 0 {
      NegativeText(lo);
      assert text == "" + "-" + (Itoa(lo)[1..] + "-" + Itoa(hi));
      CutOfJoined("", Itoa(lo)[1..] + "-" + Itoa(hi), '-');
      assert Atoi("").None? by { EmptyIsNoNumber(); }
    } else {
      DigitsOnly(lo);
      CutOfJoined(Itoa(lo), Itoa(hi), '-');
      AtoiOfItoa(lo);
      AtoiOfItoa(hi);
    }
  }

  lemma NegativeText(n: int)
    requires n < 0
    ensures Itoa(n) == "-" + Itoa(n)[1..]
  {
  }

  lemma DigitsOnly(n: int)
    requires n >= 0
    ensures '-' !in Itoa(n)
  {
  }

  lemma EmptyIsNoNumber()
    ensures Atoi("").None?
  {
  }

  /** What an entry's bindings share: the service, the interface of its kind, and its protocol or TCP. */
  ghost predicate BindsFor(b: PortBinding, port: Port, host: int, container: int) {
    && b.service == port.service && b.hostPort == host && b.containerPort == container
    && b.hostIP == (if port.isPublic then "0.0.0.0" else "127.0.0.1")
    && b.protocol == (if port.protocol == "" then "tcp" else port.protocol)
  }

  /** A single-port entry is accepted exactly when both ports are in 1..65535, and binds the one to the other. */
  lemma SingleEntryBinds(port: Port)
    requires port.hostRange == "" && port.containerRange == ""
    ensures WellFormed(port) <==> 1 <= port.host <= 65535 && 1 <= port.container <= 65535
    ensures WellFormed(port) ==> |Expanded(port)| == 1 && BindsFor(Expanded(port)[0], port, port.host, port.container)
  {
  }

  /** A range entry is accepted exactly when both spans are valid and of one length and its single ports, if set, are the
      low ends; it binds port for port. */
  lemma RangeEntryBinds(port: Port, lo: GoInt, hi: GoInt, containerLo: GoInt, containerHi: GoInt)
    requires port.hostRange == Itoa(lo) + "-" + Itoa(hi) && port.containerRange == Itoa(containerLo) + "-" + Itoa(containerHi)
    ensures WellFormed(port) <==>
              1 <= lo <= hi <= 65535 && 1 <= containerLo <= containerHi <= 65535 && hi - lo == containerHi - containerLo &&
              (port.host == 0 || port.host == lo) && (port.container == 0 || port.container == containerLo)
    ensures WellFormed(port) ==> |Expanded(port)| == hi - lo + 1
    ensures WellFormed(port) ==> forall k :: 0 <= k < |Expanded(port)| ==> BindsFor(Expanded(port)[k], port, lo + k, containerLo + k)
  {
    hide ParsePortRange, Itoa;
    RangeTextReads(lo, hi);
    RangeTextReads(containerLo, containerHi);
    assert port.hostRange != "" && port.containerRange != "";
    if WellFormed(port) {
      assert RangeBounds(port) == Some(Bounds(lo, hi, containerLo));
      forall k | 0 <= k < |Expanded(port)|
        ensures BindsFor(Expanded(port)[k], port, lo + k, containerLo + k)
      {
        assert Expanded(port)[k] == BindingAt(port, lo + k, containerLo + k);
      }
    }
  }

  /** An entry with only one of the two ranges is refused. */
  lemma HalfRangeIsRefused(port: Port)
    requires (port.hostRange == "") != (port.containerRange == "")
    ensures !WellFormed(port)
  {
  }

  /** The catalog's bindings are the entries' bindings, entry after entry in catalog order. */
  lemma CatalogOrder(ports: seq<Port>, i: nat)
    requires AllWellFormed(ports) && i < |ports|
    ensures var from := |ExpandedAll(ports[..i])|;
            from + |Expanded(ports[i])| <= |ExpandedAll(ports)| &&
            ExpandedAll(ports)[from..from + |Expanded(ports[i])|] == Expanded(ports[i])
    ensures |ExpandedAll(ports[..i + 1])| == |ExpandedAll(ports[..i])| + |Expanded(ports[i])|
  {
    hide Expanded, WellFormed;
    ExpandedAllStep(ports, i);
    ExpandedAllPrefix(ports, i + 1);
  }

  /** The public host ports are those some public entry binds, the range host ports those some range entry binds. */
  lemma {:induction false} KindPorts(ports: seq<Port>, host: int)
    requires AllWellFormed(ports)
    ensures host in HostPortsOfKind(ports, PublicPort) <==>
              exists i :: 0 <= i < |ports| && ports[i].isPublic && host in HostPorts(Expanded(ports[i]))
    ensures host in HostPortsOfKind(ports, RangePort) <==>
              exists i :: 0 <= i < |ports| && (ports[i].hostRange != "" || ports[i].containerRange != "") && host in HostPorts(Expanded(ports[i]))
    decreases |ports|
  {
    hide Expanded, WellFormed, HostPorts;
    if ports != [] {
      var n := |ports| - 1;
      KindPorts(ports[..n], host);
      assert forall i :: 0 <= i < n ==> ports[..n][i] == ports[i];
      assert ports[n].IsRange() <==> ports[n].hostRange != "" || ports[n].containerRange != "";
    }
  }

  ghost predicate BindsValidPorts(b: PortBinding) {
    ValidPort(b.hostPort) && ValidPort(b.containerPort) && (b.hostIP == LOOPBACK || b.hostIP == ALL_INTERFACES)
  }

  lemma {:induction false} CatalogBindingsShape(ports: seq<Port>, i: nat)
    requires AllWellFormed(ports) && i < |ExpandedAll(ports)|
    ensures BindsValidPorts(ExpandedAll(ports)[i])
  {
    var front, last := ports[..|ports| - 1], ports[|ports| - 1];
    if i < |ExpandedAll(front)| {
      CatalogBindingsShape(front, i);
    } else if last.IsRange() {
      RangeExpansion(last, RangeBounds(last).value, i - |ExpandedAll(front)|);
    }
  }

  /** A list is free of duplicates exactly when bindings on one host port are on different protocols. */
  lemma DistinctExactly(bs: seq<PortBinding>)
    ensures KeysDistinct(bs) <==>
              forall i, j :: 0 <= i < j < |bs| && bs[i].hostPort == bs[j].hostPort ==> bs[i].protocol != bs[j].protocol
  {
    assert forall i, j :: 0 <= i < j < |bs| ==> (BindKey(bs[i]) == BindKey(bs[j]) <==> bs[i].hostPort == bs[j].hostPort && bs[i].protocol == bs[j].protocol);
  }

  // ---- Port overrides ----

  /** Binding i is the first of the plan with its host port. */
  ghost predicate IsFirst(base: seq<PortBinding>, i: int) {
    0 <= i < |base| && forall j :: 0 <= j < i ==> base[j].hostPort != base[i].hostPort
  }

  function Moved(b: PortBinding, m: PortMap): PortBinding
    requires b.hostPort in m
  {
    b.(hostPort := m[b.hostPort])
  }

  /** The overrides as one simultaneous substitution: only the first binding of a host port moves. */
  ghost function Substituted(base: seq<PortBinding>, m: PortMap): (planned: seq<PortBinding>)
    ensures |planned| == |base|
  {
    seq(|base|, i requires 0 <= i < |base| =>
      if IsFirst(base, i) && base[i].hostPort in m then Moved(base[i], m) else base[i])
  }

  ghost predicate Binds(base: seq<PortBinding>, port: int) {
    exists i :: 0 <= i < |base| && base[i].hostPort == port
  }

  ghost predicate OverrideValid(base: seq<PortBinding>, source: int, target: int, rangePorts: set<int>, publicPorts: set<int>) {
    Binds(base, source) && source !in rangePorts && source !in publicPorts && 1024 < target <= 65535
  }

  ghost predicate OverridesAccepted(base: seq<PortBinding>, m: PortMap, rangePorts: set<int>, publicPorts: set<int>) {
    m != map[] ==>
      && (forall source :: source in m ==> OverrideValid(base, source, m[source], rangePorts, publicPorts))
      && KeysDistinct(Substituted(base, m))
  }

  method FirstIndex(planned: array<PortBinding>, port: int) returns (idx: int)
    ensures idx == -1 ==> !Binds(planned[..], port)
    ensures idx != -1 ==> IsFirst(planned[..], idx) && planned[idx].hostPort == port
  {
    idx := -1;
    for i := 0 to planned.Length
      invariant idx == -1
      invariant forall j :: 0 <= j < i ==> planned[j].hostPort != port
    {
      if planned[i].hostPort == port {
        return i;
      }
    }
  }

  /** Every recorded rewrite names the first binding of an override's source port. */
  ghost predicate Resolved(base: seq<PortBinding>, m: PortMap, rewrites: seq<(int, GoInt)>) {
    forall k :: 0 <= k < |rewrites| ==>
      && IsFirst(base, rewrites[k].0)
      && base[rewrites[k].0].hostPort in m
      && rewrites[k].1 == m[base[rewrites[k].0].hostPort]
  }

  ghost predicate Rewrites(rewrites: seq<(int, GoInt)>, n: int, idx: int) {
    exists k :: 0 <= k < n <= |rewrites| && rewrites[k].0 == idx
  }

  ghost predicate Covers(base: seq<PortBinding>, rewrites: seq<(int, GoInt)>, source: int)
    requires forall k :: 0 <= k < |rewrites| ==> 0 <= rewrites[k].0 < |base|
  {
    exists k :: 0 <= k < |rewrites| && base[rewrites[k].0].hostPort == source
  }

  /** Validates every override against the unmodified plan, in whatever order the map is iterated. */
  method ResolveOverrides(planned: array<PortBinding>, overrides: PortMap, rangePorts: set<int>, publicPorts: set<int>)
    returns (ok: bool, rewrites: seq<(int, GoInt)>)
    ensures ok <==> forall source :: source in overrides ==>
      OverrideValid(planned[..], source, overrides[source], rangePorts, publicPorts)
    ensures ok ==> Resolved(planned[..], overrides, rewrites)
    ensures ok ==> forall source :: source in overrides ==> Covers(planned[..], rewrites, source)
  {
    ghost var base := planned[..];
    rewrites := [];
    var pending := overrides.Items;
    while pending != {}
      invariant pending <= overrides.Items && Resolved(base, overrides, rewrites)
      invariant forall source :: source in overrides && (source, overrides[source]) !in pending ==>
        OverrideValid(base, source, overrides[source], rangePorts, publicPorts)
      invariant forall source :: source in overrides && (source, overrides[source]) !in pending ==>
        Covers(base, rewrites, source)
      decreases pending
    {
      var entry :| entry in pending;
      var (source, target) := entry;
      var idx := FirstIndex(planned, source);
      if idx == -1 || source in rangePorts || source in publicPorts || target <= 1024 || target > 65535 {
        assert source in overrides;
        return false, [];
      }
      CoversExtend(base, rewrites, (idx, target));
      rewrites := rewrites + [(idx, target)];
      pending := pending - {entry};
    }
    ok := true;
  }

  lemma CoversExtend(base: seq<PortBinding>, rewrites: seq<(int, GoInt)>, rw: (int, GoInt))
    requires 0 <= rw.0 < |base| && forall k :: 0 <= k < |rewrites| ==> 0 <= rewrites[k].0 < |base|
    ensures Covers(base, rewrites + [rw], base[rw.0].hostPort)
    ensures forall source :: Covers(base, rewrites, source) ==> Covers(base, rewrites + [rw], source)
  {
    var longer := rewrites + [rw];
    assert longer[|rewrites|] == rw;
    forall source | Covers(base, rewrites, source)
      ensures Covers(base, longer, source)
    {
      var k :| 0 <= k < |rewrites| && base[rewrites[k].0].hostPort == source;
      assert longer[k] == rewrites[k];
    }
  }

  method ApplyPortOverrides(planned: array<PortBinding>, overrides: PortMap, rangePorts: set<int>, publicPorts: set<int>)
    returns (ok: bool)
    modifies planned
    ensures ok <==> OverridesAccepted(old(planned[..]), overrides, rangePorts, publicPorts)
    ensures ok ==> planned[..] == Substituted(old(planned[..]), overrides)
  {
    ghost var base := planned[..];
    if overrides == map[] {
      assert planned[..] == Substituted(base, overrides);
      return true;
    }
    var rewrites;
    ok, rewrites := ResolveOverrides(planned, overrides, rangePorts, publicPorts);
    if !ok {
      return;
    }
    for n := 0 to |rewrites|
      invariant forall i :: 0 <= i < planned.Length ==>
        planned[i] == (if Rewrites(rewrites, n, i) then Moved(base[i], overrides) else base[i])
    {
      var (idx, target) := rewrites[n];
      RewritesNext(rewrites, n);
      planned[idx] := planned[idx].(hostPort := target);
    }
    AllRewritten(base, overrides, rewrites);
    assert planned[..] == Substituted(base, overrides);
    ok := NoDuplicateKeys(planned);
  }

  lemma RewritesNext(rewrites: seq<(int, GoInt)>, n: nat)
    requires n < |rewrites|
    ensures forall i :: Rewrites(rewrites, n + 1, i) <==> Rewrites(rewrites, n, i) || i == rewrites[n].0
  {
    assert Rewrites(rewrites, n + 1, rewrites[n].0);
  }

  lemma AllRewritten(base: seq<PortBinding>, m: PortMap, rewrites: seq<(int, GoInt)>)
    requires Resolved(base, m, rewrites)
    requires forall source :: source in m ==> Covers(base, rewrites, source)
    ensures forall i :: 0 <= i < |base| ==>
      (Rewrites(rewrites, |rewrites|, i) <==> IsFirst(base, i) && base[i].hostPort in m)
  {
    forall i | 0 <= i < |base| && IsFirst(base, i) && base[i].hostPort in m
      ensures Rewrites(rewrites, |rewrites|, i)
    {
      assert Covers(base, rewrites, base[i].hostPort);
      var k :| 0 <= k < |rewrites| && base[rewrites[k].0].hostPort == base[i].hostPort;
      assert rewrites[k].0 == i;
    }
  }

  method NoDuplicateKeys(planned: array<PortBinding>) returns (distinct: bool)
    ensures distinct <==> KeysDistinct(planned[..])
  {
    var seen: set<(string, int)> := {};
    for i := 0 to planned.Length
      invariant seen == set b | b in planned[..i] :: BindKey(b)
      invariant forall a, b :: 0 <= a < b < i ==> BindKey(planned[a]) != BindKey(planned[b])
    {
      if BindKey(planned[i]) in seen {
        return false;
      }
      seen := seen + {BindKey(planned[i])};
    }
    distinct := true;
  }

  /** What an accepted substitution may change: nothing but the host port of remapped loopback bindings. */
  lemma SubstitutionShape(base: seq<PortBinding>, m: PortMap, rangePorts: set<int>, publicPorts: set<int>)
    requires OverridesAccepted(base, m, rangePorts, publicPorts)
    ensures var planned := Substituted(base, m);
            forall i :: 0 <= i < |base| ==>
              && planned[i].(hostPort := base[i].hostPort) == base[i]
              && (base[i].hostPort in rangePorts || base[i].hostPort in publicPorts ==> planned[i] == base[i])
              && (planned[i] != base[i] ==> 1024 < planned[i].hostPort <= 65535)
              && (IsFirst(base, i) && base[i].hostPort in m ==> planned[i].hostPort == m[base[i].hostPort])
    ensures KeysDistinct(base) ==> KeysDistinct(Substituted(base, m))
  {
    if m == map[] {
      assert Substituted(base, m) == base;
    }
  }

  /** Two overrides that exchange ports move both bindings; a one-at-a-time rewrite would merge them. */
  lemma SwapIsSimultaneous(base: seq<PortBinding>, i: nat, j: nat, m: PortMap)
    requires IsFirst(base, i) && IsFirst(base, j) && i != j
    requires 1024 < base[i].hostPort <= 65535 && 1024 < base[j].hostPort <= 65535
    requires m == map[base[i].hostPort := base[j].hostPort, base[j].hostPort := base[i].hostPort]
    ensures Substituted(base, m)[i].hostPort == base[j].hostPort
    ensures Substituted(base, m)[j].hostPort == base[i].hostPort
  {
  }
}
