// The rendered compose document's host ports: reading the loopback bindings out
// and rewriting them in place (install_port_remap.go). Entries follow the short
// and long syntax of "ports" in the services section of the Compose Specification.
module ComposePorts {
  import opened Wrappers
  import opened Text
  import opened PortPlanning

  datatype PortEntry =
    | Short(value: string)
    | Long(hostIP: Option<string>, published: Option<string>, target: Option<string>, protocol: Option<string>)
    | Other // neither a scalar nor a mapping

  datatype Service = Service(name: string, hostNetwork: bool, ports: seq<PortEntry>)

  type Compose = seq<Service>

  // net.ParseIP(host).IsLoopback(), which every result below holds for whatever it answers.
  type LoopbackTest = string -> bool

  // A loopback binding: the container side with its protocol suffix, and the host port.
  datatype Bind = Bind(container: string, host: GoInt)

  function Target(m: PortMap, host: GoInt): GoInt {
    if host in m then m[host] else host
  }

  // ---- One entry ----

  function ExtractShort(loopback: LoopbackTest, value: string): Option<Bind> {
    var cut := Cut(value, '/');
    var parts := Split(cut.before, ':');
    if |parts| != 3 || !loopback(parts[0]) then None
    else
      var host := Atoi(parts[1]);
      if host.None? then None
      else Some(Bind(if cut.found then parts[2] + "/" + cut.after else parts[2], host.value))
  }

  function ExtractLong(loopback: LoopbackTest, e: PortEntry): Option<Bind>
    requires e.Long?
  {
    if e.hostIP.None? || !loopback(e.hostIP.value) || e.published.None? then None
    else
      var host := Atoi(e.published.value);
      if host.None? || e.target.None? || e.target.value == "" then None
      else
        var suffix := if e.protocol.Some? && e.protocol.value != "" then "/" + e.protocol.value else "";
        Some(Bind(e.target.value + suffix, host.value))
  }

  function ExtractEntry(loopback: LoopbackTest, e: PortEntry): Option<Bind> {
    match e
    case Short(value) => ExtractShort(loopback, value)
    case Long(_, _, _, _) => ExtractLong(loopback, e)
    case Other => None
  }

  // A rewritten entry and the override key it matched.
  datatype Rewrite = Rewrite(entry: PortEntry, matched: Option<int>)

  function RewriteShort(loopback: LoopbackTest, value: string, m: PortMap): Rewrite {
    var cut := Cut(value, '/');
    var parts := Split(cut.before, ':');
    if |parts| != 3 || !loopback(parts[0]) then Rewrite(Short(value), None)
    else
      var host := Atoi(parts[1]);
      if host.None? || host.value !in m then Rewrite(Short(value), None)
      else
        var out := Join(parts[1 := Itoa(m[host.value])], ':');
        Rewrite(Short(if cut.found then out + "/" + cut.after else out), Some(host.value))
  }

  function RewriteLong(loopback: LoopbackTest, e: PortEntry, m: PortMap): Rewrite
    requires e.Long?
  {
    if e.hostIP.None? || !loopback(e.hostIP.value) || e.published.None? then Rewrite(e, None)
    else
      var host := Atoi(e.published.value);
      if host.None? || host.value !in m then Rewrite(e, None)
      else Rewrite(e.(published := Some(Itoa(m[host.value]))), Some(host.value))
  }

  function RewriteEntry(loopback: LoopbackTest, e: PortEntry, m: PortMap): Rewrite {
    match e
    case Short(value) => RewriteShort(loopback, value, m)
    case Long(_, _, _, _) => RewriteLong(loopback, e, m)
    case Other => Rewrite(e, None)
  }

  /** The parts of a rewritten short entry can be read back: only the host port differs. */
  lemma ShortReadsBack(parts: seq<string>, host: GoInt, cut: CutResult)
    requires |parts| == 3 && forall k :: 0 <= k < 3 ==> ':' !in parts[k] && '/' !in parts[k]
    ensures var out := Join(parts[1 := Itoa(host)], ':');
            && Split(out, ':') == parts[1 := Itoa(host)]
            && Cut(out, '/') == CutResult(out, "", false)
            && Cut(out + "/" + cut.after, '/') == CutResult(out, cut.after, true)
  {
    var changed := parts[1 := Itoa(host)];
    var out := Join(changed, ':');
    SplitOfJoin(changed, ':');
    assert changed[1..][1..] == [parts[2]];
    assert Join(changed[1..], ':') == Itoa(host) + ":" + parts[2];
    assert out == parts[0] + ":" + (Itoa(host) + ":" + parts[2]);
    assert '/' !in Itoa(host);
    assert '/' !in out;
    CutAbsent(out, '/');
    CutOfJoined(out, cut.after, '/');
  }

  // ---- Reading an entry's text ----

  predicate PlainPart(p: string) { ':' !in p && '/' !in p }

  function ShortText(ip: string, published: string, container: string): string { ip + ":" + published + ":" + container }

  lemma ShortTextSplits(ip: string, published: string, container: string)
    requires PlainPart(ip) && PlainPart(published) && PlainPart(container)
    ensures Split(ShortText(ip, published, container), ':') == [ip, published, container]
    ensures Join([ip, published, container], ':') == ShortText(ip, published, container)
    ensures '/' !in ShortText(ip, published, container)
  {
    hide Split, Join;
    JoinThree(ip, published, container);
    SplitOfJoin([ip, published, container], ':');
  }

  lemma JoinThree(a: string, b: string, c: string)
    ensures Join([a, b, c], ':') == a + ":" + b + ":" + c
  {
    assert [a, b, c][1..] == [b, c] && [b, c][1..] == [c];
    assert Join([b, c], ':') == b + ":" + c;
  }

  lemma NumberIsPlain(h: int)
    ensures PlainPart(Itoa(h))
  {
  }

  /** The text and what Cut sees of it, with a protocol suffix or without. */
  function Suffixed(text: string, protocol: Option<string>): string {
    if protocol.Some? then text + "/" + protocol.value else text
  }

  lemma CutOfSuffixed(text: string, protocol: Option<string>)
    requires '/' !in text
    ensures Cut(Suffixed(text, protocol), '/') ==
            CutResult(text, if protocol.Some? then protocol.value else "", protocol.Some?)
  {
    if protocol.Some? {
      CutOfJoined(text, protocol.value, '/');
    } else {
      CutAbsent(text, '/');
    }
  }

  /** "ip:host:container" and "ip:host:container/protocol" are read on a loopback address, as that container and host. */
  lemma ShortReads(loopback: LoopbackTest, ip: string, host: GoInt, container: string, protocol: Option<string>)
    requires PlainPart(ip) && PlainPart(container)
    ensures ExtractEntry(loopback, Short(Suffixed(ShortText(ip, Itoa(host), container), protocol))) ==
            if loopback(ip) then Some(Bind(Suffixed(container, protocol), host)) else None
  {
    hide Cut, Split, Join, Itoa, Atoi, ShortText, PlainPart;
    NumberIsPlain(host);
    ShortTextSplits(ip, Itoa(host), container);
    CutOfSuffixed(ShortText(ip, Itoa(host), container), protocol);
    AtoiOfItoa(host);
  }

  /** Its rewrite replaces the host port alone, and only on a loopback address with an override of that port. */
  lemma ShortRewrites(loopback: LoopbackTest, ip: string, host: GoInt, container: string, protocol: Option<string>, m: PortMap)
    requires PlainPart(ip) && PlainPart(container)
    ensures RewriteEntry(loopback, Short(Suffixed(ShortText(ip, Itoa(host), container), protocol)), m) ==
            if loopback(ip) && host in m
            then Rewrite(Short(Suffixed(ShortText(ip, Itoa(m[host]), container), protocol)), Some(host))
            else Rewrite(Short(Suffixed(ShortText(ip, Itoa(host), container), protocol)), None)
  {
    hide Cut, Split, Join, Itoa, Atoi, ShortText, PlainPart;
    NumberIsPlain(host);
    ShortTextSplits(ip, Itoa(host), container);
    CutOfSuffixed(ShortText(ip, Itoa(host), container), protocol);
    AtoiOfItoa(host);
    if host in m {
      NumberIsPlain(m[host]);
      ShortTextSplits(ip, Itoa(m[host]), container);
      assert [ip, Itoa(host), container][1 := Itoa(m[host])] == [ip, Itoa(m[host]), container];
    }
  }

  /** A published part that is no number, such as a range, is neither read nor rewritten. */
  lemma ShortRangeIsLeft(loopback: LoopbackTest, ip: string, published: string, container: string, protocol: Option<string>, m: PortMap)
    requires PlainPart(ip) && PlainPart(published) && PlainPart(container) && Atoi(published).None?
    ensures var e := Short(Suffixed(ShortText(ip, published, container), protocol));
            ExtractEntry(loopback, e).None? && RewriteEntry(loopback, e, m) == Rewrite(e, None)
  {
    hide Cut, Split, Join, Atoi, ShortText, PlainPart;
    ShortTextSplits(ip, published, container);
    CutOfSuffixed(ShortText(ip, published, container), protocol);
  }

  /** A short entry without an address, "host:container" or "container", is neither read nor rewritten. */
  lemma ShortWithoutAddressIsLeft(loopback: LoopbackTest, published: string, container: string, protocol: Option<string>, m: PortMap)
    requires PlainPart(published) && PlainPart(container)
    ensures var e := Short(Suffixed(published + ":" + container, protocol));
            ExtractEntry(loopback, e).None? && RewriteEntry(loopback, e, m) == Rewrite(e, None)
    ensures var e := Short(Suffixed(container, protocol));
            ExtractEntry(loopback, e).None? && RewriteEntry(loopback, e, m) == Rewrite(e, None)
  {
    hide Cut, Split, Join, Atoi;
    var text := published + ":" + container;
    SplitPrefix(published, container, ':');
    SplitPrefix(container, "", ':');
    CutOfSuffixed(text, protocol);
    CutOfSuffixed(container, protocol);
  }

  /** A long entry is read exactly on a loopback host_ip with a numeric published port and a target, as target[/protocol]. */
  lemma LongReads(loopback: LoopbackTest, hostIP: Option<string>, published: Option<string>, target: Option<string>, protocol: Option<string>)
    ensures var r := ExtractEntry(loopback, Long(hostIP, published, target, protocol));
            && (r.Some? <==> hostIP.Some? && loopback(hostIP.value) && published.Some? && Atoi(published.value).Some? &&
                             target.Some? && target.value != "")
            && (r.Some? ==> r.value.host == Atoi(published.value).value)
            && (r.Some? && protocol in {None, Some("")} ==> r.value.container == target.value)
            && (r.Some? && protocol !in {None, Some("")} ==> r.value.container == target.value + "/" + protocol.value)
  {
    hide Atoi;
  }

  /** A long entry's rewrite replaces the published port alone. */
  lemma LongRewrites(loopback: LoopbackTest, hostIP: string, host: GoInt, target: Option<string>, protocol: Option<string>, m: PortMap)
    ensures RewriteEntry(loopback, Long(Some(hostIP), Some(Itoa(host)), target, protocol), m) ==
            if loopback(hostIP) && host in m then Rewrite(Long(Some(hostIP), Some(Itoa(m[host])), target, protocol), Some(host))
            else Rewrite(Long(Some(hostIP), Some(Itoa(host)), target, protocol), None)
  {
    hide Atoi, Itoa;
    AtoiOfItoa(host);
  }

  /** Splitting on ':' does not bring back a '/' that Cut removed. */
  lemma {:induction false} SplitKeepsAbsent(s: string, sep: char, c: char)
    requires c !in s
    ensures forall k :: 0 <= k < |Split(s, sep)| ==> c !in Split(s, sep)[k]
  {
    if s != "" {
      SplitKeepsAbsent(s[1..], sep, c);
    }
  }

  lemma ShortCommutes(loopback: LoopbackTest, value: string, m: PortMap)
    ensures var before, rw := ExtractShort(loopback, value), RewriteShort(loopback, value, m);
            && rw.entry.Short?
            && (before.None? ==> rw == Rewrite(Short(value), None))
            && (before.Some? ==>
                 && ExtractShort(loopback, rw.entry.value) == Some(before.value.(host := Target(m, before.value.host)))
                 && rw.matched == (if before.value.host in m then Some(before.value.host) else None))
  {
    hide Atoi, Itoa, Join, Split, Cut;
    var cut := Cut(value, '/');
    var parts := Split(cut.before, ':');
    if |parts| == 3 && Atoi(parts[1]).Some? && Atoi(parts[1]).value in m {
      var host := m[Atoi(parts[1]).value];
      SplitKeepsAbsent(cut.before, ':', '/');
      ShortReadsBack(parts, host, cut);
      AtoiOfItoa(host);
    }
  }

  /** Reading an entry after the rewrite is mapping what was read before it, and every match is reported. */
  lemma EntryCommutes(loopback: LoopbackTest, e: PortEntry, m: PortMap)
    ensures var before, rw := ExtractEntry(loopback, e), RewriteEntry(loopback, e, m);
            && (before.None? ==> ExtractEntry(loopback, rw.entry) == None)
            && (before.Some? ==>
                 && ExtractEntry(loopback, rw.entry) == Some(before.value.(host := Target(m, before.value.host)))
                 && rw.matched == (if before.value.host in m then Some(before.value.host) else None))
  {
    hide Atoi, Itoa, RewriteShort, ExtractShort;
    match e {
      case Short(value) => ShortCommutes(loopback, value, m);
      case Long(_, published, _, _) =>
        if published.Some? && Atoi(published.value).Some? && Atoi(published.value).value in m {
          AtoiOfItoa(m[Atoi(published.value).value]);
        }
      case Other =>
    }
  }

  // ---- The document ----

  datatype Key = Key(service: string, container: string)

  type HostPortMap = map<Key, GoInt>

  function Record(name: string, bind: Option<Bind>, m: HostPortMap): HostPortMap {
    if bind.Some? then m[Key(name, bind.value.container) := bind.value.host] else m
  }

  /** The loopback host ports of a list of entries; a later entry wins. */
  ghost function PortsOf(loopback: LoopbackTest, name: string, ports: seq<PortEntry>): HostPortMap {
    if ports == [] then map[]
    else Record(name, ExtractEntry(loopback, ports[|ports| - 1]), PortsOf(loopback, name, ports[..|ports| - 1]))
  }

  ghost function HostPortsOf(loopback: LoopbackTest, doc: Compose): HostPortMap {
    if doc == [] then map[]
    else
      var last := doc[|doc| - 1];
      HostPortsOf(loopback, doc[..|doc| - 1]) + PortsOf(loopback, last.name, last.ports)
  }

  ghost function RewrittenPorts(loopback: LoopbackTest, ports: seq<PortEntry>, m: PortMap): (r: seq<PortEntry>)
    ensures |r| == |ports|
  {
    seq(|ports|, k requires 0 <= k < |ports| => RewriteEntry(loopback, ports[k], m).entry)
  }

  ghost function Rewritten(loopback: LoopbackTest, doc: Compose, m: PortMap): (r: Compose)
    ensures |r| == |doc|
  {
    seq(|doc|, i requires 0 <= i < |doc| => doc[i].(ports := RewrittenPorts(loopback, doc[i].ports, m)))
  }

  ghost function MatchedIn(loopback: LoopbackTest, ports: seq<PortEntry>, m: PortMap): set<int> {
    set e | e in ports && RewriteEntry(loopback, e, m).matched.Some? :: RewriteEntry(loopback, e, m).matched.value
  }

  ghost predicate Matches(loopback: LoopbackTest, doc: Compose, m: PortMap, old_: int) {
    exists i, j :: 0 <= i < |doc| && 0 <= j < |doc[i].ports| && RewriteEntry(loopback, doc[i].ports[j], m).matched == Some(old_)
  }

  ghost function Mapped(ports: HostPortMap, m: PortMap): HostPortMap {
    map k | k in ports :: Target(m, ports[k])
  }

  lemma {:induction false} PortsCommute(loopback: LoopbackTest, name: string, ports: seq<PortEntry>, m: PortMap)
    ensures PortsOf(loopback, name, RewrittenPorts(loopback, ports, m)) == Mapped(PortsOf(loopback, name, ports), m)
  {
    hide RewriteEntry, ExtractEntry;
    if ports != [] {
      var front, last := ports[..|ports| - 1], ports[|ports| - 1];
      PortsCommute(loopback, name, front, m);
      EntryCommutes(loopback, last, m);
      assert RewrittenPorts(loopback, ports, m)[..|ports| - 1] == RewrittenPorts(loopback, front, m);
    }
  }

  lemma MappedUnion(a: HostPortMap, b: HostPortMap, m: PortMap)
    ensures Mapped(a + b, m) == Mapped(a, m) + Mapped(b, m)
  {
  }

  /** Extracting after a rewrite equals applying the override map to the ports extracted before it. */
  lemma {:induction false} ExtractAfterRewrite(loopback: LoopbackTest, doc: Compose, m: PortMap)
    ensures HostPortsOf(loopback, Rewritten(loopback, doc, m)) == Mapped(HostPortsOf(loopback, doc), m)
  {
    hide PortsOf, RewrittenPorts;
    if doc == [] {
      assert Mapped(map[], m) == map[];
    } else {
      var front, last := doc[..|doc| - 1], doc[|doc| - 1];
      ExtractAfterRewrite(loopback, front, m);
      PortsCommute(loopback, last.name, last.ports, m);
      assert Rewritten(loopback, doc, m)[..|doc| - 1] == Rewritten(loopback, front, m);
      MappedUnion(HostPortsOf(loopback, front), PortsOf(loopback, last.name, last.ports), m);
    }
  }

  lemma {:induction false} PortsHaveEntry(loopback: LoopbackTest, name: string, ports: seq<PortEntry>, key: Key)
    requires key in PortsOf(loopback, name, ports)
    ensures exists j :: 0 <= j < |ports| && ExtractEntry(loopback, ports[j]) == Some(Bind(key.container, PortsOf(loopback, name, ports)[key]))
  {
    hide ExtractEntry;
    var n := |ports| - 1;
    var front := ports[..n];
    var bind := ExtractEntry(loopback, ports[n]);
    if bind.Some? && key == Key(name, bind.value.container) {
      assert ports[n] == ports[n];
    } else {
      PortsHaveEntry(loopback, name, front, key);
      var j :| 0 <= j < |front| && ExtractEntry(loopback, front[j]) == Some(Bind(key.container, PortsOf(loopback, name, front)[key]));
      assert front[j] == ports[j];
    }
  }

  /** Every extracted host port comes from an entry of the document, so an override of it is matched. */
  lemma {:induction false} ExtractedIsMatched(loopback: LoopbackTest, doc: Compose, m: PortMap, key: Key)
    requires key in HostPortsOf(loopback, doc) && HostPortsOf(loopback, doc)[key] in m
    ensures Matches(loopback, doc, m, HostPortsOf(loopback, doc)[key])
  {
    hide ExtractEntry, RewriteEntry, PortsOf;
    var n := |doc| - 1;
    var last := doc[n];
    if key in PortsOf(loopback, last.name, last.ports) {
      PortsHaveEntry(loopback, last.name, last.ports, key);
      var j :| 0 <= j < |last.ports| && ExtractEntry(loopback, last.ports[j]) == Some(Bind(key.container, PortsOf(loopback, last.name, last.ports)[key]));
      EntryCommutes(loopback, doc[n].ports[j], m);
    } else {
      var front := doc[..n];
      ExtractedIsMatched(loopback, front, m, key);
      var i, j :| 0 <= i < |front| && 0 <= j < |front[i].ports|
                  && RewriteEntry(loopback, front[i].ports[j], m).matched == Some(HostPortsOf(loopback, doc)[key]);
      assert doc[i].ports[j] == front[i].ports[j];
    }
  }

  // ---- The imperative pair ----

  method ExtractLoopbackHostPorts(loopback: LoopbackTest, doc: Compose) returns (result: HostPortMap)
    ensures result == HostPortsOf(loopback, doc)
  {
    hide ExtractEntry;
    result := map[];
    for i := 0 to |doc|
      invariant result == HostPortsOf(loopback, doc[..i])
    {
      var service := doc[i];
      ghost var before := result;
      assert before + PortsOf(loopback, service.name, service.ports[..0]) == before;
      for j := 0 to |service.ports|
        invariant result == before + PortsOf(loopback, service.name, service.ports[..j])
      {
        assert service.ports[..j + 1][..j] == service.ports[..j];
        result := Record(service.name, ExtractEntry(loopback, service.ports[j]), result);
      }
      assert service.ports[..|service.ports|] == service.ports;
      assert doc[..i + 1][..i] == doc[..i];
    }
    assert doc[..|doc|] == doc;
  }

  // The parsed document, edited entry by entry.
  class Document {
    var services: Compose

    constructor (doc: Compose)
      ensures services == doc
    {
      services := doc;
    }

    /** Rewrites the entries of one service and adds the override keys it met. */
    method RewriteService(loopback: LoopbackTest, i: nat, m: PortMap) returns (found: set<int>)
      requires i < |services|
      modifies this
      ensures services == old(services)[i := old(services)[i].(ports := RewrittenPorts(loopback, old(services)[i].ports, m))]
      ensures found == MatchedIn(loopback, old(services)[i].ports, m)
    {
      hide RewriteEntry;
      ghost var ports := services[i].ports;
      found := {};
      for j := 0 to |services[i].ports|
        invariant |services| == |old(services)| && services[i] == old(services)[i].(ports := services[i].ports)
        invariant forall x :: 0 <= x < |services| && x != i ==> services[x] == old(services)[x]
        invariant |services[i].ports| == |ports|
        invariant forall x :: 0 <= x < |ports| ==>
          services[i].ports[x] == (if x < j then RewriteEntry(loopback, ports[x], m).entry else ports[x])
        invariant found == MatchedIn(loopback, ports[..j], m)
      {
        var rw := RewriteEntry(loopback, services[i].ports[j], m);
        services := services[i := services[i].(ports := services[i].ports[j := rw.entry])];
        if rw.matched.Some? {
          found := found + {rw.matched.value};
        }
        assert ports[..j + 1] == ports[..j] + [ports[j]];
      }
      assert ports[..|ports|] == ports;
      assert services[i].ports == RewrittenPorts(loopback, ports, m);
    }
  }

  method RewriteComposeHostPorts(loopback: LoopbackTest, compose: Compose, overrides: PortMap)
    returns (out: Compose, matched: set<int>)
    ensures out == Rewritten(loopback, compose, overrides)
    ensures forall h :: h in matched <==> Matches(loopback, compose, overrides, h)
  {
    hide RewriteEntry, RewrittenPorts;
    matched := {};
    var doc := new Document(compose);
    for i := 0 to |compose|
      invariant |doc.services| == |compose|
      invariant forall x :: 0 <= x < |compose| ==>
        doc.services[x] == (if x < i then compose[x].(ports := RewrittenPorts(loopback, compose[x].ports, overrides)) else compose[x])
      invariant forall h :: h in matched <==> Matches(loopback, compose[..i], overrides, h)
    {
      var found := doc.RewriteService(loopback, i, overrides);
      MatchesNext(loopback, compose, overrides, i, found);
      matched := matched + found;
    }
    assert compose[..|compose|] == compose;
    out := doc.services;
  }

  lemma MatchesNext(loopback: LoopbackTest, doc: Compose, m: PortMap, i: nat, found: set<int>)
    requires i < |doc|
    requires found == MatchedIn(loopback, doc[i].ports, m)
    ensures forall h :: Matches(loopback, doc[..i + 1], m, h) <==> Matches(loopback, doc[..i], m, h) || h in found
  {
    hide RewriteEntry;
    var longer, shorter := doc[..i + 1], doc[..i];
    forall h | Matches(loopback, longer, m, h)
      ensures Matches(loopback, shorter, m, h) || h in found
    {
      var x, j :| 0 <= x < |longer| && 0 <= j < |longer[x].ports| && RewriteEntry(loopback, longer[x].ports[j], m).matched == Some(h);
      if x < i {
        assert shorter[x] == longer[x];
      }
    }
    forall h | Matches(loopback, shorter, m, h)
      ensures Matches(loopback, longer, m, h)
    {
      var x, j :| 0 <= x < |shorter| && 0 <= j < |shorter[x].ports| && RewriteEntry(loopback, shorter[x].ports[j], m).matched == Some(h);
      assert longer[x] == shorter[x];
    }
    forall h | h in found
      ensures Matches(loopback, longer, m, h)
    {
      assert longer[i] == doc[i];
    }
  }

  /** An empty override map leaves the document as it is, the early return of the source. */
  lemma NoOverridesNoChange(loopback: LoopbackTest, doc: Compose)
    ensures Rewritten(loopback, doc, map[]) == doc
  {
    forall i | 0 <= i < |doc|
      ensures Rewritten(loopback, doc, map[])[i] == doc[i]
    {
      assert RewrittenPorts(loopback, doc[i].ports, map[]) == doc[i].ports;
    }
  }

  // ---- From an entry to the extracted map ----

  /** Entry j of service i is the last of its service name to bind the container. */
  ghost predicate LastFor(loopback: LoopbackTest, doc: Compose, i: nat, j: nat, container: string)
    requires i < |doc| && j < |doc[i].ports|
  {
    forall x, y :: 0 <= x < |doc| && 0 <= y < |doc[x].ports| && (x > i || (x == i && y > j)) && doc[x].name == doc[i].name ==>
      !BindsContainer(loopback, doc[x].ports[y], container)
  }

  predicate BindsContainer(loopback: LoopbackTest, e: PortEntry, container: string) {
    ExtractEntry(loopback, e).Some? && ExtractEntry(loopback, e).value.container == container
  }

  lemma {:induction false} PortsOfEntry(loopback: LoopbackTest, name: string, ports: seq<PortEntry>, j: nat, container: string, host: GoInt)
    requires j < |ports| && ExtractEntry(loopback, ports[j]) == Some(Bind(container, host))
    requires forall y :: j < y < |ports| ==> !BindsContainer(loopback, ports[y], container)
    ensures Key(name, container) in PortsOf(loopback, name, ports) && PortsOf(loopback, name, ports)[Key(name, container)] == host
    decreases |ports|
  {
    hide ExtractEntry;
    var n := |ports| - 1;
    if j < n {
      PortsOfEntry(loopback, name, ports[..n], j, container, host);
      assert !BindsContainer(loopback, ports[n], container);
    }
  }

  lemma {:induction false} PortsOfOwnName(loopback: LoopbackTest, name: string, ports: seq<PortEntry>, key: Key)
    requires key in PortsOf(loopback, name, ports)
    ensures key.service == name
  {
    hide ExtractEntry;
    if ports != [] && key in PortsOf(loopback, name, ports[..|ports| - 1]) {
      PortsOfOwnName(loopback, name, ports[..|ports| - 1], key);
    }
  }

  lemma ExtractedIsBound(loopback: LoopbackTest, name: string, ports: seq<PortEntry>, key: Key)
    ensures key in PortsOf(loopback, name, ports) ==>
              key.service == name && exists y :: 0 <= y < |ports| && BindsContainer(loopback, ports[y], key.container)
  {
    hide ExtractEntry, PortsOf;
    if key in PortsOf(loopback, name, ports) {
      PortsOfOwnName(loopback, name, ports, key);
      PortsHaveEntry(loopback, name, ports, key);
      var y :| 0 <= y < |ports| && ExtractEntry(loopback, ports[y]) == Some(Bind(key.container, PortsOf(loopback, name, ports)[key]));
      assert BindsContainer(loopback, ports[y], key.container);
    }
  }

  /** The extracted map gives a (service, container) the host port of the last entry that binds it. */
  lemma {:induction false} LastEntryWins(loopback: LoopbackTest, doc: Compose, i: nat, j: nat, container: string, host: GoInt)
    requires i < |doc| && j < |doc[i].ports| && ExtractEntry(loopback, doc[i].ports[j]) == Some(Bind(container, host))
    requires LastFor(loopback, doc, i, j, container)
    ensures var key := Key(doc[i].name, container); key in HostPortsOf(loopback, doc) && HostPortsOf(loopback, doc)[key] == host
    decreases |doc|
  {
    hide ExtractEntry, PortsOf;
    var n := |doc| - 1;
    var key := Key(doc[i].name, container);
    if i == n {
      PortsOfEntry(loopback, doc[n].name, doc[n].ports, j, container, host);
    } else {
      var front := doc[..n];
      assert forall x :: 0 <= x < n ==> front[x] == doc[x];
      LastEntryWins(loopback, front, i, j, container, host);
      ExtractedIsBound(loopback, doc[n].name, doc[n].ports, key);
    }
  }
}
