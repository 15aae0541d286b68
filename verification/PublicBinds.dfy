// The public-bind check of the rendered compose against the signed catalog
// (install_phase_validate.go), and why a port rewrite cannot disturb it.
module PublicBinds {
  import opened Wrappers
  import opened Text
  import opened PortPlanning
  import opened ComposePorts

  // The fields of an entry that decide its classification.
  datatype Projected = Projected(hostIP: string, published: string, protocol: string)

  function ParseShortPort(value: string): Projected {
    var cut := Cut(value, '/');
    var parts := Split(cut.before, ':');
    if |parts| == 3 then Projected(parts[0], parts[1], cut.after)
    else if |parts| == 2 then Projected("", parts[0], cut.after)
    else Projected("", cut.before, cut.after)
  }

  function OrEmpty(s: Option<string>): string { if s.Some? then s.value else "" }

  function Project(e: PortEntry): Projected
    requires !e.Other?
  {
    match e
    case Short(value) => ParseShortPort(value)
    case Long(hostIP, published, target, protocol) =>
      Projected(OrEmpty(hostIP), if OrEmpty(published) == "" then OrEmpty(target) else published.value, OrEmpty(protocol))
  }

  predicate IsLoopbackBind(loopback: LoopbackTest, hostIP: string) { hostIP != "" && loopback(hostIP) }

  function RangeKey(protocol: string, lo: int, hi: int): string {
    protocol + "/" + Itoa(lo) + "-" + Itoa(hi)
  }

  function PortKey(protocol: string, port: int): string { protocol + "/" + Itoa(port) }

  /** A single port or a "lo-hi" range, in the form both sides compare; None when it does not classify. */
  function PublicBindKey(e: Projected): Option<string> {
    var protocol := EffectiveProtocol(e.protocol);
    if e.published == "" then None
    else
      var cut := Cut(e.published, '-');
      if cut.found then
        var lo, hi := Atoi(cut.before), Atoi(cut.after);
        if lo.None? || hi.None? then None else Some(RangeKey(protocol, lo.value, hi.value))
      else
        var port := Atoi(e.published);
        if port.None? then None else Some(PortKey(protocol, port.value))
  }

  predicate IsPublic(loopback: LoopbackTest, e: PortEntry)
    requires !e.Other?
  {
    !IsLoopbackBind(loopback, Project(e).hostIP)
  }

  // ---- Both sides as sets of keys ----

  ghost predicate Declarable(port: Port) { port.isPublic && port.hostRange != "" ==> ParsePortRange(port.hostRange).Some? }

  function DeclaredKey(port: Port): string
    requires port.isPublic && (port.hostRange != "" ==> ParsePortRange(port.hostRange).Some?)
  {
    var protocol := EffectiveProtocol(port.protocol);
    if port.hostRange != "" then
      var span := ParsePortRange(port.hostRange).value;
      RangeKey(protocol, span.lo, span.hi)
    else PortKey(protocol, port.host)
  }

  ghost predicate DeclaresKey(ports: seq<Port>, key: string) {
    exists i :: 0 <= i < |ports| && ports[i].isPublic && Declarable(ports[i]) && DeclaredKey(ports[i]) == key
  }

  ghost predicate EntryClassifies(loopback: LoopbackTest, e: PortEntry) {
    !e.Other? && (IsPublic(loopback, e) ==> PublicBindKey(Project(e)).Some?)
  }

  ghost predicate EntryBinds(loopback: LoopbackTest, e: PortEntry, key: string) {
    !e.Other? && IsPublic(loopback, e) && PublicBindKey(Project(e)) == Some(key)
  }

  ghost predicate Classifies(loopback: LoopbackTest, doc: Compose) {
    forall i, j :: 0 <= i < |doc| && 0 <= j < |doc[i].ports| ==> EntryClassifies(loopback, doc[i].ports[j])
  }

  ghost predicate BindsKey(loopback: LoopbackTest, doc: Compose, key: string) {
    exists i, j :: 0 <= i < |doc| && 0 <= j < |doc[i].ports| && EntryBinds(loopback, doc[i].ports[j], key)
  }

  ghost predicate UsesHostNetwork(doc: Compose) {
    exists i :: 0 <= i < |doc| && doc[i].hostNetwork
  }

  /** The check's verdict: no host networking, everything classifies, and the two key sets are equal. */
  ghost predicate PublicBindsMatch(loopback: LoopbackTest, ports: seq<Port>, doc: Compose) {
    && !UsesHostNetwork(doc) && Classifies(loopback, doc)
    && (forall i :: 0 <= i < |ports| ==> Declarable(ports[i]))
    && forall key :: BindsKey(loopback, doc, key) <==> DeclaresKey(ports, key)
  }

  // ---- The same without key texts ----

  // A public bind: one host port, or a span of them, of one protocol.
  datatype PublicBind = OnePort(protocol: string, port: int) | PortSpan(protocol: string, lo: int, hi: int)

  function TcpByDefault(protocol: string): string { if protocol == "" then "tcp" else protocol }

  /** What a rendered entry publishes, when it classifies. */
  function RenderedBind(e: Projected): Option<PublicBind> {
    var cut := Cut(e.published, '-');
    if cut.found then
      if Atoi(cut.before).None? || Atoi(cut.after).None? then None
      else Some(PortSpan(TcpByDefault(e.protocol), Atoi(cut.before).value, Atoi(cut.after).value))
    else if Atoi(e.published).None? then None
    else Some(OnePort(TcpByDefault(e.protocol), Atoi(e.published).value))
  }

  /** What a public catalog entry declares. */
  function CatalogBind(port: Port): PublicBind
    requires port.hostRange != "" ==> ParsePortRange(port.hostRange).Some?
  {
    if port.hostRange == "" then OnePort(TcpByDefault(port.protocol), port.host)
    else PortSpan(TcpByDefault(port.protocol), ParsePortRange(port.hostRange).value.lo, ParsePortRange(port.hostRange).value.hi)
  }

  function KeyText(b: PublicBind): string {
    match b
    case OnePort(protocol, port) => PortKey(protocol, port)
    case PortSpan(protocol, lo, hi) => RangeKey(protocol, lo, hi)
  }

  lemma SplitLaterHoldsSeparator(p: string, q: string, s: string, t: string, c: char)
    requires |p| < |q| && p + [c] + s == q + [c] + t
    ensures c in s
  {
    var whole := p + [c] + s;
    assert whole[|q|] == s[|q| - |p| - 1];
    assert whole[|q|] == (q + [c] + t)[|q|] == c;
  }

  /** A text splits in one way at its last separator. */
  lemma SuffixAfterLast(p: string, q: string, s: string, t: string, c: char)
    requires p + [c] + s == q + [c] + t && c !in s && c !in t
    ensures p == q && s == t
  {
    if |p| < |q| {
      SplitLaterHoldsSeparator(p, q, s, t, c);
    } else if |q| < |p| {
      SplitLaterHoldsSeparator(q, p, t, s, c);
    } else {
      var whole := p + [c] + s;
      assert whole[..|p|] == p && whole[|p| + 1..] == s;
      assert (q + [c] + t)[..|q|] == q && (q + [c] + t)[|q| + 1..] == t;
    }
  }

  function Tail(b: PublicBind): string {
    match b
    case OnePort(_, port) => Itoa(port)
    case PortSpan(_, lo, hi) => Itoa(lo) + "-" + Itoa(hi)
  }

  lemma KeyIsProtocolAndTail(b: PublicBind)
    ensures KeyText(b) == b.protocol + "/" + Tail(b) && '/' !in Tail(b)
  {
    hide Itoa;
  }

  /** A span's low end is never negative: its text would not have been cut there. */
  predicate Proper(b: PublicBind) { b.PortSpan? ==> b.lo >= 0 }

  lemma NoDash(n: int)
    ensures n >= 0 ==> '-' !in Itoa(n)
    ensures Itoa(n)[0] == '-' <==> n < 0
  {
    SignShows(n);
  }

  lemma SameTail(a: PublicBind, b: PublicBind)
    requires Proper(a) && Proper(b) && a.protocol == b.protocol && Tail(a) == Tail(b)
    ensures a == b
  {
    hide Itoa;
    match (a, b) {
      case (OnePort(_, m), OnePort(_, n)) =>
        ItoaInjective(m, n);
      case (PortSpan(_, lo, hi), PortSpan(_, lo', hi')) =>
        NoDash(lo);
        NoDash(lo');
        CutOfJoined(Itoa(lo), Itoa(hi), '-');
        CutOfJoined(Itoa(lo'), Itoa(hi'), '-');
        ItoaInjective(lo, lo');
        ItoaInjective(hi, hi');
      case (OnePort(_, n), PortSpan(_, lo, hi)) =>
        TailsDiffer(n, lo, hi);
      case (PortSpan(_, lo, hi), OnePort(_, n)) =>
        TailsDiffer(n, lo, hi);
    }
  }

  lemma TailsDiffer(n: int, lo: int, hi: int)
    requires lo >= 0
    ensures Itoa(n) != Itoa(lo) + "-" + Itoa(hi)
  {
    hide Itoa;
    NoDash(n);
    NoDash(lo);
    var span := Itoa(lo) + "-" + Itoa(hi);
    assert span[0] == Itoa(lo)[0] && span[|Itoa(lo)|] == '-';
    assert '-' in span;
  }

  /** Two public binds have the same key exactly when they are the same bind: same protocol, same port or same span. */
  lemma SameKeyIffSameBind(a: PublicBind, b: PublicBind)
    requires Proper(a) && Proper(b)
    ensures KeyText(a) == KeyText(b) <==> a == b
  {
    hide KeyText, Tail;
    KeyIsProtocolAndTail(a);
    KeyIsProtocolAndTail(b);
    if KeyText(a) == KeyText(b) {
      SuffixAfterLast(a.protocol, b.protocol, Tail(a), Tail(b), '/');
      SameTail(a, b);
    }
  }

  lemma UnsignedBefore(s: string)
    requires '-' !in s && Atoi(s).Some?
    ensures Atoi(s).value >= 0
  {
  }

  /** The rendered side's key is the text of the rendered bind. */
  lemma RenderedKey(e: Projected)
    ensures PublicBindKey(e).Some? <==> RenderedBind(e).Some?
    ensures RenderedBind(e).Some? ==> PublicBindKey(e) == Some(KeyText(RenderedBind(e).value)) && Proper(RenderedBind(e).value)
  {
    hide Atoi, Itoa;
    var cut := Cut(e.published, '-');
    if e.published == "" {
      EmptyIsNoNumber();
    } else if cut.found && Atoi(cut.before).Some? {
      UnsignedBefore(cut.before);
    }
  }

  /** The catalog side's key is the text of the declared bind. */
  lemma CatalogKey(port: Port)
    requires port.isPublic && Declarable(port)
    ensures DeclaredKey(port) == KeyText(CatalogBind(port)) && Proper(CatalogBind(port))
  {
    hide ParsePortRange, Itoa;
  }

  ghost predicate DeclaresBind(ports: seq<Port>, b: PublicBind) {
    exists i :: 0 <= i < |ports| && ports[i].isPublic && Declarable(ports[i]) && CatalogBind(ports[i]) == b
  }

  ghost predicate RendersBind(loopback: LoopbackTest, doc: Compose, b: PublicBind) {
    exists i, j :: 0 <= i < |doc| && 0 <= j < |doc[i].ports| && EntryRenders(loopback, doc[i].ports[j], b)
  }

  /** The entry is not on loopback and publishes the bind. */
  ghost predicate EntryRenders(loopback: LoopbackTest, e: PortEntry, b: PublicBind) {
    !e.Other? && (Project(e).hostIP == "" || !loopback(Project(e).hostIP)) && RenderedBind(Project(e)) == Some(b)
  }

  /** Everything classifies exactly when every entry has a known form and, unless it is on loopback, publishes a bind. */
  lemma ClassifiesExactly(loopback: LoopbackTest, doc: Compose)
    ensures Classifies(loopback, doc) <==>
              forall i, j :: 0 <= i < |doc| && 0 <= j < |doc[i].ports| ==>
                var e := doc[i].ports[j];
                !e.Other? && ((Project(e).hostIP != "" && loopback(Project(e).hostIP)) || RenderedBind(Project(e)).Some?)
  {
    hide PublicBindKey, RenderedBind, Project;
    forall i, j | 0 <= i < |doc| && 0 <= j < |doc[i].ports|
      ensures !doc[i].ports[j].Other? ==>
                (PublicBindKey(Project(doc[i].ports[j])).Some? <==> RenderedBind(Project(doc[i].ports[j])).Some?)
    {
      if !doc[i].ports[j].Other? {
        RenderedKey(Project(doc[i].ports[j]));
      }
    }
  }

  lemma DeclaresAlike(ports: seq<Port>, b: PublicBind)
    requires Proper(b)
    ensures DeclaresKey(ports, KeyText(b)) <==> DeclaresBind(ports, b)
  {
    hide ParsePortRange, DeclaredKey, CatalogBind, KeyText, Proper;
    forall i | 0 <= i < |ports| && ports[i].isPublic && Declarable(ports[i])
      ensures DeclaredKey(ports[i]) == KeyText(b) <==> CatalogBind(ports[i]) == b
    {
      CatalogKey(ports[i]);
      SameKeyIffSameBind(CatalogBind(ports[i]), b);
    }
  }

  lemma EntryRendersAlike(loopback: LoopbackTest, e: PortEntry, b: PublicBind)
    requires Proper(b)
    ensures EntryBinds(loopback, e, KeyText(b)) <==> EntryRenders(loopback, e, b)
  {
    hide Project, KeyText, PublicBindKey, RenderedBind, Proper;
    if !e.Other? {
      RenderedKey(Project(e));
      if RenderedBind(Project(e)).Some? {
        SameKeyIffSameBind(RenderedBind(Project(e)).value, b);
      }
    }
  }

  lemma RendersAlike(loopback: LoopbackTest, doc: Compose, b: PublicBind)
    requires Proper(b)
    ensures BindsKey(loopback, doc, KeyText(b)) <==> RendersBind(loopback, doc, b)
  {
    hide EntryBinds, EntryRenders, KeyText, Proper;
    forall i, j | 0 <= i < |doc| && 0 <= j < |doc[i].ports|
      ensures EntryBinds(loopback, doc[i].ports[j], KeyText(b)) <==> EntryRenders(loopback, doc[i].ports[j], b)
    {
      EntryRendersAlike(loopback, doc[i].ports[j], b);
    }
  }

  /** Every key comes from a bind. */
  lemma KeyHasBind(loopback: LoopbackTest, ports: seq<Port>, doc: Compose, key: string) returns (b: PublicBind)
    requires DeclaresKey(ports, key) || BindsKey(loopback, doc, key)
    ensures Proper(b) && KeyText(b) == key
  {
    hide ParsePortRange, DeclaredKey, CatalogBind, KeyText, Proper, Project, PublicBindKey, RenderedBind;
    if DeclaresKey(ports, key) {
      var i :| 0 <= i < |ports| && ports[i].isPublic && Declarable(ports[i]) && DeclaredKey(ports[i]) == key;
      CatalogKey(ports[i]);
      b := CatalogBind(ports[i]);
    } else {
      var i, j :| 0 <= i < |doc| && 0 <= j < |doc[i].ports| && EntryBinds(loopback, doc[i].ports[j], key);
      RenderedKey(Project(doc[i].ports[j]));
      b := RenderedBind(Project(doc[i].ports[j])).value;
    }
  }

  lemma BindIsProper(loopback: LoopbackTest, ports: seq<Port>, doc: Compose, b: PublicBind)
    ensures DeclaresBind(ports, b) || RendersBind(loopback, doc, b) ==> Proper(b)
  {
    hide ParsePortRange, DeclaredKey, CatalogBind, KeyText, Proper, Project, PublicBindKey, RenderedBind;
    if DeclaresBind(ports, b) {
      var i :| 0 <= i < |ports| && ports[i].isPublic && Declarable(ports[i]) && CatalogBind(ports[i]) == b;
      CatalogKey(ports[i]);
    } else if RendersBind(loopback, doc, b) {
      var i, j :| 0 <= i < |doc| && 0 <= j < |doc[i].ports| && EntryRenders(loopback, doc[i].ports[j], b);
      RenderedKey(Project(doc[i].ports[j]));
    }
  }

  /** The check accepts exactly when no service uses host networking, everything classifies, and catalog and compose have
      the same public binds, protocol by protocol, port by port and span by span. */
  lemma VerdictIsSameBinds(loopback: LoopbackTest, ports: seq<Port>, doc: Compose)
    ensures PublicBindsMatch(loopback, ports, doc) <==>
              && !UsesHostNetwork(doc) && Classifies(loopback, doc)
              && (forall i :: 0 <= i < |ports| ==> Declarable(ports[i]))
              && (forall b :: RendersBind(loopback, doc, b) <==> DeclaresBind(ports, b))
  {
    hide UsesHostNetwork, Classifies, Declarable, BindsKey, DeclaresKey, RendersBind, DeclaresBind, KeyText, Proper;
    if forall key :: BindsKey(loopback, doc, key) <==> DeclaresKey(ports, key) {
      forall b
        ensures RendersBind(loopback, doc, b) <==> DeclaresBind(ports, b)
      {
        BindIsProper(loopback, ports, doc, b);
        if Proper(b) {
          RendersAlike(loopback, doc, b);
          DeclaresAlike(ports, b);
          assert BindsKey(loopback, doc, KeyText(b)) <==> DeclaresKey(ports, KeyText(b));
        }
      }
    }
    if forall b :: RendersBind(loopback, doc, b) <==> DeclaresBind(ports, b) {
      forall key
        ensures BindsKey(loopback, doc, key) <==> DeclaresKey(ports, key)
      {
        if BindsKey(loopback, doc, key) || DeclaresKey(ports, key) {
          var b := KeyHasBind(loopback, ports, doc, key);
          RendersAlike(loopback, doc, b);
          DeclaresAlike(ports, b);
        }
      }
    }
  }

  // ---- Reading the published part ----

  function ProtocolOf(protocol: Option<string>): string { if protocol.Some? then protocol.value else "" }

  /** "ip:published:container", "published:container" and "container", each with "/protocol" or without. */
  lemma ShortPublishes(ip: string, published: string, container: string, protocol: Option<string>)
    requires PlainPart(ip) && PlainPart(published) && PlainPart(container)
    ensures Project(Short(Suffixed(ShortText(ip, published, container), protocol))) == Projected(ip, published, ProtocolOf(protocol))
    ensures Project(Short(Suffixed(published + ":" + container, protocol))) == Projected("", published, ProtocolOf(protocol))
    ensures Project(Short(Suffixed(container, protocol))) == Projected("", container, ProtocolOf(protocol))
  {
    hide Cut, Split, Join, ShortText;
    ShortTextSplits(ip, published, container);
    CutOfSuffixed(ShortText(ip, published, container), protocol);
    SplitPrefix(published, container, ':');
    SplitPrefix(container, "", ':');
    CutOfSuffixed(published + ":" + container, protocol);
    CutOfSuffixed(container, protocol);
  }

  /** A long entry publishes its published field, or its target when that is missing or empty. */
  lemma LongPublishes(hostIP: Option<string>, published: Option<string>, target: string, protocol: Option<string>)
    ensures var p := Project(Long(hostIP, published, Some(target), protocol));
            && p.published == (if published == None || published == Some("") then target else published.value)
            && p.protocol == ProtocolOf(protocol) && p.hostIP == ProtocolOf(hostIP)
  {
  }

  /** A numeric published text is that port, and "lo-hi" that span, of the entry's protocol or TCP. */
  lemma PublishedIsBind(hostIP: string, lo: GoInt, hi: GoInt, protocol: string)
    requires lo >= 0
    ensures RenderedBind(Projected(hostIP, Itoa(lo), protocol)) == Some(OnePort(if protocol == "" then "tcp" else protocol, lo))
    ensures RenderedBind(Projected(hostIP, Itoa(lo) + "-" + Itoa(hi), protocol)) ==
            Some(PortSpan(if protocol == "" then "tcp" else protocol, lo, hi))
  {
    hide Itoa, Atoi;
    NoDash(lo);
    CutAbsent(Itoa(lo), '-');
    CutOfJoined(Itoa(lo), Itoa(hi), '-');
    AtoiOfItoa(lo);
    AtoiOfItoa(hi);
  }

  /** A public catalog entry declares its host port or its host span, of its protocol or TCP. */
  lemma CatalogDeclares(port: Port, lo: GoInt, hi: GoInt)
    requires port.isPublic
    ensures port.hostRange == "" ==> CatalogBind(port) == OnePort(if port.protocol == "" then "tcp" else port.protocol, port.host)
    ensures port.hostRange == Itoa(lo) + "-" + Itoa(hi) ==> (Declarable(port) <==> 1 <= lo <= hi <= 65535)
    ensures port.hostRange == Itoa(lo) + "-" + Itoa(hi) && Declarable(port) ==>
              CatalogBind(port) == PortSpan(if port.protocol == "" then "tcp" else port.protocol, lo, hi)
  {
    hide ParsePortRange, Itoa;
    RangeTextReads(lo, hi);
    assert Itoa(lo) + "-" + Itoa(hi) != "";
  }

  /** One host port declared public on two protocols and rendered on one: refused. */
  lemma MissingProtocolIsRefused(loopback: LoopbackTest, service: string, host: GoInt, container: GoInt)
    requires host >= 0
    ensures var declared := [Port(service, container, host, "tcp", true, "", ""), Port(service, container, host, "udp", true, "", "")];
            var doc := [Service(service, false, [Short(Itoa(host) + ":" + Itoa(container) + "/" + "tcp")])];
            !PublicBindsMatch(loopback, declared, doc)
  {
    hide Itoa, Project, PublicBindsMatch;
    var declared := [Port(service, container, host, "tcp", true, "", ""), Port(service, container, host, "udp", true, "", "")];
    var entry := Short(Itoa(host) + ":" + Itoa(container) + "/" + "tcp");
    var doc := [Service(service, false, [entry])];
    NumberIsPlain(host);
    NumberIsPlain(container);
    ShortPublishes("", Itoa(host), Itoa(container), Some("tcp"));
    PublishedIsBind("", host, host, "tcp");
    VerdictIsSameBinds(loopback, declared, doc);
    assert CatalogBind(declared[1]) == OnePort("udp", host) && Declarable(declared[1]);
    assert DeclaresBind(declared, OnePort("udp", host));
    assert !EntryRenders(loopback, entry, OnePort("udp", host));
    assert !RendersBind(loopback, doc, OnePort("udp", host));
  }

  method DeclaredPublicBinds(ports: seq<Port>) returns (r: Option<set<string>>)
    ensures r.Some? <==> forall i :: 0 <= i < |ports| ==> Declarable(ports[i])
    ensures r.Some? ==> forall key :: key in r.value <==> DeclaresKey(ports, key)
  {
    hide ParsePortRange, DeclaredKey;
    var declared: set<string> := {};
    for i := 0 to |ports|
      invariant forall x :: 0 <= x < i ==> Declarable(ports[x])
      invariant forall key :: key in declared <==> exists x :: 0 <= x < i && ports[x].isPublic && Declarable(ports[x]) && DeclaredKey(ports[x]) == key
    {
      if ports[i].isPublic {
        if ports[i].hostRange != "" && ParsePortRange(ports[i].hostRange).None? {
          assert !Declarable(ports[i]);
          return None;
        }
        declared := declared + {DeclaredKey(ports[i])};
      }
    }
    r := Some(declared);
  }

  method ServicePublicBinds(loopback: LoopbackTest, entries: seq<PortEntry>) returns (r: Option<set<string>>)
    ensures r.Some? <==> forall j :: 0 <= j < |entries| ==> EntryClassifies(loopback, entries[j])
    ensures r.Some? ==> forall key :: key in r.value <==> exists j :: 0 <= j < |entries| && EntryBinds(loopback, entries[j], key)
  {
    hide Project, PublicBindKey;
    var rendered: set<string> := {};
    for j := 0 to |entries|
      invariant forall x :: 0 <= x < j ==> EntryClassifies(loopback, entries[x])
      invariant forall key :: key in rendered <==> exists x :: 0 <= x < j && EntryBinds(loopback, entries[x], key)
    {
      var entry := entries[j];
      if entry.Other? {
        assert !EntryClassifies(loopback, entries[j]);
        return None;
      }
      if IsLoopbackBind(loopback, Project(entry).hostIP) {
        continue;
      }
      var key := PublicBindKey(Project(entry));
      if key.None? {
        assert !EntryClassifies(loopback, entries[j]);
        return None;
      }
      rendered := rendered + {key.value};
    }
    r := Some(rendered);
  }

  method RenderedPublicBinds(loopback: LoopbackTest, doc: Compose) returns (r: Option<set<string>>)
    ensures r.Some? <==> Classifies(loopback, doc)
    ensures r.Some? ==> forall key :: key in r.value <==> BindsKey(loopback, doc, key)
  {
    hide EntryClassifies, EntryBinds;
    var rendered: set<string> := {};
    for i := 0 to |doc|
      invariant forall x, j :: 0 <= x < i && 0 <= j < |doc[x].ports| ==> EntryClassifies(loopback, doc[x].ports[j])
      invariant forall key :: key in rendered <==>
        exists x, j :: 0 <= x < i && 0 <= j < |doc[x].ports| && EntryBinds(loopback, doc[x].ports[j], key)
    {
      var binds := ServicePublicBinds(loopback, doc[i].ports);
      if binds.None? {
        return None;
      }
      rendered := rendered + binds.value;
    }
    r := Some(rendered);
  }

  method VerifyPublicBindsMatchCatalog(loopback: LoopbackTest, ports: seq<Port>, doc: Compose) returns (ok: bool)
    ensures ok <==> PublicBindsMatch(loopback, ports, doc)
  {
    hide Classifies, BindsKey, DeclaresKey, Declarable;
    for i := 0 to |doc|
      invariant forall x :: 0 <= x < i ==> !doc[x].hostNetwork
    {
      if doc[i].hostNetwork {
        return false;
      }
    }
    var declared := DeclaredPublicBinds(ports);
    if declared.None? {
      return false;
    }
    var rendered := RenderedPublicBinds(loopback, doc);
    if rendered.None? {
      return false;
    }
    if !(rendered.value <= declared.value) {
      var key: string :| key in rendered.value && key !in declared.value;
      assert BindsKey(loopback, doc, key) && !DeclaresKey(ports, key);
      return false;
    }
    if !(declared.value <= rendered.value) {
      var key: string :| key in declared.value && key !in rendered.value;
      assert !BindsKey(loopback, doc, key) && DeclaresKey(ports, key);
      return false;
    }
    ok := true;
  }

  // ---- A port rewrite is invisible to the check ----

  /** A rewritten entry still has the same public face: it classifies alike and binds the same public key, if any. */
  lemma RewriteKeepsEntry(loopback: LoopbackTest, e: PortEntry, m: PortMap, key: string)
    requires !loopback("")
    ensures var after := RewriteEntry(loopback, e, m).entry;
            && (EntryClassifies(loopback, after) <==> EntryClassifies(loopback, e))
            && (EntryBinds(loopback, after, key) <==> EntryBinds(loopback, e, key))
  {
    hide Atoi, Itoa, PublicBindKey, Join, Split, Cut;
    if e.Short? {
      var cut := Cut(e.value, '/');
      var parts := Split(cut.before, ':');
      if |parts| == 3 && loopback(parts[0]) && Atoi(parts[1]).Some? && Atoi(parts[1]).value in m {
        SplitKeepsAbsent(cut.before, ':', '/');
        ShortReadsBack(parts, m[Atoi(parts[1]).value], cut);
      }
    }
  }

  /** The verdict is the same before and after any rewrite: a remap can neither hide nor create a public bind. */
  lemma RewriteKeepsVerdict(loopback: LoopbackTest, ports: seq<Port>, doc: Compose, m: PortMap)
    requires !loopback("")
    ensures PublicBindsMatch(loopback, ports, Rewritten(loopback, doc, m)) <==> PublicBindsMatch(loopback, ports, doc)
    ensures forall key :: BindsKey(loopback, Rewritten(loopback, doc, m), key) <==> BindsKey(loopback, doc, key)
  {
    hide EntryClassifies, EntryBinds, RewriteEntry, DeclaresKey, Declarable;
    var after := Rewritten(loopback, doc, m);
    forall i, j | 0 <= i < |doc| && 0 <= j < |doc[i].ports|
      ensures EntryClassifies(loopback, after[i].ports[j]) <==> EntryClassifies(loopback, doc[i].ports[j])
    {
      RewriteKeepsEntry(loopback, doc[i].ports[j], m, "");
    }
    forall key
      ensures BindsKey(loopback, after, key) <==> BindsKey(loopback, doc, key)
    {
      forall i, j | 0 <= i < |doc| && 0 <= j < |doc[i].ports|
        ensures EntryBinds(loopback, after[i].ports[j], key) <==> EntryBinds(loopback, doc[i].ports[j], key)
      {
        RewriteKeepsEntry(loopback, doc[i].ports[j], m, key);
      }
      SameBinds(loopback, doc, after, key);
    }
    assert Classifies(loopback, after) <==> Classifies(loopback, doc) by {
      SameClassifies(loopback, doc, after);
      SameClassifies(loopback, after, doc);
    }
    assert UsesHostNetwork(after) <==> UsesHostNetwork(doc) by {
      assert forall i :: 0 <= i < |doc| ==> after[i].hostNetwork == doc[i].hostNetwork;
      if UsesHostNetwork(doc) {
        var i :| 0 <= i < |doc| && doc[i].hostNetwork;
        assert after[i].hostNetwork;
      }
    }
  }

  ghost predicate SameShape(a: Compose, b: Compose) {
    |a| == |b| && forall i :: 0 <= i < |a| ==> |a[i].ports| == |b[i].ports|
  }

  lemma SameBinds(loopback: LoopbackTest, a: Compose, b: Compose, key: string)
    requires SameShape(a, b)
    requires forall i, j :: 0 <= i < |a| && 0 <= j < |a[i].ports| ==>
      (EntryBinds(loopback, a[i].ports[j], key) <==> EntryBinds(loopback, b[i].ports[j], key))
    ensures BindsKey(loopback, a, key) <==> BindsKey(loopback, b, key)
  {
    hide EntryBinds;
    if BindsKey(loopback, a, key) {
      var i, j :| 0 <= i < |a| && 0 <= j < |a[i].ports| && EntryBinds(loopback, a[i].ports[j], key);
      assert EntryBinds(loopback, b[i].ports[j], key);
    }
    if BindsKey(loopback, b, key) {
      var i, j :| 0 <= i < |b| && 0 <= j < |b[i].ports| && EntryBinds(loopback, b[i].ports[j], key);
      assert EntryBinds(loopback, a[i].ports[j], key);
    }
  }

  lemma SameClassifies(loopback: LoopbackTest, a: Compose, b: Compose)
    requires SameShape(a, b)
    requires forall i, j :: 0 <= i < |a| && 0 <= j < |a[i].ports| ==>
      (EntryClassifies(loopback, a[i].ports[j]) ==> EntryClassifies(loopback, b[i].ports[j]))
    ensures Classifies(loopback, a) ==> Classifies(loopback, b)
  {
    hide EntryClassifies;
    forall i, j | Classifies(loopback, a) && 0 <= i < |b| && 0 <= j < |b[i].ports|
      ensures EntryClassifies(loopback, b[i].ports[j])
    {
      assert EntryClassifies(loopback, a[i].ports[j]);
    }
  }
}
