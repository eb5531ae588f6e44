/**
 * One route table, three backends: what the Caddy text, the Traefik maps and the nexa-proxy map
 * serve after the same routes were applied and the same domains removed. Each file is read back
 * here by its own format, and compared with what that format can say of a route.
 */
module Backends {
  import opened Wrappers
  import opened Strings
  import opened Routes
  import opened Caddy
  import opened CaddyRemoval
  import opened CaddyRuns
  import Traefik
  import NexaProxy

  // ---- Reading a Caddyfile ----

  /** A site block: its domain, TLS material, upstream addresses in order, and proxy options. */
  datatype Entry = Entry(domain: string, tls: TlsConfig, addrs: seq<string>, options: seq<seq<string>>)

  /** What a Caddyfile says of a route. */
  function EntryOf(r: RouteConfig): Entry {
    Entry(r.domain, r.tls, Addresses(r.upstream), OptionsOf(r))
  }

  /** Several upstreams are checked for health, and balanced by weight if one has a weight above 1. */
  function OptionsOf(r: RouteConfig): seq<seq<string>> {
    if |r.upstream| <= 1 then []
    else
      (if exists u <- r.upstream :: u.weight > 1 then [["lb_policy", "weighted_round_robin"]] else []) +
      [["health_uri", "/health"], ["health_interval", "10s"]]
  }

  /** The site a header names; a scheme in front means plain HTTP. */
  function Named(s: string): Entry {
    if "http://" <= s then Entry(s[7..], NoTls, [], []) else Entry(s, Auto(""), [], [])
  }

  /** One word behind `tls` is an email address, two are a certificate and its key. */
  function TlsOf(words: seq<string>): TlsConfig {
    if |words| == 1 then Auto(words[0])
    else if |words| == 2 then Manual(words[0], words[1])
    else Auto("")
  }

  predicate OpensBlock(line: string) {
    |line| >= 2 && line[|line| - 2..] == " {"
  }

  function BeforeBrace(line: string): string {
    if OpensBlock(line) then line[..|line| - 2] else line
  }

  const TLS: string := "    tls "
  const PROXY: string := "    reverse_proxy "
  const OPTION: string := "        "

  /** The site after a line inside its block. */
  function ReadLine(e: Entry, line: string): Entry {
    if TLS <= line then e.(tls := TlsOf(Words(line[8..])))
    else if PROXY <= line then e.(addrs := Words(BeforeBrace(line[18..])))
    else if OPTION <= line then e.(options := e.options + [Words(line[8..])])
    else e
  }

  /** The sites of a Caddyfile, in order; a block without upstreams serves nothing. */
  function ReadEntries(ls: seq<string>, e: Entry, inside: bool): seq<Entry>
    decreases |ls|
  {
    if ls == [] then []
    else if !inside then
      if OpensBlock(ls[0]) then ReadEntries(ls[1..], Named(BeforeBrace(ls[0])), true)
      else ReadEntries(ls[1..], e, false)
    else if ls[0] == "}" then (if e.addrs == [] then [] else [e]) + ReadEntries(ls[1..], e, false)
    else ReadEntries(ls[1..], ReadLine(e, ls[0]), true)
  }

  const NO_ENTRY: Entry := Entry("", NoTls, [], [])

  function CaddySites(content: string): seq<Entry> {
    ReadEntries(NonBlank(Lines(content)), NO_ENTRY, false)
  }

  predicate ReadableTls(tls: TlsConfig) {
    match tls
    case NoTls => true
    case Auto(email) => NoSpace(email)
    case Manual(cert, key) => NoSpace(cert) && NoSpace(key)
  }

  /** Tokens without spaces, which separate them in the text. */
  predicate ReadableRoute(r: RouteConfig) {
    ReadableTls(r.tls) && forall u <- r.upstream :: NoSpace(u.address)
  }

  predicate Readable(routes: seq<RouteConfig>) {
    forall r <- routes :: ReadableRoute(r)
  }

  lemma ReadInside(line: string, rest: seq<string>, e: Entry)
    requires line != "}"
    ensures ReadEntries([line] + rest, e, true) == ReadEntries(rest, ReadLine(e, line), true)
  {
    hide ReadLine, Named, BeforeBrace, OpensBlock;
    assert ([line] + rest)[1..] == rest;
  }

  lemma ReadHeader(r: RouteConfig, rest: seq<string>, e: Entry)
    requires PlainRoute(r)
    ensures ReadEntries([HeaderLine(r)] + rest, e, false) ==
            ReadEntries(rest, Entry(r.domain, if r.tls.NoTls? then NoTls else Auto(""), [], []), true)
  {
    hide ReadLine;
    var line := HeaderLine(r);
    var w := if r.tls.NoTls? then "http://" + r.domain else r.domain;
    assert line == w + " {";
    assert line[|line| - 2..] == " {" && line[..|line| - 2] == w;
    assert Named(w) == Entry(r.domain, if r.tls.NoTls? then NoTls else Auto(""), [], []);
    assert ([line] + rest)[1..] == rest;
  }

  lemma OneWordRead(w: string)
    requires NoSpace(w)
    ensures JoinSpace([w]) == w && Words(w) == [w]
  {
    WordsOfJoin([w]);
  }

  lemma TwoWordsRead(a: string, b: string)
    requires NoSpace(a) && NoSpace(b)
    ensures Words(a + " " + b) == [a, b]
  {
    WordsStep(a, b);
    OneWordRead(b);
  }

  /** The TLS line gives back the email, or the certificate and then the key. */
  lemma ReadTlsLine(tls: TlsConfig, text: string, e: Entry)
    requires ReadableTls(tls) && !tls.NoTls?
    requires match tls
             case NoTls => true
             case Auto(email) => text == email
             case Manual(cert, key) => text == cert + " " + key
    ensures ReadLine(e, "    tls " + text) == e.(tls := tls)
  {
    hide Words;
    var line := "    tls " + text;
    assert TLS <= line && line[8..] == text;
    match tls
    case Auto(email) => OneWordRead(email);
    case Manual(cert, key) => TwoWordsRead(cert, key);
  }

  lemma ReadTls(r: RouteConfig, rest: seq<string>, e: Entry)
    requires ReadableTls(r.tls) && (r.tls.NoTls? ==> e.tls == NoTls)
    ensures ReadEntries(TlsLines(r.tls) + rest, e, true) == ReadEntries(rest, e.(tls := r.tls), true)
  {
    hide ReadEntries, ReadLine, NoSpace;
    match r.tls {
      case NoTls =>
        assert TlsLines(r.tls) + rest == rest;
      case Auto(email) =>
        var line := "    tls " + email;
        assert line[0] == ' ';
        ReadTlsLine(r.tls, email, e);
        ReadInside(line, rest, e);
      case Manual(cert, key) =>
        var line := "    tls " + (cert + " " + key);
        assert line[0] == ' ';
        ReadTlsLine(r.tls, cert + " " + key, e);
        ReadInside(line, rest, e);
    }
  }

  lemma NoBraceNoBlock(line: string)
    requires '{' !in line
    ensures !OpensBlock(line)
  {
    if |line| >= 2 {
      assert line[|line| - 2..][1] == line[|line| - 1];
    }
  }

  lemma ProxyLineRead(text: string, e: Entry)
    ensures var line := "    reverse_proxy " + text;
            line != "}" && ReadLine(e, line) == e.(addrs := Words(BeforeBrace(text)))
  {
    hide Words, TlsOf, BeforeBrace;
    var line := "    reverse_proxy " + text;
    assert line[0] == ' ' && line[4] == 'r' && TLS[4] == 't';
    assert PROXY <= line && line[18..] == text;
  }

  lemma BeforeBraceRead(joined: string)
    requires '{' !in joined
    ensures BeforeBrace(joined) == joined && BeforeBrace(joined + " {") == joined
  {
    NoBraceNoBlock(joined);
    var t := joined + " {";
    assert t[|t| - 2..] == " {" && t[..|t| - 2] == joined;
  }

  lemma ReadProxyLine(line: string, addrs: seq<string>, e: Entry)
    requires addrs != [] && forall i :: 0 <= i < |addrs| ==> NoSpace(addrs[i]) && '{' !in addrs[i]
    requires line == "    reverse_proxy " + JoinSpace(addrs) + " {" ||
             line == "    reverse_proxy " + JoinSpace(addrs)
    ensures line != "}" && ReadLine(e, line) == e.(addrs := addrs)
  {
    hide Words, JoinSpace, ReadLine, BeforeBrace, NoSpace;
    var joined := JoinSpace(addrs);
    WordsOfJoin(addrs);
    JoinMembers(addrs, '{');
    BeforeBraceRead(joined);
    if line == "    reverse_proxy " + joined + " {" {
      assert line == "    reverse_proxy " + (joined + " {");
      ProxyLineRead(joined + " {", e);
    } else {
      ProxyLineRead(joined, e);
    }
  }

  lemma ReadOption(a: string, b: string, rest: seq<string>, e: Entry)
    requires NoSpace(a) && NoSpace(b)
    ensures ReadEntries(["        " + (a + " " + b)] + rest, e, true) ==
            ReadEntries(rest, e.(options := e.options + [[a, b]]), true)
  {
    hide Words, NoSpace, ReadEntries;
    var line := "        " + (a + " " + b);
    TwoWordsRead(a, b);
    assert OPTION <= line && line[8..] == a + " " + b;
    assert line[0] == ' ' && line[4] == ' ' && TLS[4] == 't' && PROXY[4] == 'r';
    ReadInside(line, rest, e);
  }

  lemma ReadInnerEnd(rest: seq<string>, e: Entry)
    ensures ReadEntries(["    }"] + rest, e, true) == ReadEntries(rest, e, true)
  {
    hide Words;
    var line := "    }";
    assert |line| == 5 && line[4] == '}' && TLS[4] == 't' && PROXY[4] == 'r' && OPTION[4] == ' ';
    assert line[0] == ' ';
    ReadInside(line, rest, e);
  }

  lemma PolicyWords()
    ensures NoSpace("lb_policy") && NoSpace("weighted_round_robin")
    ensures "        lb_policy weighted_round_robin" == "        " + ("lb_policy" + " " + "weighted_round_robin")
  {
  }

  lemma UriWords()
    ensures NoSpace("health_uri") && NoSpace("/health")
    ensures "        health_uri /health" == "        " + ("health_uri" + " " + "/health")
  {
  }

  lemma IntervalWords()
    ensures NoSpace("health_interval") && NoSpace("10s")
    ensures "        health_interval 10s" == "        " + ("health_interval" + " " + "10s")
  {
  }

  /** The inner block gives back its options. */
  lemma ReadInner(r: RouteConfig, rest: seq<string>, e: Entry)
    requires |r.upstream| > 1 && e.options == []
    ensures ReadEntries(InnerTail(r) + rest, e, true) == ReadEntries(rest, e.(options := OptionsOf(r)), true)
  {
    hide ReadEntries, NoSpace;
    PolicyWords();
    UriWords();
    IntervalWords();
    var health := [["health_uri", "/health"], ["health_interval", "10s"]];
    var policy := if Weighted(r) then [["lb_policy", "weighted_round_robin"]] else [];
    assert OptionsOf(r) == policy + health;
    var u, i, end := ["        health_uri /health"], ["        health_interval 10s"], ["    }"];
    var e0 := e.(options := policy);
    var e1 := e.(options := policy + [["health_uri", "/health"]]);
    var e2 := e.(options := policy + [["health_uri", "/health"]] + [["health_interval", "10s"]]);
    assert policy + [["health_uri", "/health"]] + [["health_interval", "10s"]] == policy + health;
    var tail := u + (i + (end + rest));
    if Weighted(r) {
      assert InnerTail(r) + rest == ["        lb_policy weighted_round_robin"] + tail;
      ReadOption("lb_policy", "weighted_round_robin", tail, e);
      assert [] + [["lb_policy", "weighted_round_robin"]] == policy;
    } else {
      assert InnerTail(r) + rest == tail;
      assert e == e0;
    }
    ReadOption("health_uri", "/health", i + (end + rest), e0);
    ReadOption("health_interval", "10s", end + rest, e1);
    ReadInnerEnd(rest, e2);
  }

  lemma ReadProxy(r: RouteConfig, rest: seq<string>, e: Entry)
    requires PlainRoute(r) && (forall u <- r.upstream :: NoSpace(u.address)) && e.options == []
    ensures ReadEntries(ProxyLines(r) + rest, e, true) ==
            ReadEntries(rest, e.(addrs := Addresses(r.upstream), options := OptionsOf(r)), true)
  {
    hide ReadEntries, ReadLine, OptionsOf, Weighted, JoinSpace, PlainDomain, PlainTls, CleanLine, CLOSE_INNER;
    var addrs := Addresses(r.upstream);
    assert forall i :: 0 <= i < |addrs| ==> r.upstream[i] in r.upstream;
    if |r.upstream| > 1 {
      var open := "    reverse_proxy " + JoinSpace(addrs) + " {";
      assert ProxyLines(r) + rest == [open] + (InnerTail(r) + rest);
      ReadProxyLine(open, addrs, e);
      ReadInside(open, InnerTail(r) + rest, e);
      ReadInner(r, rest, e.(addrs := addrs));
    } else {
      assert addrs == [r.upstream[0].address];
      OneWordRead(r.upstream[0].address);
      ReadProxyLine(ProxyLines(r)[0], addrs, e);
      ReadInside(ProxyLines(r)[0], rest, e);
      NoOptions(r);
    }
  }

  lemma NoOptions(r: RouteConfig)
    requires |r.upstream| <= 1
    ensures OptionsOf(r) == []
  {
  }

  lemma ReadClosing(rest: seq<string>, e: Entry)
    ensures ReadEntries(["}"] + rest, e, true) == (if e.addrs == [] then [] else [e]) + ReadEntries(rest, e, false)
  {
    hide ReadLine;
    assert (["}"] + rest)[1..] == rest;
  }

  /** A printed block gives back everything that the format says of its route. */
  lemma ReadBlock(r: RouteConfig, rest: seq<string>, e: Entry)
    requires PlainRoute(r) && ReadableRoute(r)
    ensures ReadEntries(Block(r) + rest, e, false) == [EntryOf(r)] + ReadEntries(rest, EntryOf(r), false)
  {
    hide ReadEntries, ProxyLines, HeaderLine, TlsLines, PlainToken, PlainTls, PlainDomain, OptionsOf, NoSpace;
    var proxy := ProxyLines(r) + (["}"] + rest);
    assert Block(r) + rest == [HeaderLine(r)] + (TlsLines(r.tls) + proxy);
    ReadHeader(r, TlsLines(r.tls) + proxy, e);
    var named := Entry(r.domain, if r.tls.NoTls? then NoTls else Auto(""), [], []);
    ReadTls(r, proxy, named);
    ReadProxy(r, ["}"] + rest, named.(tls := r.tls));
    assert Addresses(r.upstream) != [];
    ReadClosing(rest, EntryOf(r));
  }

  /** A stripped block names a domain and serves nothing. */
  lemma ReadStripped(r: RouteConfig, rest: seq<string>, e: Entry)
    requires PlainRoute(r) && ReadableRoute(r)
    ensures ReadEntries(StrippedBlock(r) + rest, e, false) ==
            ReadEntries(rest, Entry(r.domain, r.tls, [], []), false)
  {
    hide ReadEntries, HeaderLine, TlsLines, PlainToken, PlainTls, PlainDomain, NoSpace;
    var named := Entry(r.domain, if r.tls.NoTls? then NoTls else Auto(""), [], []);
    assert StrippedBlock(r) + rest == [HeaderLine(r)] + (TlsLines(r.tls) + (["}"] + rest));
    ReadHeader(r, TlsLines(r.tls) + (["}"] + rest), e);
    ReadTls(r, ["}"] + rest, named);
    ReadClosing(rest, Entry(r.domain, r.tls, [], []));
    assert [] + ReadEntries(rest, Entry(r.domain, r.tls, [], []), false) ==
           ReadEntries(rest, Entry(r.domain, r.tls, [], []), false);
  }

  /** What a file with these routes says: all of them, but those of several upstreams once stripped. */
  function EntriesOf(routes: seq<RouteConfig>, stripped: bool): seq<Entry> {
    if routes == [] then []
    else
      (if stripped && |routes[0].upstream| > 1 then [] else [EntryOf(routes[0])]) +
      EntriesOf(routes[1..], stripped)
  }

  /** Reading the blocks of a file gives back its routes, in order. */
  lemma {:induction false} ReadBlocks(routes: seq<RouteConfig>, stripped: bool, e: Entry)
    requires PlainRoutes(routes) && Printable(routes) && Readable(routes)
    ensures ReadEntries(ShownAll(routes, stripped), e, false) == EntriesOf(routes, stripped)
    decreases |routes|
  {
    if routes != [] {
      hide ReadEntries, Block, StrippedBlock, PlainRoute, ReadableRoute, EntryOf;
      var first, rest := routes[0], routes[1..];
      assert PlainRoute(first) && first in routes;
      assert forall r <- rest :: r in routes;
      if stripped && |first.upstream| > 1 {
        ReadStripped(first, ShownAll(rest, stripped), e);
        ReadBlocks(rest, stripped, Entry(first.domain, first.tls, [], []));
      } else {
        ReadBlock(first, ShownAll(rest, stripped), e);
        ReadBlocks(rest, stripped, EntryOf(first));
      }
    } else {
      assert ShownAll(routes, stripped) == [];
    }
  }

  lemma {:induction false} EntriesMembers(routes: seq<RouteConfig>, stripped: bool, v: Entry)
    ensures v in EntriesOf(routes, stripped) <==>
              exists r :: r in routes && EntryOf(r) == v && !(stripped && |r.upstream| > 1)
  {
    if routes != [] {
      hide EntryOf;
      EntriesMembers(routes[1..], stripped, v);
      assert routes == [routes[0]] + routes[1..];
    }
  }

  /**
   * After any removals the Caddy text reads back as the routes not removed, in order, with their TLS
   * material, addresses and options; those of several upstreams are missing once `reverse_proxy` was
   * among the removed domains.
   */
  lemma CaddyReadsBack(routes: seq<RouteConfig>, domains: seq<string>)
    requires PlainRoutes(routes) && Printable(routes) && Readable(routes) && forall d <- domains :: PlainDomain(d)
    ensures CaddySites(RemovedAll(Unlines(RenderLines(routes)), domains)) ==
            EntriesOf(WithoutAll(routes, domains), PROXY_WORD in domains)
  {
    hide PlainRoute, PlainDomain, Holds, ReadableRoute, Blocks, ShownAll, RenderLines, Lines, NonBlank,
      ReadEntries, RemovedAll, Unlines, WithoutAll, EntriesOf;
    var rest := WithoutAll(routes, domains);
    WithoutAllMembers(routes, domains);
    WithoutAllPlain(routes, domains);
    RenderHolds(routes);
    RemovalRun(Unlines(RenderLines(routes)), routes, false, domains);
    HoldsLines(RemovedAll(Unlines(RenderLines(routes)), domains), rest, PROXY_WORD in domains);
    ReadBlocks(rest, PROXY_WORD in domains, NO_ENTRY);
  }

  // ---- Reading the Traefik maps ----

  datatype TlsKind = Plain | Automatic | Provided

  /** A router and its service: domain, kind of TLS, and servers with their weights in order. */
  datatype Service = Service(domain: string, kind: TlsKind, servers: seq<(string, nat)>)

  /** What the maps say of a route: no TLS material, and weights of 0 and 1 alike. */
  function ServiceOf(r: RouteConfig): Service {
    Service(
      r.domain,
      match r.tls
      case NoTls => Plain
      case Auto(_) => Automatic
      case Manual(_, _) => Provided,
      seq(|r.upstream|, i requires 0 <= i < |r.upstream| =>
        (r.upstream[i].address, if r.upstream[i].weight == 0 then 1 else r.upstream[i].weight)))
  }

  /** The server is this address with this weight; without a weight of its own it has weight 1. */
  predicate IsServer(server: Traefik.Server, v: (string, nat)) {
    server.url == "http://" + v.0 && v.1 == if server.weight.None? then 1 else server.weight.value
  }

  predicate IsRouter(router: Traefik.Router, v: Service) {
    && router.rule == "Host(`" + v.domain + "`)"
    && router.entryPoints == [if v.kind.Plain? then "web" else "websecure"]
    && match v.kind
       case Plain => router.tls == None
       case Automatic => router.tls == Some(Traefik.Tls(Some("letsencrypt")))
       case Provided => router.tls == Some(Traefik.Tls(None))
  }

  predicate IsBalancer(service: Traefik.Service, v: Service) {
    && |service.servers| == |v.servers|
    && (forall i :: 0 <= i < |v.servers| ==> IsServer(service.servers[i], v.servers[i]))
    && service.healthPath == "/health" && service.healthInterval == "10s"
  }

  /** The router under this key and its service make up `v`. */
  predicate RouterServes(c: Traefik.Config, key: string, v: Service) {
    && key == "nexa-" + Traefik.Sanitize(v.domain) && key in c.routers && IsRouter(c.routers[key], v)
    && c.routers[key].service == "nexa-svc-" + Traefik.Sanitize(v.domain)
    && c.routers[key].service in c.services && IsBalancer(c.services[c.routers[key].service], v)
  }

  ghost predicate TraefikServes(c: Traefik.Config, v: Service) {
    exists key :: RouterServes(c, key, v)
  }

  lemma PrefixInjective(a: string, b: string)
    ensures "http://" + a == "http://" + b <==> a == b
  {
    assert ("http://" + a)[7..] == a && ("http://" + b)[7..] == b;
  }

  lemma RuleInjective(a: string, b: string)
    ensures "Host(`" + a + "`)" == "Host(`" + b + "`)" <==> a == b
  {
    var x, y := "Host(`" + a + "`)", "Host(`" + b + "`)";
    assert x[6..|x| - 2] == a && y[6..|y| - 2] == b;
  }

  lemma RouterExact(r: RouteConfig, v: Service)
    ensures IsRouter(Traefik.RouterFor(r), v) <==> ServiceOf(r).domain == v.domain && ServiceOf(r).kind == v.kind
  {
    RuleInjective(r.domain, v.domain);
    assert |"web"| == 3 && |"websecure"| == 9;
    assert ["web"][0] != ["websecure"][0];
  }

  lemma BalancerExact(r: RouteConfig, v: Service)
    ensures IsBalancer(Traefik.ServiceFor(r), v) <==> ServiceOf(r).servers == v.servers
  {
    var service, own := Traefik.ServiceFor(r), ServiceOf(r).servers;
    forall i | 0 <= i < |own| && i < |v.servers|
      ensures IsServer(service.servers[i], v.servers[i]) <==> own[i] == v.servers[i]
    {
      PrefixInjective(r.upstream[i].address, v.servers[i].0);
      assert service.servers[i] == Traefik.ServerFor(r.upstream[i]);
    }
  }

  /** The router of a route makes up what the maps say of that route and nothing else. */
  lemma RouterSite(c: Traefik.Config, r: RouteConfig, v: Service)
    requires var n := Traefik.Sanitize(r.domain);
             && Traefik.RouterName(n) in c.routers && c.routers[Traefik.RouterName(n)] == Traefik.RouterFor(r)
             && Traefik.ServiceName(n) in c.services && c.services[Traefik.ServiceName(n)] == Traefik.ServiceFor(r)
    ensures RouterServes(c, Traefik.RouterName(Traefik.Sanitize(r.domain)), v) <==> ServiceOf(r) == v
  {
    RouterExact(r, v);
    BalancerExact(r, v);
    assert ServiceOf(r).domain == r.domain;
    hide IsRouter, IsBalancer, Traefik.ServiceFor, Traefik.Sanitize, ServiceOf;
  }

  /** The rendered maps serve `v` just when the last route of its sanitized name is of that kind. */
  lemma TraefikTable(routes: seq<RouteConfig>, v: Service)
    ensures var k := Traefik.LastIndex(routes, Traefik.Sanitize(v.domain));
            TraefikServes(Traefik.Rendered(routes), v) <==> 0 <= k && ServiceOf(routes[k]) == v
  {
    hide Traefik.Rendered, Traefik.ServiceFor, Traefik.RouterFor, Traefik.RouterName, Traefik.ServiceName,
      Traefik.Sanitize, RouterServes;
    var c := Traefik.Rendered(routes);
    var names := Traefik.RenderedClosed(routes);
    forall key | RouterServes(c, key, v)
      ensures var k := Traefik.LastIndex(routes, Traefik.Sanitize(v.domain));
              0 <= k && ServiceOf(routes[k]) == v
    {
      ServingKey(c, key, v);
      var n :| n in names && key == Traefik.RouterName(n);
      Traefik.LastWins(routes, n);
      var r := routes[Traefik.LastIndex(routes, n)];
      RouterSite(c, r, v);
    }
    var n := Traefik.Sanitize(v.domain);
    var k := Traefik.LastIndex(routes, n);
    if 0 <= k && ServiceOf(routes[k]) == v {
      Traefik.LastWins(routes, n);
      RouterSite(c, routes[k], v);
    }
  }

  lemma ServingKey(c: Traefik.Config, key: string, v: Service)
    requires RouterServes(c, key, v)
    ensures key in c.routers
  {
  }

  // ---- Reading the nexa-proxy map ----

  /** The map has this route, with its weights and its TLS material. */
  predicate NexaServes(m: NexaProxy.RouteMap, r: RouteConfig) {
    && r.domain in m && m[r.domain].upstreams == r.upstream
    && match r.tls
       case NoTls => m[r.domain].tls == None
       case Auto(email) => m[r.domain].tls == Some(NexaProxy.ProxyTls(None, None, Some(email)))
       case Manual(cert, key) => m[r.domain].tls == Some(NexaProxy.ProxyTls(Some(cert), Some(key), None))
  }

  /** The built map has a route just when it is the last one of its domain. */
  lemma {:induction false} NexaTable(routes: seq<RouteConfig>, r: RouteConfig)
    ensures var k := NexaProxy.LastIndex(routes, r.domain);
            NexaServes(NexaProxy.Built(routes), r) <==> 0 <= k && routes[k] == r
  {
    hide NexaProxy.Built;
    NexaProxy.LastWins(routes, r.domain);
  }

  // ---- Removals ----

  /** The routes that are left when Traefik removes by sanitized names. */
  function WithoutNames(routes: seq<RouteConfig>, domains: seq<string>): seq<RouteConfig>
    decreases |domains|
  {
    if domains == [] then routes
    else WithoutNames(Traefik.WithoutName(routes, Traefik.Sanitize(domains[0])), domains[1..])
  }

  predicate Spared(r: RouteConfig, domains: seq<string>) {
    forall d <- domains :: Traefik.Sanitize(r.domain) != Traefik.Sanitize(d)
  }

  lemma {:induction false} WithoutNameMembers(routes: seq<RouteConfig>, name: string)
    ensures forall r :: r in Traefik.WithoutName(routes, name) <==> r in routes && Traefik.Sanitize(r.domain) != name
  {
    if routes != [] {
      hide Traefik.Sanitize;
      var n := |routes| - 1;
      WithoutNameMembers(routes[..n], name);
      assert routes == routes[..n] + [routes[n]];
    }
  }

  lemma {:induction false} WithoutNamesMembers(routes: seq<RouteConfig>, domains: seq<string>)
    ensures forall r :: r in WithoutNames(routes, domains) <==> r in routes && Spared(r, domains)
    decreases |domains|
  {
    if domains != [] {
      hide Traefik.Sanitize;
      var d, rest := domains[0], domains[1..];
      assert domains == [d] + rest;
      WithoutNameMembers(routes, Traefik.Sanitize(d));
      WithoutNamesMembers(Traefik.WithoutName(routes, Traefik.Sanitize(d)), rest);
    }
  }

  function TraefikRemovedAll(c: Traefik.Config, domains: seq<string>): Traefik.Config
    decreases |domains|
  {
    if domains == [] then c else TraefikRemovedAll(Traefik.Removed(c, domains[0]), domains[1..])
  }

  function NexaRemovedAll(m: NexaProxy.RouteMap, domains: seq<string>): NexaProxy.RouteMap
    decreases |domains|
  {
    if domains == [] then m else NexaRemovedAll(m - {domains[0]}, domains[1..])
  }

  lemma {:induction false} MapsAfterRemovals(routes: seq<RouteConfig>, other: seq<RouteConfig>, domains: seq<string>)
    ensures TraefikRemovedAll(Traefik.Rendered(routes), domains) == Traefik.Rendered(WithoutNames(routes, domains))
    ensures NexaRemovedAll(NexaProxy.Built(other), domains) == NexaProxy.Built(WithoutAll(other, domains))
    decreases |domains|
  {
    hide Traefik.Rendered, NexaProxy.Built, Traefik.Removed, Traefik.Sanitize;
    if domains != [] {
      var d := domains[0];
      Traefik.RemoveRendered(routes, d);
      NexaProxy.RemoveBuilt(other, d);
      MapsAfterRemovals(Traefik.WithoutName(routes, Traefik.Sanitize(d)), Without(other, d), domains[1..]);
    }
  }

  // ---- When each backend serves the table ----

  /** Routes of one sanitized name are alike as far as Traefik can say. */
  predicate NamesTellServices(routes: seq<RouteConfig>) {
    forall r, s :: r in routes && s in routes && Traefik.Sanitize(r.domain) == Traefik.Sanitize(s.domain) ==>
      ServiceOf(r) == ServiceOf(s)
  }

  /** No domain has two different routes. */
  predicate DomainsTellRoutes(routes: seq<RouteConfig>) {
    forall r, s :: r in routes && s in routes && r.domain == s.domain ==> r == s
  }

  /** The Caddy text says exactly what it can say of the routes not removed. */
  ghost predicate CaddyAgrees(routes: seq<RouteConfig>, domains: seq<string>)
    requires Printable(routes)
  {
    forall v ::
      v in CaddySites(RemovedAll(Unlines(RenderLines(routes)), domains)) <==>
      exists r :: r in WithoutAll(routes, domains) && EntryOf(r) == v
  }

  ghost predicate HasService(routes: seq<RouteConfig>, v: Service) {
    exists r :: r in routes && ServiceOf(r) == v
  }

  /** The Traefik maps serve exactly what they can say of the routes not removed. */
  ghost predicate TraefikAgrees(routes: seq<RouteConfig>, domains: seq<string>) {
    forall v ::
      TraefikServes(TraefikRemovedAll(Traefik.Rendered(routes), domains), v) <==>
      HasService(WithoutAll(routes, domains), v)
  }

  /** The nexa-proxy map has exactly the routes not removed. */
  ghost predicate NexaAgrees(routes: seq<RouteConfig>, domains: seq<string>) {
    forall r ::
      NexaServes(NexaRemovedAll(NexaProxy.Built(routes), domains), r) <==> r in WithoutAll(routes, domains)
  }

  /** The Caddy text serves the table exactly when no removal stripped a route that is left. */
  lemma CaddyAgreesExactly(routes: seq<RouteConfig>, domains: seq<string>)
    requires PlainRoutes(routes) && Printable(routes) && Readable(routes) && forall d <- domains :: PlainDomain(d)
    ensures CaddyAgrees(routes, domains) <==>
              PROXY_WORD !in domains || SingleUpstreams(WithoutAll(routes, domains))
  {
    hide PlainRoute, PlainDomain, CaddySites, WithoutAll, RemovedAll, RenderLines, Unlines, ReadableRoute, EntriesOf,
      OptionsOf;
    var rest, stripped := WithoutAll(routes, domains), PROXY_WORD in domains;
    CaddyReadsBack(routes, domains);
    forall v: Entry
      ensures v in EntriesOf(rest, stripped) <==>
                exists r :: r in rest && EntryOf(r) == v && !(stripped && |r.upstream| > 1)
    {
      EntriesMembers(rest, stripped, v);
    }
    forall r, s | EntryOf(r) == EntryOf(s)
      ensures |r.upstream| == |s.upstream|
    {
      assert |EntryOf(r).addrs| == |r.upstream| && |EntryOf(s).addrs| == |s.upstream|;
    }
    forall i | 0 <= i < |rest|
      ensures rest[i] in rest
    {
    }
    if CaddyAgrees(routes, domains) && stripped {
      forall i | 0 <= i < |rest|
        ensures |rest[i].upstream| <= 1
      {
        assert EntryOf(rest[i]) in EntriesOf(rest, stripped);
      }
    }
  }

  /**
   * The Traefik maps serve the table exactly when no route left shares its sanitized name with a
   * removed domain and routes of one sanitized name are alike.
   */
  lemma TraefikAgreesExactly(routes: seq<RouteConfig>, domains: seq<string>)
    ensures var rest := WithoutAll(routes, domains);
            TraefikAgrees(routes, domains) <==> (forall r <- rest :: Spared(r, domains)) && NamesTellServices(rest)
  {
    hide Traefik.Sanitize, TraefikServes, WithoutAll, WithoutNames, TraefikRemovedAll, Traefik.Rendered;
    var rest, kept := WithoutAll(routes, domains), WithoutNames(routes, domains);
    WithoutAllMembers(routes, domains);
    WithoutNamesMembers(routes, domains);
    MapsAfterRemovals(routes, routes, domains);
    var c := Traefik.Rendered(kept);
    forall v: Service
      ensures var k := Traefik.LastIndex(kept, Traefik.Sanitize(v.domain));
              TraefikServes(c, v) <==> 0 <= k && ServiceOf(kept[k]) == v
    {
      TraefikTable(kept, v);
    }
    KeptInRest(kept, rest, domains);
    if TraefikAgrees(routes, domains) {
      forall r | r in rest
        ensures TraefikServes(c, ServiceOf(r))
      {
        assert HasService(rest, ServiceOf(r));
      }
      AgreeingNames(kept, rest, domains);
    }
    if (forall r <- rest :: Spared(r, domains)) && NamesTellServices(rest) {
      forall r | r in rest
        ensures TraefikServes(c, ServiceOf(r))
      {
        LastOfName(kept, r);
      }
    }
  }

  lemma KeptInRest(kept: seq<RouteConfig>, rest: seq<RouteConfig>, domains: seq<string>)
    requires forall r <- kept :: r.domain !in domains ==> r in rest
    requires forall r <- kept :: Spared(r, domains)
    ensures forall r <- kept :: r in rest
  {
    hide Traefik.Sanitize;
  }

  lemma LastOfName(kept: seq<RouteConfig>, r: RouteConfig)
    requires r in kept
    ensures var k := Traefik.LastIndex(kept, Traefik.Sanitize(r.domain));
            0 <= k && kept[k] in kept && Traefik.Sanitize(kept[k].domain) == Traefik.Sanitize(r.domain)
  {
    hide Traefik.Sanitize;
    var i :| 0 <= i < |kept| && kept[i] == r;
  }

  lemma AgreeingNames(kept: seq<RouteConfig>, rest: seq<RouteConfig>, domains: seq<string>)
    requires forall r <- kept :: Spared(r, domains)
    requires forall r <- rest ::
               var k := Traefik.LastIndex(kept, Traefik.Sanitize(r.domain));
               0 <= k && ServiceOf(kept[k]) == ServiceOf(r)
    ensures (forall r <- rest :: Spared(r, domains)) && NamesTellServices(rest)
  {
    hide Traefik.Sanitize;
    forall r | r in rest
      ensures Spared(r, domains)
    {
      var k := Traefik.LastIndex(kept, Traefik.Sanitize(r.domain));
      assert kept[k] in kept && kept[k].domain == r.domain;
    }
  }

  /** Sanitized names do collide: of `a.b` and `a-b` Traefik serves the later one only. */
  lemma CollisionExample()
    ensures var first, second := RouteConfig("a.b", [Upstream("x", 1)], NoTls), RouteConfig("a-b", [Upstream("y", 1)], NoTls);
            !TraefikAgrees([first, second], []) && NexaAgrees([first, second], [])
  {
    hide TraefikAgrees, NexaAgrees;
    var first, second := RouteConfig("a.b", [Upstream("x", 1)], NoTls), RouteConfig("a-b", [Upstream("y", 1)], NoTls);
    var routes := [first, second];
    assert first.domain[1] == '.' && second.domain[1] == '-';
    assert Traefik.Sanitize(first.domain) == Traefik.Sanitize(second.domain);
    assert first in routes && second in routes && ServiceOf(first) != ServiceOf(second);
    TraefikAgreesExactly(routes, []);
    NexaAgreesExactly(routes, []);
  }

  /** And a removal takes a route of another domain with the same sanitized name. */
  lemma RemovalCollisionExample()
    ensures var r := RouteConfig("a.b", [Upstream("x", 1)], NoTls);
            !TraefikAgrees([r], ["a-b"]) && NexaAgrees([r], ["a-b"])
  {
    hide TraefikAgrees, NexaAgrees;
    var r := RouteConfig("a.b", [Upstream("x", 1)], NoTls);
    var domains := ["a-b"];
    assert r.domain[1] == '.' && domains[0][1] == '-';
    assert Traefik.Sanitize(r.domain) == Traefik.Sanitize(domains[0]);
    var rest := WithoutAll([r], domains);
    WithoutAllMembers([r], domains);
    assert r in rest && !Spared(r, domains);
    TraefikAgreesExactly([r], domains);
    NexaAgreesExactly([r], domains);
  }

  /** The nexa-proxy map serves the table exactly when no domain has two different routes. */
  lemma NexaAgreesExactly(routes: seq<RouteConfig>, domains: seq<string>)
    ensures NexaAgrees(routes, domains) <==> DomainsTellRoutes(WithoutAll(routes, domains))
  {
    hide NexaServes, WithoutAll, NexaRemovedAll, NexaProxy.Built, Traefik.Rendered, TraefikRemovedAll, WithoutNames;
    var rest := WithoutAll(routes, domains);
    MapsAfterRemovals(routes, routes, domains);
    var m := NexaProxy.Built(rest);
    forall r: RouteConfig
      ensures var k := NexaProxy.LastIndex(rest, r.domain);
              NexaServes(m, r) <==> 0 <= k && rest[k] == r
    {
      NexaTable(rest, r);
    }
    forall r | r in rest
      ensures var k := NexaProxy.LastIndex(rest, r.domain); 0 <= k && rest[k] in rest && rest[k].domain == r.domain
    {
      var i :| 0 <= i < |rest| && rest[i] == r;
    }
  }

  /**
   * After the same routes and the same removals, each of the three backends serves exactly the routes
   * not removed, as far as its format can say (Caddy and nexa-proxy with the TLS material, Traefik and
   * nexa-proxy with the weights), if and only if no removal of `reverse_proxy` stripped one of them,
   * none of them shares its sanitized name with a removed domain, one sanitized name means one Traefik
   * service and one domain means one route.
   */
  lemma BackendsAgree(routes: seq<RouteConfig>, domains: seq<string>)
    requires PlainRoutes(routes) && Printable(routes) && Readable(routes) && forall d <- domains :: PlainDomain(d)
    ensures var rest := WithoutAll(routes, domains);
            CaddyAgrees(routes, domains) && TraefikAgrees(routes, domains) && NexaAgrees(routes, domains) <==>
              && (PROXY_WORD !in domains || SingleUpstreams(rest))
              && (forall r <- rest :: Spared(r, domains))
              && NamesTellServices(rest) && DomainsTellRoutes(rest)
  {
    hide PlainRoute, PlainDomain, CaddyAgrees, TraefikAgrees, NexaAgrees, WithoutAll, ReadableRoute, SingleUpstreams,
      Traefik.Sanitize;
    CaddyAgreesExactly(routes, domains);
    TraefikAgreesExactly(routes, domains);
    NexaAgreesExactly(routes, domains);
  }

  // ---- One table ----

  /** What all three formats say of a route: the domain, whether it has TLS, and the addresses in order. */
  datatype Site = Site(domain: string, secure: bool, addrs: seq<string>)

  function SiteOf(r: RouteConfig): Site {
    Site(r.domain, !r.tls.NoTls?, Addresses(r.upstream))
  }

  ghost predicate CaddyServesSite(content: string, site: Site) {
    exists v :: v in CaddySites(content) && Site(v.domain, !v.tls.NoTls?, v.addrs) == site
  }

  function ServerAddresses(v: Service): seq<string> {
    seq(|v.servers|, i requires 0 <= i < |v.servers| => v.servers[i].0)
  }

  ghost predicate TraefikServesSite(c: Traefik.Config, site: Site) {
    exists v :: TraefikServes(c, v) && Site(v.domain, !v.kind.Plain?, ServerAddresses(v)) == site
  }

  ghost predicate NexaServesSite(m: NexaProxy.RouteMap, site: Site) {
    exists r :: NexaServes(m, r) && SiteOf(r) == site
  }

  ghost predicate TableHasSite(routes: seq<RouteConfig>, site: Site) {
    exists r :: r in routes && SiteOf(r) == site
  }

  lemma ServiceSite(r: RouteConfig)
    ensures var v := ServiceOf(r); Site(v.domain, !v.kind.Plain?, ServerAddresses(v)) == SiteOf(r)
  {
    assert ServerAddresses(ServiceOf(r)) == Addresses(r.upstream);
  }

  /** Backends that agree with the table serve the same domains with the same ordered addresses. */
  lemma SameSites(routes: seq<RouteConfig>, domains: seq<string>, site: Site)
    requires Printable(routes)
    requires CaddyAgrees(routes, domains) && TraefikAgrees(routes, domains) && NexaAgrees(routes, domains)
    ensures var table := TableHasSite(WithoutAll(routes, domains), site);
            && CaddyServesSite(RemovedAll(Unlines(RenderLines(routes)), domains), site) == table
            && TraefikServesSite(TraefikRemovedAll(Traefik.Rendered(routes), domains), site) == table
            && NexaServesSite(NexaRemovedAll(NexaProxy.Built(routes), domains), site) == table
  {
    hide CaddySites, RemovedAll, RenderLines, Unlines, TraefikServes, TraefikRemovedAll, Traefik.Rendered, NexaServes,
      NexaRemovedAll, NexaProxy.Built, WithoutAll, ServiceOf, OptionsOf, ServerAddresses;
    var rest := WithoutAll(routes, domains);
    forall r: RouteConfig {
      ServiceSite(r);
    }
    if r :| r in rest && SiteOf(r) == site {
      assert EntryOf(r) in CaddySites(RemovedAll(Unlines(RenderLines(routes)), domains));
      assert HasService(rest, ServiceOf(r));
    }
  }
}
