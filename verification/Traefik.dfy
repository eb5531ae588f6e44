/**
 * The Traefik backend: two keyed maps, one of routers and one of the services they point at.
 */
module Traefik {
  import opened Wrappers
  import opened Routes

  datatype Tls = Tls(certResolver: Option<string>)
  datatype Router = Router(rule: string, entryPoints: seq<string>, service: string, tls: Option<Tls>)
  datatype Server = Server(url: string, weight: Option<nat>)
  datatype Service = Service(servers: seq<Server>, healthPath: string, healthInterval: string)
  datatype Config = Config(routers: map<string, Router>, services: map<string, Service>)

  /** `replace('.', "-")`. */
  function Sanitize(domain: string): (r: string)
    ensures |r| == |domain|
    ensures forall i :: 0 <= i < |domain| ==> r[i] == if domain[i] == '.' then '-' else domain[i]
  {
    seq(|domain|, i requires 0 <= i < |domain| => if domain[i] == '.' then '-' else domain[i])
  }

  function RouterName(sanitized: string): string {
    "nexa-" + sanitized
  }

  function ServiceName(sanitized: string): string {
    "nexa-svc-" + sanitized
  }

  function RouterFor(r: RouteConfig): Router {
    Router(
      "Host(`" + r.domain + "`)",
      if r.tls.NoTls? then ["web"] else ["websecure"],
      ServiceName(Sanitize(r.domain)),
      match r.tls
      case NoTls => None
      case Auto(_) => Some(Tls(Some("letsencrypt")))
      case Manual(_, _) => Some(Tls(None)))
  }

  function ServerFor(u: Upstream): Server {
    Server("http://" + u.address, if u.weight > 1 then Some(u.weight) else None)
  }

  function ServiceFor(r: RouteConfig): Service {
    Service(
      seq(|r.upstream|, i requires 0 <= i < |r.upstream| => ServerFor(r.upstream[i])),
      "/health", "10s")
  }

  const EMPTY: Config := Config(map[], map[])

  function Insert(c: Config, r: RouteConfig): Config {
    var name := Sanitize(r.domain);
    Config(c.routers[RouterName(name) := RouterFor(r)], c.services[ServiceName(name) := ServiceFor(r)])
  }

  function Rendered(routes: seq<RouteConfig>): Config {
    if routes == [] then EMPTY
    else Insert(Rendered(routes[..|routes| - 1]), routes[|routes| - 1])
  }

  function Removed(c: Config, domain: string): Config {
    var name := Sanitize(domain);
    Config(c.routers - {RouterName(name)}, c.services - {ServiceName(name)})
  }

  method RenderServers(upstream: seq<Upstream>) returns (servers: seq<Server>)
    ensures |servers| == |upstream|
    ensures forall i :: 0 <= i < |upstream| ==> servers[i] == ServerFor(upstream[i])
  {
    servers := [];
    for i := 0 to |upstream|
      invariant |servers| == i
      invariant forall j :: 0 <= j < i ==> servers[j] == ServerFor(upstream[j])
    {
      var u := upstream[i];
      servers := servers + [Server("http://" + u.address, if u.weight > 1 then Some(u.weight) else None)];
    }
  }

  method RenderConfig(routes: seq<RouteConfig>) returns (config: Config)
    ensures config == Rendered(routes)
  {
    config := EMPTY;
    for i := 0 to |routes|
      invariant config == Rendered(routes[..i])
    {
      var route := routes[i];
      var sanitized := Sanitize(route.domain);
      var routerName, serviceName := "nexa-" + sanitized, "nexa-svc-" + sanitized;
      var entryPoints, tls;
      match route.tls {
        case NoTls => entryPoints, tls := ["web"], None;
        case Auto(_) => entryPoints, tls := ["websecure"], Some(Tls(Some("letsencrypt")));
        case Manual(_, _) => entryPoints, tls := ["websecure"], Some(Tls(None));
      }
      var router := Router("Host(`" + route.domain + "`)", entryPoints, serviceName, tls);
      var servers := RenderServers(route.upstream);
      var service := Service(servers, "/health", "10s");
      assert router == RouterFor(route) && service == ServiceFor(route);
      config := config.(routers := config.routers[routerName := router]);
      config := config.(services := config.services[serviceName := service]);
      assert routes[..i + 1][..i] == routes[..i];
    }
    assert routes[..|routes|] == routes;
  }

  /** The backend and its configuration file; serialisation is taken to be lossless. */
  class TraefikBackend {
    var file: Option<Config>

    constructor ()
      ensures file == None
    {
      file := None;
    }

    method ApplyRoutes(routes: seq<RouteConfig>)
      modifies this
      ensures file == Stepped(old(file), Apply(routes))
    {
      var config := RenderConfig(routes);
      file := Some(config);
    }

    method RemoveRoute(domain: string)
      modifies this
      ensures file == Stepped(old(file), Remove(domain))
    {
      if file.None? {
        return;
      }
      var sanitized := Sanitize(domain);
      var config := file.value;
      config := config.(routers := config.routers - {RouterName(sanitized)});
      config := config.(services := config.services - {ServiceName(sanitized)});
      file := Some(config);
    }
  }

  // ---- Last registration wins ----

  /** The index of the last route with this sanitized name, or -1. */
  function LastIndex(routes: seq<RouteConfig>, name: string): (k: int)
    ensures -1 <= k < |routes|
    ensures 0 <= k ==> Sanitize(routes[k].domain) == name
    ensures forall i :: k < i < |routes| ==> Sanitize(routes[i].domain) != name
  {
    if routes == [] then -1
    else
      var n := |routes| - 1;
      if Sanitize(routes[n].domain) == name then n else LastIndex(routes[..n], name)
  }

  lemma NamesInjective(a: string, b: string)
    ensures RouterName(a) == RouterName(b) <==> a == b
    ensures ServiceName(a) == ServiceName(b) <==> a == b
  {
    assert RouterName(a)[5..] == a && RouterName(b)[5..] == b;
    assert ServiceName(a)[9..] == a && ServiceName(b)[9..] == b;
  }

  /** Each sanitized name holds the router and the service of the last route that has it. */
  lemma {:induction false} LastWins(routes: seq<RouteConfig>, name: string)
    ensures var k, c := LastIndex(routes, name), Rendered(routes);
            && (RouterName(name) in c.routers <==> 0 <= k)
            && (ServiceName(name) in c.services <==> 0 <= k)
            && (0 <= k ==> c.routers[RouterName(name)] == RouterFor(routes[k]))
            && (0 <= k ==> c.services[ServiceName(name)] == ServiceFor(routes[k]))
  {
    hide RouterFor, ServiceFor, RouterName, ServiceName;
    if routes != [] {
      var n := |routes| - 1;
      LastWins(routes[..n], name);
      NamesInjective(name, Sanitize(routes[n].domain));
    }
  }

  // ---- Removing is rendering without ----

  function WithoutName(routes: seq<RouteConfig>, name: string): seq<RouteConfig> {
    if routes == [] then []
    else
      var n := |routes| - 1;
      WithoutName(routes[..n], name) + if Sanitize(routes[n].domain) == name then [] else [routes[n]]
  }

  lemma {:induction false} RemoveRendered(routes: seq<RouteConfig>, domain: string)
    ensures Removed(Rendered(routes), domain) == Rendered(WithoutName(routes, Sanitize(domain)))
  {
    hide RouterFor, ServiceFor, RouterName, ServiceName, Sanitize;
    if routes != [] {
      var name := Sanitize(domain);
      var n := |routes| - 1;
      var init, last := routes[..n], routes[n];
      var kept := WithoutName(init, name);
      RemoveRendered(init, domain);
      NamesInjective(name, Sanitize(last.domain));
      RemoveInserted(Rendered(init), last, domain);
      if Sanitize(last.domain) == name {
        assert kept + [] == kept;
      } else {
        assert (kept + [last])[..|kept|] == kept;
      }
    }
  }

  lemma RemoveInserted(c: Config, r: RouteConfig, domain: string)
    ensures Removed(Insert(c, r), domain) ==
            if Sanitize(r.domain) == Sanitize(domain) then Removed(c, domain)
            else Insert(Removed(c, domain), r)
  {
    hide RouterFor, ServiceFor, RouterName, ServiceName, Sanitize;
    NamesInjective(Sanitize(r.domain), Sanitize(domain));
    var x, y := Removed(Insert(c, r), domain),
      if Sanitize(r.domain) == Sanitize(domain) then Removed(c, domain) else Insert(Removed(c, domain), r);
    assert x.routers == y.routers;
    assert x.services == y.services;
  }

  // ---- Runs ----

  datatype Event = Apply(routes: seq<RouteConfig>) | Remove(domain: string)

  function Stepped(file: Option<Config>, e: Event): Option<Config> {
    match e
    case Apply(routes) => Some(Rendered(routes))
    case Remove(domain) => if file.None? then None else Some(Removed(file.value, domain))
  }

  function Run(events: seq<Event>): Option<Config> {
    if events == [] then None
    else Stepped(Run(events[..|events| - 1]), events[|events| - 1])
  }

  /** Routers and services correspond one to one, and every router's service exists. */
  predicate Closed(c: Config, names: set<string>) {
    && c.routers.Keys == (set n | n in names :: RouterName(n))
    && c.services.Keys == (set n | n in names :: ServiceName(n))
    && forall n :: n in names ==> RouterName(n) in c.routers && c.routers[RouterName(n)].service == ServiceName(n)
  }

  lemma InsertClosed(c: Config, names: set<string>, r: RouteConfig)
    requires Closed(c, names)
    ensures Closed(Insert(c, r), names + {Sanitize(r.domain)})
  {
    hide RouterName, ServiceName, Sanitize;
    var name := Sanitize(r.domain);
    forall n {
      NamesInjective(n, name);
    }
  }

  lemma RemoveClosed(c: Config, names: set<string>, domain: string)
    requires Closed(c, names)
    ensures Closed(Removed(c, domain), names - {Sanitize(domain)})
  {
    hide RouterName, ServiceName, Sanitize;
    var name := Sanitize(domain);
    forall n {
      NamesInjective(n, name);
    }
  }

  lemma {:induction false} RenderedClosed(routes: seq<RouteConfig>) returns (names: set<string>)
    ensures Closed(Rendered(routes), names)
  {
    if routes == [] {
      names := {};
    } else {
      var n := |routes| - 1;
      names := RenderedClosed(routes[..n]);
      InsertClosed(Rendered(routes[..n]), names, routes[n]);
      names := names + {Sanitize(routes[n].domain)};
    }
  }

  /** After any sequence of applies and removals no reference dangles and no service is orphaned. */
  lemma {:induction false} RunClosed(events: seq<Event>) returns (names: set<string>)
    ensures Run(events).Some? ==> Closed(Run(events).value, names)
  {
    hide Closed, Rendered, Removed, Sanitize;
    names := {};
    if events != [] {
      var n := |events| - 1;
      match events[n]
      case Apply(routes) =>
        names := RenderedClosed(routes);
      case Remove(domain) =>
        names := RunClosed(events[..n]);
        if Run(events[..n]).Some? {
          RemoveClosed(Run(events[..n]).value, names, domain);
          names := names - {Sanitize(domain)};
        }
    }
  }
}
