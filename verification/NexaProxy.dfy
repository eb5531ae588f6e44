/**
 * The nexa-proxy backend: one map from domain to upstreams and TLS settings.
 */
module NexaProxy {
  import opened Wrappers
  import opened Routes

  datatype ProxyTls = ProxyTls(certPath: Option<string>, keyPath: Option<string>, acmeEmail: Option<string>)
  datatype ProxyRoute = ProxyRoute(upstreams: seq<Upstream>, tls: Option<ProxyTls>)

  type RouteMap = map<string, ProxyRoute>

  function RouteFor(r: RouteConfig): ProxyRoute {
    ProxyRoute(
      r.upstream,
      match r.tls
      case NoTls => None
      case Auto(email) => Some(ProxyTls(None, None, Some(email)))
      case Manual(cert, key) => Some(ProxyTls(Some(cert), Some(key), None)))
  }

  function Built(routes: seq<RouteConfig>): RouteMap {
    if routes == [] then map[]
    else
      var n := |routes| - 1;
      Built(routes[..n])[routes[n].domain := RouteFor(routes[n])]
  }

  method BuildConfig(routes: seq<RouteConfig>) returns (routeMap: RouteMap)
    ensures routeMap == Built(routes)
  {
    routeMap := map[];
    for i := 0 to |routes|
      invariant routeMap == Built(routes[..i])
    {
      var route := routes[i];
      var tls;
      match route.tls {
        case NoTls => tls := None;
        case Auto(email) => tls := Some(ProxyTls(None, None, Some(email)));
        case Manual(cert, key) => tls := Some(ProxyTls(Some(cert), Some(key), None));
      }
      routeMap := routeMap[route.domain := ProxyRoute(route.upstream, tls)];
      assert routes[..i + 1][..i] == routes[..i];
    }
    assert routes[..|routes|] == routes;
  }

  class NexaProxyBackend {
    var file: Option<RouteMap>

    constructor ()
      ensures file == None
    {
      file := None;
    }

    method ApplyRoutes(routes: seq<RouteConfig>)
      modifies this
      ensures file == Some(Built(routes))
    {
      var config := BuildConfig(routes);
      file := Some(config);
    }

    method RemoveRoute(domain: string)
      modifies this
      ensures file == if old(file).None? then None else Some(old(file).value - {domain})
    {
      if file.Some? {
        file := Some(file.value - {domain});
      }
    }
  }

  /** The index of the last route of a domain, or -1. */
  function LastIndex(routes: seq<RouteConfig>, domain: string): (k: int)
    ensures -1 <= k < |routes|
    ensures 0 <= k ==> routes[k].domain == domain
    ensures forall i :: k < i < |routes| ==> routes[i].domain != domain
  {
    if routes == [] then -1
    else
      var n := |routes| - 1;
      if routes[n].domain == domain then n else LastIndex(routes[..n], domain)
  }

  /** Each domain holds the upstreams and TLS settings of the last route that has it. */
  lemma {:induction false} LastWins(routes: seq<RouteConfig>, domain: string)
    ensures var k := LastIndex(routes, domain);
            && (domain in Built(routes) <==> 0 <= k)
            && (0 <= k ==> Built(routes)[domain] == RouteFor(routes[k]))
  {
    if routes != [] {
      LastWins(routes[..|routes| - 1], domain);
    }
  }

  lemma {:induction false} WithoutAppend(a: seq<RouteConfig>, r: RouteConfig, domain: string)
    ensures Without(a + [r], domain) == Without(a, domain) + if r.domain == domain then [] else [r]
  {
    if a != [] {
      assert (a + [r])[1..] == a[1..] + [r];
      WithoutAppend(a[1..], r, domain);
    }
  }

  lemma BuiltAppend(routes: seq<RouteConfig>, r: RouteConfig)
    ensures Built(routes + [r]) == Built(routes)[r.domain := RouteFor(r)]
  {
    assert (routes + [r])[..|routes|] == routes;
  }

  lemma RemoveUpdated(m: RouteMap, key: string, value: ProxyRoute, domain: string)
    ensures m[key := value] - {domain} ==
            if key == domain then m - {domain} else (m - {domain})[key := value]
  {
  }

  /** Removing a domain from the built map is building without its routes. */
  lemma {:induction false} RemoveBuilt(routes: seq<RouteConfig>, domain: string)
    ensures Built(routes) - {domain} == Built(Without(routes, domain))
  {
    if routes != [] {
      hide RouteFor, Built, Without;
      var n := |routes| - 1;
      var init, last := routes[..n], routes[n];
      RemoveBuilt(init, domain);
      assert routes == init + [last];
      WithoutAppend(init, last, domain);
      BuiltAppend(init, last);
      BuiltAppend(Without(init, domain), last);
      RemoveUpdated(Built(init), last.domain, RouteFor(last), domain);
      assert Without(init, domain) + [] == Without(init, domain);
    }
  }
}
