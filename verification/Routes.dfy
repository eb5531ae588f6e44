/** The routes that the proxy backends are given. */
module Routes {
  datatype TlsConfig = NoTls | Auto(email: string) | Manual(cert: string, key: string)
  datatype Upstream = Upstream(address: string, weight: nat)
  datatype RouteConfig = RouteConfig(domain: string, upstream: seq<Upstream>, tls: TlsConfig)

  function Addresses(upstream: seq<Upstream>): (r: seq<string>)
    ensures |r| == |upstream|
    ensures forall i :: 0 <= i < |upstream| ==> r[i] == upstream[i].address
  {
    seq(|upstream|, i requires 0 <= i < |upstream| => upstream[i].address)
  }

  /** The routes of all other domains. */
  function Without(routes: seq<RouteConfig>, domain: string): seq<RouteConfig> {
    if routes == [] then []
    else (if routes[0].domain == domain then [] else [routes[0]]) + Without(routes[1..], domain)
  }

  function WithoutAll(routes: seq<RouteConfig>, domains: seq<string>): seq<RouteConfig>
    decreases |domains|
  {
    if domains == [] then routes else WithoutAll(Without(routes, domains[0]), domains[1..])
  }

  lemma {:induction false} WithoutMembers(routes: seq<RouteConfig>, domain: string)
    ensures forall r :: r in Without(routes, domain) <==> r in routes && r.domain != domain
  {
    if routes != [] {
      WithoutMembers(routes[1..], domain);
      assert routes == [routes[0]] + routes[1..];
    }
  }

  lemma {:induction false} WithoutAllMembers(routes: seq<RouteConfig>, domains: seq<string>)
    ensures forall r :: r in WithoutAll(routes, domains) <==> r in routes && r.domain !in domains
    decreases |domains|
  {
    if domains != [] {
      WithoutMembers(routes, domains[0]);
      WithoutAllMembers(Without(routes, domains[0]), domains[1..]);
      assert domains == [domains[0]] + domains[1..];
    }
  }
}
