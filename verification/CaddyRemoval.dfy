/**
 * Removing after printing equals printing without: what the scanner of the Caddy backend does to
 * the text that the printer of the same backend wrote.
 */
module CaddyRemoval {
  import opened Strings
  import opened Routes
  import opened Caddy

  // ---- The tokens for which the format is unambiguous ----

  predicate NoWhitespace(s: string) {
    forall i :: 0 <= i < |s| ==> !IsWhitespace(s[i])
  }

  /** A word without a scheme in front. */
  predicate PlainDomain(d: string) {
    NoWhitespace(d) && !("http://" <= d) && !("https://" <= d)
  }

  /** No braces and no line breaks. */
  predicate PlainToken(s: string) {
    CleanLine(s) && '{' !in s && '}' !in s
  }

  predicate PlainTls(tls: TlsConfig) {
    match tls
    case NoTls => true
    case Auto(email) => PlainToken(email)
    case Manual(cert, key) => PlainToken(cert) && PlainToken(key)
  }

  predicate PlainRoute(r: RouteConfig) {
    && r.domain != "" && PlainDomain(r.domain) && PlainTls(r.tls)
    && |r.upstream| > 0
    && forall i :: 0 <= i < |r.upstream| ==> PlainToken(r.upstream[i].address)
  }

  predicate PlainRoutes(routes: seq<RouteConfig>) {
    forall i :: 0 <= i < |routes| ==> PlainRoute(routes[i])
  }

  // ---- Which lines of a block open a removal ----

  lemma NoWhitespaceNoSpace(s: string)
    requires NoWhitespace(s)
    ensures NoSpace(s) && CleanLine(s)
  {
    assert IsWhitespace(' ') && IsWhitespace('\n') && IsWhitespace('\r');
  }

  lemma DomainLineWord(w: string, rest: string, d: string)
    requires NoSpace(w) && NoSpace(d)
    ensures IsDomainLine(w + " " + rest, d) <==> w == d || w == "http://" + d || w == "https://" + d
  {
    var line := w + " " + rest;
    WordPrefix(d, w, rest);
    WordPrefix("http://" + d, w, rest);
    WordPrefix("https://" + d, w, rest);
    assert line[|w|] == ' ';
    assert ' ' in line;
  }

  /** A line of one word opens a removal just when it ends in a brace and is the domain or its URL. */
  lemma OneWordOpens(w: string, d: string)
    requires NoWhitespace(w) && w != ""
    ensures Opens(w, d) <==>
              w[|w| - 1] == '{' && (w == d || w == "http://" + d || w == "https://" + d)
  {
    NoWhitespaceNoSpace(w);
    assert !IsWhitespace(w[0]) && !IsWhitespace(w[|w| - 1]);
    TrimIndented(w);
    SpaceInPrefix(w, d);
    SpaceInPrefix(w, "http://" + d);
    SpaceInPrefix(w, "https://" + d);
  }

  lemma SpaceInPrefix(w: string, d: string)
    ensures d + " " <= w ==> ' ' in w
  {
    if d + " " <= w {
      assert w[|d|] == (d + " ")[|d|];
    }
  }

  /** A header opens a removal just when the domain is its own. */
  lemma HeaderOpens(r: RouteConfig, d: string)
    requires r.domain != "" && PlainDomain(r.domain) && PlainDomain(d)
    ensures Opens(HeaderLine(r), d) <==> r.domain == d
  {
    var w := if r.tls.NoTls? then "http://" + r.domain else r.domain;
    var line := HeaderLine(r);
    NoWhitespaceNoSpace(r.domain);
    NoWhitespaceNoSpace(d);
    assert line == w + " " + "{";
    assert !IsWhitespace(w[0]);
    TrimIndented(line);
    DomainLineWord(w, "{", d);
    assert "http://" <= "http://" + d && "https://" <= "https://" + d;
    assert w == "http://" + d && r.tls.NoTls? ==> w[7..] == r.domain && w[7..] == d;
    assert ("http://" + r.domain)[4] == ':' && ("https://" + d)[4] == 's';
    assert w == d && r.tls.NoTls? ==> "http://" <= d;
  }

  /** A line without an opening brace opens nothing. */
  lemma NoBraceNoOpen(line: string, d: string)
    requires '{' !in line
    ensures !Opens(line, d)
  {
    TrimMembers(line);
    assert EndsWithChar(Trim(line), '{') ==> '{' in Trim(line);
  }

  const PROXY_WORD: string := "reverse_proxy"

  /** The only other line that can open a removal is the inner block of several upstreams. */
  lemma InnerOpens(addrs: string, d: string)
    requires PlainDomain(d)
    ensures Opens("    reverse_proxy " + addrs + " {", d) <==> d == PROXY_WORD
  {
    hide IsDomainLine;
    var rest := addrs + " {";
    var inner := PROXY_WORD + " " + rest;
    NoWhitespaceNoSpace(d);
    ProxyWordPlain();
    assert "    reverse_proxy " + addrs + " {" == "    " + inner;
    assert inner[0] == 'r' && inner[|inner| - 1] == '{';
    TrimIndented(inner);
    DomainLineWord(PROXY_WORD, rest, d);
    assert ("http://" + d)[0] == ("https://" + d)[0] == 'h';
    assert PROXY_WORD[0] == 'r';
  }

  lemma ProxyWordPlain()
    ensures NoSpace(PROXY_WORD)
  {
  }

  // ---- Braces ----

  lemma {:induction false} NoBraces(s: string)
    requires '{' !in s && '}' !in s
    ensures Braces(s) == 0
  {
    if s != "" {
      NoBraces(s[..|s| - 1]);
    }
  }

  /** Lines that carry neither brace. */
  predicate Flat(ls: seq<string>) {
    forall i :: 0 <= i < |ls| ==> '{' !in ls[i] && '}' !in ls[i]
  }

  /** From this depth the counter stays positive inside the lines and is zero at their end. */
  predicate Closes(ls: seq<string>, depth: int) {
    ls != [] &&
    var depth' := depth + Braces(ls[0]);
    if |ls| == 1 then depth' == 0 else depth' > 0 && Closes(ls[1..], depth')
  }

  lemma {:induction false} ClosesFlat(flat: seq<string>, rest: seq<string>, depth: int)
    requires Flat(flat) && rest != [] && depth > 0
    ensures Closes(flat + rest, depth) == Closes(rest, depth)
  {
    if flat == [] {
      assert flat + rest == rest;
    } else {
      assert (flat + rest)[0] == flat[0];
      NoBraces(flat[0]);
      assert (flat + rest)[1..] == flat[1..] + rest;
      ClosesFlat(flat[1..], rest, depth);
    }
  }

  lemma {:induction false} ScanCloses(ls: seq<string>, rest: seq<string>, d: string, depth: int)
    requires Closes(ls, depth)
    ensures Scan(ls + rest, d, true, depth) == Scan(rest, d, false, 0)
    decreases |ls|
  {
    hide Opens, Braces;
    assert (ls + rest)[0] == ls[0];
    assert (ls + rest)[1..] == ls[1..] + rest;
    if |ls| == 1 {
      assert ls[1..] + rest == rest;
    } else {
      ScanCloses(ls[1..], rest, d, depth + Braces(ls[0]));
    }
  }

  lemma {:induction false} ScanPasses(ls: seq<string>, rest: seq<string>, d: string, depth: int)
    requires forall i :: 0 <= i < |ls| ==> !Opens(ls[i], d)
    ensures Scan(ls + rest, d, false, depth) == ls + Scan(rest, d, false, depth)
    decreases |ls|
  {
    hide Opens, Braces;
    if ls == [] {
      assert ls + rest == rest;
    } else {
      assert (ls + rest)[0] == ls[0] && !Opens(ls[0], d);
      assert (ls + rest)[1..] == ls[1..] + rest;
      ScanPasses(ls[1..], rest, d, depth);
      assert ls == [ls[0]] + ls[1..];
    }
  }

  // ---- The shape of a block ----

  lemma HealthUriFlat()
    ensures Flat(["        health_uri /health"])
  {
  }

  lemma HealthIntervalFlat()
    ensures Flat(["        health_interval 10s"])
  {
  }

  lemma PolicyFlat()
    ensures Flat(["        lb_policy weighted_round_robin"])
  {
  }

  lemma ClosingBraces()
    ensures Braces("    }") == -1 && Braces("}") == -1
  {
    NoBraces("    ");
    assert "    }" == "    " + "}";
    BracesAppend("    ", "}");
    assert Braces("}") == Braces("") + Brace('}');
  }

  lemma FlatAppend(a: seq<string>, b: seq<string>)
    requires Flat(a) && Flat(b)
    ensures Flat(a + b)
  {
  }

  lemma TlsFlat(tls: TlsConfig)
    requires PlainTls(tls)
    ensures Flat(TlsLines(tls))
  {
  }

  /** The lines of the inner block, after the line that opens it. */
  function InnerTail(r: RouteConfig): seq<string> {
    (if Weighted(r) then ["        lb_policy weighted_round_robin"] else []) + CLOSE_INNER
  }

  lemma InnerFlat(lb: seq<string>, health: seq<string>)
    requires lb == [] || lb == ["        lb_policy weighted_round_robin"]
    requires health == ["        health_uri /health"] + ["        health_interval 10s"]
    ensures Flat(lb + health)
  {
    assert Flat([]);
    hide Flat;
    PolicyFlat();
    HealthUriFlat();
    HealthIntervalFlat();
    FlatAppend(["        health_uri /health"], ["        health_interval 10s"]);
    FlatAppend(lb, health);
  }

  lemma InnerTailCloses(r: RouteConfig, depth: int, rest: seq<string>)
    requires depth > 1 && rest != []
    ensures Closes(InnerTail(r), 1)
    ensures Closes(InnerTail(r) + rest, depth) == Closes(rest, depth - 1)
  {
    hide Weighted, Braces, Flat;
    var lb := if Weighted(r) then ["        lb_policy weighted_round_robin"] else [];
    var health := ["        health_uri /health"] + ["        health_interval 10s"];
    var flat, end := lb + health, ["    }"];
    InnerFlat(lb, health);
    ClosingBraces();
    assert InnerTail(r) == flat + end;
    assert InnerTail(r) + rest == flat + (end + rest);
    ClosesFlat(flat, end, 1);
    ClosesFlat(flat, end + rest, depth);
    assert (end + rest)[1..] == rest;
  }

  lemma AddressesPlain(r: RouteConfig)
    requires PlainRoute(r)
    ensures PlainToken(JoinSpace(Addresses(r.upstream)))
  {
    var addrs := Addresses(r.upstream);
    JoinMembers(addrs, '{');
    JoinMembers(addrs, '}');
    JoinMembers(addrs, '\n');
    JoinMembers(addrs, '\r');
  }

  lemma OpenLineBraces(addrs: string)
    requires PlainToken(addrs)
    ensures Braces("    reverse_proxy " + addrs + " {") == 1
  {
    NoBraces("    reverse_proxy " + addrs + " ");
    assert "    reverse_proxy " + addrs + " {" == ("    reverse_proxy " + addrs + " ") + "{";
    BracesAppend("    reverse_proxy " + addrs + " ", "{");
    assert Braces("{") == Braces("") + Brace('{');
  }

  /**
   * Inside the block that a header opens at depth 1, the counter stays positive up to the last
   * line and is zero exactly there.
   */
  lemma BodyCloses(r: RouteConfig)
    requires PlainRoute(r)
    ensures Closes(Body(r), 1)
  {
    hide Braces, Weighted, Addresses, JoinSpace, PlainToken, PlainTls;
    ClosingBraces();
    TlsFlat(r.tls);
    var proxy := ProxyLines(r) + ["}"];
    assert Body(r) == TlsLines(r.tls) + proxy;
    ClosesFlat(TlsLines(r.tls), proxy, 1);
    if |r.upstream| > 1 {
      var addrs := JoinSpace(Addresses(r.upstream));
      AddressesPlain(r);
      OpenLineBraces(addrs);
      var open := "    reverse_proxy " + addrs + " {";
      assert ProxyLines(r) == [open] + InnerTail(r);
      assert proxy[1..] == InnerTail(r) + ["}"] && proxy[0] == open;
      InnerTailCloses(r, 2, ["}"]);
    } else {
      SingleProxyLine(r);
      ClosesFlat(ProxyLines(r), ["}"], 1);
    }
  }

  lemma SingleProxyLine(r: RouteConfig)
    requires PlainRoute(r) && |r.upstream| == 1
    ensures Flat(ProxyLines(r))
  {
  }

  /** The same, in terms of the depth after each number of lines. */
  lemma {:induction false} BraceCounter(ls: seq<string>, depth: int, k: nat)
    requires Closes(ls, depth) && k <= |ls|
    ensures k > 0 ==> (depth + TotalBraces(ls[..k]) > 0 <==> k < |ls|)
    ensures depth + TotalBraces(ls) == 0
    decreases |ls|
  {
    hide Braces;
    if |ls| > 1 {
      BraceCounter(ls[1..], depth + Braces(ls[0]), if k == 0 then 0 else k - 1);
    }
    if k > 0 {
      assert ls[..k][1..] == ls[1..][..k - 1];
    }
  }

  /**
   * For a printed route: after the header has set the counter to 1, it is positive after every
   * number of lines of the body but all of them, and then zero.
   */
  lemma BodyDepth(r: RouteConfig, k: nat)
    requires PlainRoute(r) && 0 < k <= |Body(r)|
    ensures 1 + TotalBraces(Body(r)[..k]) > 0 <==> k < |Body(r)|
    ensures 1 + TotalBraces(Body(r)) == 0
  {
    hide Body, PlainDomain, PlainTls, PlainToken;
    BodyCloses(r);
    BraceCounter(Body(r), 1, k);
  }

  function TotalBraces(ls: seq<string>): int {
    if ls == [] then 0 else Braces(ls[0]) + TotalBraces(ls[1..])
  }

  // ---- Scanning printed blocks ----

  function Blocks(routes: seq<RouteConfig>): seq<string>
    requires Printable(routes)
  {
    if routes == [] then [] else Block(routes[0]) + Blocks(routes[1..])
  }

  /** A block that lost its inner block: header, TLS line and closing brace are left. */
  function StrippedBlock(r: RouteConfig): seq<string> {
    [HeaderLine(r)] + TlsLines(r.tls) + ["}"]
  }

  /**
   * A route's lines in a file. Removing a domain spelled like the inner directive strips the inner
   * block of every route that has one.
   */
  function Shown(r: RouteConfig, stripped: bool): seq<string>
    requires |r.upstream| > 0
  {
    if stripped && |r.upstream| > 1 then StrippedBlock(r) else Block(r)
  }

  function ShownAll(routes: seq<RouteConfig>, stripped: bool): seq<string>
    requires Printable(routes)
  {
    if routes == [] then [] else Shown(routes[0], stripped) + ShownAll(routes[1..], stripped)
  }

  lemma TopOpensNothing(r: RouteConfig, d: string)
    requires PlainRoute(r) && PlainDomain(d) && r.domain != d
    ensures var top := [HeaderLine(r)] + TlsLines(r.tls);
            forall i :: 0 <= i < |top| ==> !Opens(top[i], d)
  {
    hide Opens;
    HeaderOpens(r, d);
    TlsFlat(r.tls);
    forall i | 0 <= i < |TlsLines(r.tls)|
      ensures !Opens(TlsLines(r.tls)[i], d)
    {
      NoBraceNoOpen(TlsLines(r.tls)[i], d);
    }
  }

  lemma ClosingOpensNothing(d: string)
    ensures !Opens("}", d) && !Opens("    }", d)
  {
    NoBraceNoOpen("}", d);
    NoBraceNoOpen("    }", d);
  }

  lemma FlatOpensNothing(ls: seq<string>, d: string)
    requires Flat(ls)
    ensures forall i :: 0 <= i < |ls| ==> !Opens(ls[i], d)
  {
    forall i | 0 <= i < |ls|
      ensures !Opens(ls[i], d)
    {
      NoBraceNoOpen(ls[i], d);
    }
  }

  lemma ProxyOpensNothing(r: RouteConfig, d: string)
    requires PlainRoute(r) && PlainDomain(d) && (|r.upstream| == 1 || d != PROXY_WORD)
    ensures forall i :: 0 <= i < |ProxyLines(r)| ==> !Opens(ProxyLines(r)[i], d)
  {
    hide Opens, Flat, Weighted, JoinSpace, Addresses, PlainToken, PlainTls, PlainDomain;
    if |r.upstream| == 1 {
      SingleProxyLine(r);
      FlatOpensNothing(ProxyLines(r), d);
    } else {
      var addrs := JoinSpace(Addresses(r.upstream));
      InnerOpens(addrs, d);
      var lb := if Weighted(r) then ["        lb_policy weighted_round_robin"] else [];
      var health := ["        health_uri /health"] + ["        health_interval 10s"];
      InnerFlat(lb, health);
      FlatOpensNothing(lb + health, d);
      ClosingOpensNothing(d);
      assert ProxyLines(r) == ["    reverse_proxy " + addrs + " {"] + (lb + health) + ["    }"];
    }
  }

  lemma ScanKept(r: RouteConfig, rest: seq<string>, d: string)
    requires PlainRoute(r) && PlainDomain(d) && r.domain != d && (|r.upstream| == 1 || d != PROXY_WORD)
    ensures Scan(Block(r) + rest, d, false, 0) == Block(r) + Scan(rest, d, false, 0)
  {
    hide Opens, Scan, HeaderLine, TlsLines, ProxyLines, PlainToken, PlainTls, PlainDomain;
    TopOpensNothing(r, d);
    ProxyOpensNothing(r, d);
    ClosingOpensNothing(d);
    var top := [HeaderLine(r)] + TlsLines(r.tls);
    assert Block(r) == top + ProxyLines(r) + ["}"];
    ScanPasses(Block(r), rest, d, 0);
  }

  lemma ScanOpening(line: string, rest: seq<string>, d: string, depth: int)
    requires Opens(line, d)
    ensures Scan([line] + rest, d, false, depth) == Scan(rest, d, true, 1)
  {
    hide Opens;
    assert ([line] + rest)[1..] == rest;
  }

  lemma ScanStripping(r: RouteConfig, rest: seq<string>, d: string)
    requires PlainRoute(r) && PlainDomain(d) && r.domain != d && |r.upstream| > 1 && d == PROXY_WORD
    ensures Scan(Block(r) + rest, d, false, 0) == StrippedBlock(r) + Scan(rest, d, false, 0)
  {
    hide Opens, Scan, HeaderLine, TlsLines, PlainToken, PlainTls, PlainDomain, Weighted, JoinSpace, Addresses;
    TopOpensNothing(r, d);
    var top := [HeaderLine(r)] + TlsLines(r.tls);
    var addrs := JoinSpace(Addresses(r.upstream));
    var open := "    reverse_proxy " + addrs + " {";
    var after := ["}"] + rest;
    assert Block(r) + rest == top + ([open] + (InnerTail(r) + after));
    ScanPasses(top, [open] + (InnerTail(r) + after), d, 0);
    InnerOpens(addrs, d);
    ScanOpening(open, InnerTail(r) + after, d, 0);
    InnerTailCloses(r, 2, ["}"]);
    ScanCloses(InnerTail(r), after, d, 1);
    ClosingOpensNothing(d);
    ScanPasses(["}"], rest, d, 0);
    assert top + (["}"] + Scan(rest, d, false, 0)) == top + ["}"] + Scan(rest, d, false, 0);
  }

  lemma StrippedCloses(r: RouteConfig)
    requires PlainRoute(r)
    ensures Closes(TlsLines(r.tls) + ["}"], 1)
  {
    hide Braces, PlainDomain, PlainToken;
    ClosingBraces();
    TlsFlat(r.tls);
    ClosesFlat(TlsLines(r.tls), ["}"], 1);
  }

  lemma ScanStripped(r: RouteConfig, rest: seq<string>, d: string)
    requires PlainRoute(r) && PlainDomain(d) && r.domain != d
    ensures Scan(StrippedBlock(r) + rest, d, false, 0) == StrippedBlock(r) + Scan(rest, d, false, 0)
  {
    hide Opens, Scan, HeaderLine, TlsLines, PlainToken, PlainTls, PlainDomain;
    TopOpensNothing(r, d);
    ClosingOpensNothing(d);
    ScanPasses(StrippedBlock(r), rest, d, 0);
  }

  /** Removing a route's own domain takes its whole block, stripped or not. */
  lemma ScanOwn(r: RouteConfig, rest: seq<string>, stripped: bool)
    requires PlainRoute(r)
    ensures Scan(Shown(r, stripped) + rest, r.domain, false, 0) == Scan(rest, r.domain, false, 0)
  {
    hide Opens, Scan, PlainToken, PlainTls, PlainDomain, Body, TlsLines, HeaderLine;
    var body := if stripped && |r.upstream| > 1 then TlsLines(r.tls) + ["}"] else Body(r);
    BodyCloses(r);
    StrippedCloses(r);
    HeaderOpens(r, r.domain);
    assert Shown(r, stripped) + rest == [HeaderLine(r)] + (body + rest);
    ScanOpening(HeaderLine(r), body + rest, r.domain, 0);
    ScanCloses(body, rest, r.domain, 1);
  }

  lemma ScanShown(r: RouteConfig, rest: seq<string>, stripped: bool, d: string)
    requires PlainRoute(r) && PlainDomain(d)
    ensures Scan(Shown(r, stripped) + rest, d, false, 0) ==
            (if r.domain == d then [] else Shown(r, stripped || d == PROXY_WORD)) + Scan(rest, d, false, 0)
  {
    hide Opens, Scan, PlainToken, PlainTls, PlainDomain, Block, StrippedBlock;
    if r.domain == d {
      ScanOwn(r, rest, stripped);
      assert [] + Scan(rest, d, false, 0) == Scan(rest, d, false, 0);
    } else if stripped && |r.upstream| > 1 {
      ScanStripped(r, rest, d);
    } else if |r.upstream| > 1 && d == PROXY_WORD {
      ScanStripping(r, rest, d);
    } else {
      ScanKept(r, rest, d);
    }
  }

  /** What scanning the blocks of a file leaves, for every domain, stripped or not. */
  lemma {:induction false} ScanBlocks(routes: seq<RouteConfig>, stripped: bool, d: string)
    requires PlainRoutes(routes) && PlainDomain(d)
    ensures Printable(Without(routes, d))
    ensures Scan(ShownAll(routes, stripped), d, false, 0) ==
            ShownAll(Without(routes, d), stripped || d == PROXY_WORD)
  {
    hide Opens, Braces, Shown, PlainRoute;
    WithoutPlain(routes, d);
    if routes != [] {
      assert PlainRoute(routes[0]);
      PlainPrintable(routes);
      ScanShown(routes[0], ShownAll(routes[1..], stripped), stripped, d);
      ScanBlocks(routes[1..], stripped, d);
      if routes[0].domain != d {
        assert Without(routes, d)[1..] == Without(routes[1..], d);
      } else {
        assert Without(routes, d) == Without(routes[1..], d);
      }
    }
  }

  lemma WithoutPlain(routes: seq<RouteConfig>, d: string)
    requires PlainRoutes(routes)
    ensures PlainRoutes(Without(routes, d)) && Printable(Without(routes, d))
  {
    hide PlainRoute;
    WithoutMembers(routes, d);
    forall i | 0 <= i < |Without(routes, d)|
      ensures PlainRoute(Without(routes, d)[i])
    {
      assert Without(routes, d)[i] in routes;
    }
    PlainPrintable(Without(routes, d));
  }

  lemma PlainPrintable(routes: seq<RouteConfig>)
    requires PlainRoutes(routes)
    ensures Printable(routes)
  {
  }

  /** No route has an inner block to lose. */
  predicate SingleUpstreams(routes: seq<RouteConfig>) {
    forall i :: 0 <= i < |routes| ==> |routes[i].upstream| <= 1
  }

  lemma {:induction false} BlocksAppend(a: seq<RouteConfig>, b: seq<RouteConfig>)
    requires Printable(a) && Printable(b)
    ensures Blocks(a + b) == Blocks(a) + Blocks(b)
  {
    hide Block;
    if a == [] {
      assert a + b == b;
    } else {
      assert (a + b)[1..] == a[1..] + b && (a + b)[0] == a[0];
      BlocksAppend(a[1..], b);
    }
  }

  /** A stripped file still holds the blocks of its routes exactly when none had an inner block. */
  lemma {:induction false} StrippedExact(routes: seq<RouteConfig>, stripped: bool)
    requires Printable(routes)
    ensures |ShownAll(routes, stripped)| <= |Blocks(routes)|
    ensures ShownAll(routes, stripped) == Blocks(routes) <==> !stripped || SingleUpstreams(routes)
    ensures stripped && !SingleUpstreams(routes) ==> |ShownAll(routes, stripped)| < |Blocks(routes)|
  {
    if routes != [] {
      hide Block, StrippedBlock;
      var first, rest := routes[0], routes[1..];
      StrippedExact(rest, stripped);
      StrippedShorter(first);
      assert SingleUpstreams(routes) <==> |first.upstream| <= 1 && SingleUpstreams(rest);
    }
  }

  lemma StrippedShorter(r: RouteConfig)
    requires |r.upstream| > 0
    ensures |r.upstream| > 1 ==> |StrippedBlock(r)| < |Block(r)|
  {
    hide Weighted, JoinSpace, Addresses, TlsLines;
  }
}
