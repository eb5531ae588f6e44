/**
 * The Caddy backend: a printer of nested blocks and a remover that scans the printed text again
 * with a skip flag and a brace counter.
 */
module Caddy {
  import opened Wrappers
  import opened Strings
  import opened Routes

  // ---- Printing ----

  function HeaderLine(r: RouteConfig): string {
    (if r.tls.NoTls? then "http://" + r.domain else r.domain) + " {"
  }

  function TlsLines(tls: TlsConfig): seq<string> {
    match tls
    case NoTls => []
    case Auto(email) => ["    tls " + email]
    case Manual(cert, key) => ["    tls " + (cert + " " + key)]
  }

  predicate Weighted(r: RouteConfig) {
    exists u <- r.upstream :: u.weight > 1
  }

  const CLOSE_INNER: seq<string> := ["        health_uri /health", "        health_interval 10s", "    }"]

  function ProxyLines(r: RouteConfig): seq<string>
    requires |r.upstream| > 0
  {
    if |r.upstream| > 1 then
      ["    reverse_proxy " + JoinSpace(Addresses(r.upstream)) + " {"] +
      (if Weighted(r) then ["        lb_policy weighted_round_robin"] else []) + CLOSE_INNER
    else ["    reverse_proxy " + r.upstream[0].address]
  }

  /** A block without its header line. */
  function Body(r: RouteConfig): seq<string>
    requires |r.upstream| > 0
  {
    TlsLines(r.tls) + ProxyLines(r) + ["}"]
  }

  function Block(r: RouteConfig): seq<string>
    requires |r.upstream| > 0
  {
    [HeaderLine(r)] + Body(r)
  }

  /** Every route has an upstream: the printer indexes the first one. */
  predicate Printable(routes: seq<RouteConfig>) {
    forall i :: 0 <= i < |routes| ==> |routes[i].upstream| > 0
  }

  /** The printed lines: blocks with an empty line between them. */
  function RenderLines(routes: seq<RouteConfig>): seq<string>
    requires Printable(routes)
  {
    if routes == [] then []
    else
      var n := |routes| - 1;
      RenderLines(routes[..n]) + (if n > 0 then [""] else []) + Block(routes[n])
  }

  method RenderCaddyfile(routes: seq<RouteConfig>) returns (output: string)
    requires Printable(routes)
    ensures output == Unlines(RenderLines(routes))
  {
    output := "";
    for i := 0 to |routes|
      invariant output == Unlines(RenderLines(routes[..i]))
    {
      var route := routes[i];
      ghost var before := RenderLines(routes[..i]);
      if i > 0 {
        output := output + "\n";
      }
      ghost var start := before + if i > 0 then [""] else [];
      assert Unlines([""]) == "\n";
      UnlinesAppend(before, [""]);
      assert output == Unlines(start);
      output := RenderRoute(output, route);
      UnlinesAppend(start, Block(route));
      assert routes[..i + 1][..i] == routes[..i];
    }
    assert routes[..|routes|] == routes;
  }

  lemma PushLine(output: string, line: string, ls: seq<string>)
    requires output == Unlines(ls)
    ensures output + line + "\n" == Unlines(ls + [line])
  {
    UnlinesAppend(ls, [line]);
    assert Unlines([line]) == line + "\n" + "";
  }

  method RenderRoute(start: string, route: RouteConfig) returns (output: string)
    requires |route.upstream| > 0
    ensures output == start + Unlines(Block(route))
  {
    var block := "";
    ghost var ls: seq<string> := [];
    assert block == Unlines(ls);
    hide Weighted, Addresses, Unlines, ProxyLines;
    PushLine(block, HeaderLine(route), ls);
    ls := ls + [HeaderLine(route)];
    match route.tls {
      case NoTls =>
        block := block + ("http://" + route.domain + " {") + "\n";
      case Auto(email) =>
        block := block + (route.domain + " {") + "\n";
        PushLine(block, "    tls " + email, ls);
        block := block + ("    tls " + email) + "\n";
      case Manual(cert, key) =>
        block := block + (route.domain + " {") + "\n";
        PushLine(block, "    tls " + (cert + " " + key), ls);
        block := block + ("    tls " + (cert + " " + key)) + "\n";
    }
    ls := ls + TlsLines(route.tls);
    assert block == Unlines(ls);
    block := RenderProxy(block, route, ls);
    ls := ls + ProxyLines(route);
    PushLine(block, "}", ls);
    block := block + "}" + "\n";
    assert ls + ["}"] == Block(route);
    output := start + block;
  }

  method RenderProxy(start: string, route: RouteConfig, ghost ls0: seq<string>) returns (output: string)
    requires |route.upstream| > 0 && start == Unlines(ls0)
    ensures output == Unlines(ls0 + ProxyLines(route))
  {
    hide Unlines;
    output := start;
    var addrs := Addresses(route.upstream);
    ghost var ls := ls0;
    if |route.upstream| > 1 {
      var open := "    reverse_proxy " + JoinSpace(addrs) + " {";
      PushLine(output, open, ls);
      output, ls := output + open + "\n", ls + [open];
      if Weighted(route) {
        PushLine(output, "        lb_policy weighted_round_robin", ls);
        output, ls := output + "        lb_policy weighted_round_robin" + "\n",
          ls + ["        lb_policy weighted_round_robin"];
      }
      PushLine(output, "        health_uri /health", ls);
      output, ls := output + "        health_uri /health" + "\n", ls + ["        health_uri /health"];
      PushLine(output, "        health_interval 10s", ls);
      output, ls := output + "        health_interval 10s" + "\n", ls + ["        health_interval 10s"];
      PushLine(output, "    }", ls);
      output, ls := output + "    }" + "\n", ls + ["    }"];
    } else {
      var line := "    reverse_proxy " + addrs[0];
      PushLine(output, line, ls);
      output, ls := output + line + "\n", ls + [line];
    }
    assert ls == ls0 + ProxyLines(route);
  }

  // ---- Removing ----

  /** Does a trimmed line name the domain, alone or before a space, with or without a scheme? */
  predicate IsDomainLine(trimmed: string, domain: string) {
    || domain + " " <= trimmed
    || "http://" + domain + " " <= trimmed
    || "https://" + domain + " " <= trimmed
    || trimmed == domain
    || trimmed == "http://" + domain
    || trimmed == "https://" + domain
  }

  /** The lines at which the scanner starts skipping. */
  predicate Opens(line: string, domain: string) {
    IsDomainLine(Trim(line), domain) && EndsWithChar(Trim(line), '{')
  }

  function Brace(c: char): int {
    if c == '{' then 1 else if c == '}' then -1 else 0
  }

  function Braces(s: string): int {
    if s == "" then 0 else Braces(s[..|s| - 1]) + Brace(s[|s| - 1])
  }

  /** The lines the scanner keeps, from a state of its skip flag and brace counter on. */
  function Scan(ls: seq<string>, domain: string, skip: bool, depth: int): seq<string> {
    if ls == [] then []
    else if skip then
      var depth' := depth + Braces(ls[0]);
      Scan(ls[1..], domain, depth' > 0, depth')
    else if Opens(ls[0], domain) then Scan(ls[1..], domain, true, 1)
    else [ls[0]] + Scan(ls[1..], domain, false, depth)
  }

  /** The skip flag and the brace counter after a line. */
  function NextState(line: string, domain: string, skip: bool, depth: int): (bool, int) {
    if skip then (depth + Braces(line) > 0, depth + Braces(line))
    else if Opens(line, domain) then (true, 1)
    else (false, depth)
  }

  lemma ScanStep(line: string, rest: seq<string>, domain: string, skip: bool, depth: int)
    ensures var (skip', depth') := NextState(line, domain, skip, depth);
            Scan([line] + rest, domain, skip, depth) ==
            if skip || skip' then Scan(rest, domain, skip', depth')
            else [line] + Scan(rest, domain, false, depth)
  {
    hide Opens, Braces;
    assert ([line] + rest)[1..] == rest;
  }

  /** Trailing whitespace goes, and a final newline is put back unless nothing is left. */
  function Finish(s: string): string {
    var t := TrimEnd(s);
    if t == "" then "" else t + "\n"
  }

  function Removed(content: string, domain: string): string {
    Finish(Unlines(Scan(Lines(content), domain, false, 0)))
  }

  lemma {:induction false} BracesAppend(a: string, b: string)
    ensures Braces(a + b) == Braces(a) + Braces(b)
  {
    if b == "" {
      assert a + b == a;
    } else {
      var b' := b[..|b| - 1];
      assert (a + b)[..|a + b| - 1] == a + b';
      BracesAppend(a, b');
    }
  }

  method CountBraces(line: string, start: int) returns (depth: int)
    ensures depth == start + Braces(line)
  {
    depth := start;
    for i := 0 to |line|
      invariant depth == start + Braces(line[..i])
    {
      assert line[..i + 1][..i] == line[..i];
      match line[i] {
        case '{' => depth := depth + 1;
        case '}' => depth := depth - 1;
        case _ =>
      }
    }
    assert line[..|line|] == line;
  }

  /** The scanning loop of `remove_route`. */
  method ScanContent(content: string, domain: string) returns (result: string)
    ensures result == Unlines(Scan(Lines(content), domain, false, 0))
  {
    hide Opens, Braces, Lines;
    var lines := Lines(content);
    result := "";
    assert result == Unlines([]);
    var skip, braceDepth := false, 0;
    ghost var kept: seq<string> := [];
    assert [] + Scan(lines, domain, false, 0) == Scan(lines, domain, false, 0);
    hide Unlines;
    for i := 0 to |lines|
      invariant result == Unlines(kept)
      invariant kept + Scan(lines[i..], domain, skip, braceDepth) == Scan(lines, domain, false, 0)
    {
      hide Scan;
      var line := lines[i];
      ghost var rest := lines[i + 1..];
      assert lines[i..] == [line] + rest;
      ScanStep(line, rest, domain, skip, braceDepth);
      if !skip && Opens(line, domain) {
        skip, braceDepth := true, 1;
      } else if skip {
        braceDepth := CountBraces(line, braceDepth);
        if braceDepth <= 0 {
          skip := false;
        }
      } else {
        PushLine(result, line, kept);
        result := result + line + "\n";
        assert kept + ([line] + Scan(rest, domain, skip, braceDepth)) ==
               kept + [line] + Scan(rest, domain, skip, braceDepth);
        kept := kept + [line];
      }
    }
    assert kept + [] == kept;
  }

  /** The backend and its one file, which may not exist yet. */
  class CaddyBackend {
    var caddyfile: Option<string>

    constructor ()
      ensures caddyfile == None
    {
      caddyfile := None;
    }

    method ApplyRoutes(routes: seq<RouteConfig>)
      requires Printable(routes)
      modifies this
      ensures caddyfile == Some(Unlines(RenderLines(routes)))
    {
      var content := RenderCaddyfile(routes);
      caddyfile := Some(content);
    }

    method RemoveRoute(domain: string)
      modifies this
      ensures caddyfile ==
              if old(caddyfile).None? then None else Some(Removed(old(caddyfile).value, domain))
    {
      if caddyfile.None? {
        return;
      }
      var result := ScanContent(caddyfile.value, domain);
      var trimmed := TrimEnd(result);
      caddyfile := Some(if trimmed == "" then "" else trimmed + "\n");
    }
  }
}
