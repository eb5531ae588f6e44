/**
 * The Caddyfile as text: whole runs of `remove_route` on a printed file.
 */
module CaddyRuns {
  import opened Sequences
  import opened Strings
  import opened Routes
  import opened Caddy
  import opened CaddyRemoval

  // ---- Empty lines do not matter to the scanner ----

  lemma EmptyLine(d: string)
    ensures !Opens("", d) && Braces("") == 0
  {
    assert Trim("") == "";
  }

  lemma NonBlankFirst(line: string, rest: seq<string>)
    ensures NonBlank([line] + rest) == if line == "" then NonBlank(rest) else [line] + NonBlank(rest)
  {
    assert ([line] + rest)[1..] == rest;
    assert [] + NonBlank(rest) == NonBlank(rest);
  }

  lemma {:induction false} ScanNonBlank(ls: seq<string>, d: string, skip: bool, depth: int)
    requires skip ==> depth > 0
    ensures NonBlank(Scan(ls, d, skip, depth)) == Scan(NonBlank(ls), d, skip, depth)
    decreases |ls|
  {
    if ls != [] {
      hide NonBlank, Scan, Opens, Braces;
      EmptyLine(d);
      var line, rest := ls[0], ls[1..];
      assert ls == [line] + rest;
      var (skip', depth') := NextState(line, d, skip, depth);
      ScanNonBlank(rest, d, skip', depth');
      NonBlankFirst(line, rest);
      ScanStep(line, rest, d, skip, depth);
      ScanStep(line, NonBlank(rest), d, skip, depth);
      NonBlankFirst(line, Scan(rest, d, skip', depth'));
    }
  }

  lemma {:induction false} ScanClean(ls: seq<string>, d: string, skip: bool, depth: int)
    requires CleanLines(ls)
    ensures CleanLines(Scan(ls, d, skip, depth))
    decreases |ls|
  {
    if ls != [] {
      hide Scan, Opens, Braces, CleanLine;
      var line, rest := ls[0], ls[1..];
      assert ls == [line] + rest;
      var (skip', depth') := NextState(line, d, skip, depth);
      ScanStep(line, rest, d, skip, depth);
      ScanClean(rest, d, skip', depth');
    }
  }

  // ---- The final trim only drops empty lines ----

  function DropBlanks(ls: seq<string>): seq<string> {
    if ls != [] && ls[|ls| - 1] == "" then DropBlanks(ls[..|ls| - 1]) else ls
  }

  lemma {:induction false} DropBlanksNonBlank(ls: seq<string>)
    ensures NonBlank(DropBlanks(ls)) == NonBlank(ls)
    ensures |DropBlanks(ls)| <= |ls| && DropBlanks(ls) == ls[..|DropBlanks(ls)|]
  {
    if ls != [] && ls[|ls| - 1] == "" {
      var init := ls[..|ls| - 1];
      DropBlanksNonBlank(init);
      assert ls == init + [""];
      NonBlankAppend(init, [""]);
      assert NonBlank([""]) == NonBlank([""][1..]);
    }
  }

  lemma UnlinesLast(init: seq<string>, last: string)
    ensures Unlines(init + [last]) == Unlines(init) + last + "\n"
  {
    UnlinesAppend(init, [last]);
    assert Unlines([last]) == last + "\n" + Unlines([last][1..]);
  }

  lemma NonBlankLast(init: seq<string>, last: string)
    ensures NonBlank(init + [last]) == if last == "" then NonBlank(init) else NonBlank(init) + [last]
  {
    NonBlankAppend(init, [last]);
    assert [last][1..] == [];
    assert NonBlank([last]) == if last == "" then [] else [last];
  }

  lemma FinishSolid(init: seq<string>, last: string)
    requires Solid(last)
    ensures Finish(Unlines(init + [last])) == Unlines(init + [last])
  {
    hide IsWhitespace, Unlines;
    UnlinesLast(init, last);
    var t := Unlines(init) + last;
    assert t[|t| - 1] == last[|last| - 1];
    TrimNewline(t);
  }

  /** When the last non-empty line does not end in whitespace, finishing drops empty lines only. */
  lemma {:induction false} FinishLines(ls: seq<string>)
    requires NonBlank(ls) != [] ==> Solid(NonBlank(ls)[|NonBlank(ls)| - 1])
    ensures Finish(Unlines(ls)) == Unlines(DropBlanks(ls))
  {
    if ls != [] {
      hide IsWhitespace, Unlines, NonBlank, TrimEnd;
      var init, last := ls[..|ls| - 1], ls[|ls| - 1];
      assert ls == init + [last];
      NonBlankLast(init, last);
      if last == "" {
        FinishLines(init);
        UnlinesLast(init, "");
        assert Unlines(init) + "" == Unlines(init);
        TrimNewline(Unlines(init));
      } else {
        FinishSolid(init, last);
      }
    }
  }

  lemma TrimNewline(s: string)
    ensures TrimEnd(s + "\n") == TrimEnd(s)
  {
    assert (s + "\n")[..|s|] == s;
  }

  // ---- Line ends ----

  /** The lines, each ended by a carriage return and a newline. */
  function Crlf(ls: seq<string>): string {
    if ls == [] then "" else ls[0] + "\r\n" + Crlf(ls[1..])
  }

  lemma {:induction false} LinesOfCrlf(ls: seq<string>)
    requires CleanLines(ls)
    ensures Lines(Crlf(ls)) == ls
  {
    if ls != [] {
      var first, rest := ls[0] + "\r", Crlf(ls[1..]);
      assert CleanLine(ls[0]);
      assert Crlf(ls) == first + ['\n'] + rest;
      assert '\n' !in first;
      FindAt(first, '\n', rest);
      var s := first + ['\n'] + rest;
      assert s[..|first|] == first && s[|first| + 1..] == rest;
      assert StripCr(first) == ls[0];
      LinesOfCrlf(ls[1..]);
      assert ls == [ls[0]] + ls[1..];
    }
  }

  /** A removal does not depend on how the lines of the file end, and ends them by newlines. */
  lemma RemovedFromCrlf(ls: seq<string>, d: string)
    requires CleanLines(ls)
    ensures Removed(Crlf(ls), d) == Removed(Unlines(ls), d)
  {
    hide Lines, Scan, Finish;
    LinesOfCrlf(ls);
    LinesOfUnlines(ls);
  }

  // ---- Printed files ----

  /**
   * The file holds the blocks of these routes, in order, with empty lines anywhere; `stripped` says
   * whether inner blocks are gone.
   */
  ghost predicate Holds(content: string, routes: seq<RouteConfig>, stripped: bool)
    requires Printable(routes)
  {
    exists ls :: content == Unlines(ls) && CleanLines(ls) && NonBlank(ls) == ShownAll(routes, stripped)
  }

  lemma TlsLinesClean(tls: TlsConfig)
    requires PlainTls(tls)
    ensures CleanLines(TlsLines(tls)) && "" !in TlsLines(tls)
  {
  }

  lemma ProxyLinesClean(r: RouteConfig)
    requires PlainRoute(r)
    ensures CleanLines(ProxyLines(r)) && "" !in ProxyLines(r)
  {
    hide Weighted, JoinSpace, Addresses;
    AddressesPlain(r);
    PolicyLineClean();
    InnerLinesClean();
  }

  lemma PolicyLineClean()
    ensures CleanLine("        lb_policy weighted_round_robin")
  {
  }

  lemma InnerLinesClean()
    ensures CleanLine("        health_uri /health")
    ensures CleanLine("        health_interval 10s")
    ensures CleanLine("    }")
  {
  }

  lemma BlockClean(r: RouteConfig)
    requires PlainRoute(r)
    ensures CleanLines(Block(r)) && "" !in Block(r)
    ensures Block(r)[|Block(r)| - 1] == "}"
  {
    hide ProxyLines, TlsLines, PlainToken, IsWhitespace;
    NoWhitespaceNoSpace(r.domain);
    TlsLinesClean(r.tls);
    ProxyLinesClean(r);
    assert CleanLine(HeaderLine(r));
  }

  lemma AppendBlock(ls: seq<string>, gap: bool, block: seq<string>)
    requires CleanLines(ls) && CleanLines(block) && NonBlank(block) == block
    ensures var all := ls + (if gap then [""] else []) + block;
            CleanLines(all) && NonBlank(all) == NonBlank(ls) + block
  {
    hide NonBlank, CleanLine;
    EmptyLineClean();
    NonBlankLast(ls, "");
    var start := ls + if gap then [""] else [];
    assert gap || start == ls;
    NonBlankAppend(start, block);
  }

  lemma {:induction false} RenderedNonBlank(routes: seq<RouteConfig>)
    requires PlainRoutes(routes)
    ensures CleanLines(RenderLines(routes))
    ensures NonBlank(RenderLines(routes)) == Blocks(routes)
  {
    hide Block, PlainRoute;
    if routes != [] {
      hide NonBlank, Blocks, CleanLines;
      PlainPrintable(routes);
      var n := |routes| - 1;
      var init, last := routes[..n], routes[n];
      RenderedNonBlank(init);
      BlockClean(last);
      NonBlankAll(Block(last));
      AppendBlock(RenderLines(init), n > 0, Block(last));
      assert routes == init + [last];
      BlocksAppend(init, [last]);
      OneBlock(last);
    }
  }

  lemma RenderSnoc(routes: seq<RouteConfig>, r: RouteConfig)
    requires Printable(routes) && |r.upstream| > 0
    ensures Printable(routes + [r])
    ensures RenderLines(routes + [r]) == RenderLines(routes) + (if routes == [] then [] else [""]) + Block(r)
  {
    hide Block;
    assert (routes + [r])[..|routes|] == routes;
  }

  /** Blocks are printed one after the other with one empty line between two of them. */
  lemma {:induction false} RenderedGaps(first: RouteConfig, rest: seq<RouteConfig>)
    requires |first.upstream| > 0 && Printable(rest)
    ensures Printable([first] + rest)
    ensures RenderLines([first] + rest) == Block(first) + if rest == [] then [] else [""] + RenderLines(rest)
  {
    hide Block, RenderLines;
    if rest == [] {
      EmptyRender();
      RenderSnoc([], first);
      assert [first] + rest == [] + [first];
      assert [] + [] + Block(first) == Block(first) + [];
    } else {
      var n := |rest| - 1;
      var init, last := rest[..n], rest[n];
      assert rest == init + [last] && [first] + rest == ([first] + init) + [last];
      RenderedGaps(first, init);
      RenderSnoc([first] + init, last);
      RenderSnoc(init, last);
      if init == [] {
        EmptyRender();
        assert Block(first) + [] + [""] + Block(last) == Block(first) + ([""] + ([] + [] + Block(last)));
      } else {
        assert Block(first) + ([""] + RenderLines(init)) + [""] + Block(last) ==
               Block(first) + ([""] + (RenderLines(init) + [""] + Block(last)));
      }
    }
  }

  lemma EmptyRender()
    ensures RenderLines([]) == []
  {
  }

  lemma OneBlock(r: RouteConfig)
    requires |r.upstream| > 0
    ensures Blocks([r]) == Block(r)
  {
    hide Block;
    assert Blocks([r]) == Block(r) + Blocks([r][1..]);
  }

  lemma EmptyLineClean()
    ensures CleanLine("")
  {
  }

  lemma RenderHolds(routes: seq<RouteConfig>)
    requires PlainRoutes(routes)
    ensures Printable(routes) && Holds(Unlines(RenderLines(routes)), routes, false)
  {
    hide RenderLines, Blocks, PlainRoute, ShownAll;
    PlainPrintable(routes);
    RenderedNonBlank(routes);
    StrippedExact(routes, false);
  }

  lemma HoldsLines(content: string, routes: seq<RouteConfig>, stripped: bool)
    requires Printable(routes) && Holds(content, routes, stripped)
    ensures NonBlank(Lines(content)) == ShownAll(routes, stripped)
    ensures NonBlank(Lines(content)) == Blocks(routes) <==> !stripped || SingleUpstreams(routes)
  {
    hide Blocks, ShownAll, Lines, SingleUpstreams;
    var ls :| content == Unlines(ls) && CleanLines(ls) && NonBlank(ls) == ShownAll(routes, stripped);
    LinesOfUnlines(ls);
    StrippedExact(routes, stripped);
  }

  lemma {:induction false} ShownEnd(routes: seq<RouteConfig>, stripped: bool)
    requires PlainRoutes(routes) && Printable(routes) && ShownAll(routes, stripped) != []
    ensures ShownAll(routes, stripped)[|ShownAll(routes, stripped)| - 1] == "}"
  {
    hide Block, TlsLines, HeaderLine;
    BlockClean(routes[0]);
    if ShownAll(routes[1..], stripped) != [] {
      ShownEnd(routes[1..], stripped);
    }
  }

  /** One removal on a file that holds routes, in every case. */
  lemma RemovedHolds(content: string, routes: seq<RouteConfig>, stripped: bool, d: string)
    requires PlainRoutes(routes) && Printable(routes) && Holds(content, routes, stripped) && PlainDomain(d)
    ensures PlainRoutes(Without(routes, d)) && Printable(Without(routes, d))
    ensures Holds(Removed(content, d), Without(routes, d), stripped || d == PROXY_WORD)
  {
    hide Blocks, ShownAll, Scan, Finish, Lines, PlainRoute, PlainDomain, Without;
    WithoutPlain(routes, d);
    var was :| content == Unlines(was) && CleanLines(was) && NonBlank(was) == ShownAll(routes, stripped);
    LinesOfUnlines(was);
    var kept := Scan(was, d, false, 0);
    ScanNonBlank(was, d, false, 0);
    ScanClean(was, d, false, 0);
    ScanBlocks(routes, stripped, d);
    var rest, stripped' := Without(routes, d), stripped || d == PROXY_WORD;
    if ShownAll(rest, stripped') != [] {
      ShownEnd(rest, stripped');
    }
    FinishLines(kept);
    DropBlanksNonBlank(kept);
    assert CleanLines(DropBlanks(kept));
  }

  /**
   * Removing a domain leaves exactly the lines of the other routes, if and only if the domain is
   * not spelled `reverse_proxy` or no other route has several upstreams.
   */
  lemma RemoveExact(content: string, routes: seq<RouteConfig>, d: string)
    requires PlainRoutes(routes) && Printable(routes) && Holds(content, routes, false) && PlainDomain(d)
    ensures Printable(Without(routes, d))
    ensures NonBlank(Lines(Removed(content, d))) == Blocks(Without(routes, d)) <==>
              d != PROXY_WORD || SingleUpstreams(Without(routes, d))
  {
    hide Blocks, Holds, Removed, Lines, PlainRoute, PlainDomain, SingleUpstreams, Without;
    RemovedHolds(content, routes, false, d);
    HoldsLines(Removed(content, d), Without(routes, d), d == PROXY_WORD);
  }

  function RemovedAll(content: string, domains: seq<string>): string
    decreases |domains|
  {
    if domains == [] then content else RemovedAll(Removed(content, domains[0]), domains[1..])
  }

  lemma {:induction false} WithoutAllPlain(routes: seq<RouteConfig>, domains: seq<string>)
    requires PlainRoutes(routes)
    ensures PlainRoutes(WithoutAll(routes, domains)) && Printable(WithoutAll(routes, domains))
    decreases |domains|
  {
    hide PlainRoute;
    if domains == [] {
      PlainPrintable(routes);
    } else {
      WithoutPlain(routes, domains[0]);
      WithoutAllPlain(Without(routes, domains[0]), domains[1..]);
    }
  }

  /** Any sequence of removals on a file that holds routes, in every case. */
  lemma {:induction false} RemovalRun(
    content: string, routes: seq<RouteConfig>, stripped: bool, domains: seq<string>)
    requires PlainRoutes(routes) && Printable(routes) && Holds(content, routes, stripped)
    requires forall d <- domains :: PlainDomain(d)
    ensures Printable(WithoutAll(routes, domains))
    ensures Holds(RemovedAll(content, domains), WithoutAll(routes, domains), stripped || PROXY_WORD in domains)
    decreases |domains|
  {
    hide PlainRoute, Holds, PlainDomain, Removed;
    if domains != [] {
      var d, rest := domains[0], domains[1..];
      assert domains == [d] + rest;
      RemovedHolds(content, routes, stripped, d);
      RemovalRun(Removed(content, d), Without(routes, d), stripped || d == PROXY_WORD, rest);
    }
  }

  /**
   * For any routes and any removals, the non-blank lines left in the printed file are those of
   * printing the routes that were not removed, if and only if `reverse_proxy` is not among the
   * removed domains or no route left has several upstreams.
   */
  lemma RemovingIsPrintingWithout(routes: seq<RouteConfig>, domains: seq<string>)
    requires PlainRoutes(routes) && forall d <- domains :: PlainDomain(d)
    ensures Printable(routes) && Printable(WithoutAll(routes, domains))
    ensures var rest := WithoutAll(routes, domains);
            var left := RemovedAll(Unlines(RenderLines(routes)), domains);
            NonBlank(Lines(left)) == NonBlank(Lines(Unlines(RenderLines(rest)))) <==>
              PROXY_WORD !in domains || SingleUpstreams(rest)
  {
    hide PlainRoute, Holds, PlainDomain, RemovedAll, SingleUpstreams, RenderLines, Lines, WithoutAll, Unlines, Blocks;
    RenderHolds(routes);
    RemovalRun(Unlines(RenderLines(routes)), routes, false, domains);
    WithoutAllPlain(routes, domains);
    var rest := WithoutAll(routes, domains);
    RenderHolds(rest);
    HoldsLines(Unlines(RenderLines(rest)), rest, false);
    HoldsLines(RemovedAll(Unlines(RenderLines(routes)), domains), rest, PROXY_WORD in domains);
  }

  lemma ProxyWordIsPlain()
    ensures PlainDomain(PROXY_WORD)
  {
    assert PROXY_WORD[0] == 'r';
  }

  const TWO_UPSTREAMS: RouteConfig := RouteConfig("a", [Upstream("x", 1), Upstream("y", 1)], NoTls)

  lemma TwoUpstreamsPlain()
    ensures PlainRoute(TWO_UPSTREAMS) && TWO_UPSTREAMS.domain != PROXY_WORD
    ensures PlainRoutes([TWO_UPSTREAMS]) && Printable([TWO_UPSTREAMS])
  {
    assert TWO_UPSTREAMS.domain[0] == 'a';
  }

  lemma TwoUpstreamsStripped()
    ensures Without([TWO_UPSTREAMS], PROXY_WORD) == [TWO_UPSTREAMS]
    ensures Printable([TWO_UPSTREAMS]) && ShownAll([TWO_UPSTREAMS], true) == ["http://a {", "}"]
  {
    assert TWO_UPSTREAMS.domain[0] == 'a' && PROXY_WORD[0] == 'r';
    assert [TWO_UPSTREAMS][1..] == [];
    assert HeaderLine(TWO_UPSTREAMS) == "http://a {";
  }

  /** The damage is real: removing a domain `reverse_proxy` strips the upstreams of another route. */
  lemma StrippedExample()
    ensures PlainRoute(TWO_UPSTREAMS) && Printable([TWO_UPSTREAMS]) && TWO_UPSTREAMS.domain != PROXY_WORD
    ensures NonBlank(Lines(Removed(Unlines(RenderLines([TWO_UPSTREAMS])), PROXY_WORD))) == ["http://a {", "}"]
  {
    hide *;
    TwoUpstreamsPlain();
    TwoUpstreamsStripped();
    ProxyWordIsPlain();
    RenderHolds([TWO_UPSTREAMS]);
    RemovedHolds(Unlines(RenderLines([TWO_UPSTREAMS])), [TWO_UPSTREAMS], false, PROXY_WORD);
    HoldsLines(Removed(Unlines(RenderLines([TWO_UPSTREAMS])), PROXY_WORD), [TWO_UPSTREAMS], true);
  }
}
