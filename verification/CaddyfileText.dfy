/**
 What the applied Caddyfile says: the head, one block for every route that has a name, the port each block proxies to,
 and the TLS line its mode calls for, stated on the text itself.
 */
module CaddyfileText {
  import opened Text
  import opened Names
  import opened Registry
  import opened Caddyfile
  import opened RouteRuns

  // ---------------------------------------------------------------- numbers

  predicate IsDigit(c: char) { '0' <= c <= '9' }

  /** The number a string of digits stands for. */
  function DigitsValue(s: string): int {
    if s == "" then 0 else DigitsValue(s[..|s| - 1]) * 10 + (s[|s| - 1] as int - '0' as int)
  }

  function ReadNumber(s: string): int {
    if s != "" && s[0] == '-' then -DigitsValue(s[1..]) else DigitsValue(s)
  }

  lemma {:induction false} DecimalReads(n: nat)
    ensures Decimal(n) != "" && (forall i :: 0 <= i < |Decimal(n)| ==> IsDigit(Decimal(n)[i]))
    ensures DigitsValue(Decimal(n)) == n
    ensures n > 0 ==> Decimal(n)[0] != '0'
  {
    if n >= 10 {
      DecimalReads(n / 10);
      var last := ('0' as int + n % 10) as char;
      assert Decimal(n)[..|Decimal(n)| - 1] == Decimal(n / 10);
    }
  }

  /** A printed number reads back: digits only, behind a minus sign for a negative one. */
  lemma NumberReadsBack(n: int)
    ensures ReadNumber(Number(n)) == n
    ensures n >= 0 ==> Number(n) != "" && forall i :: 0 <= i < |Number(n)| ==> IsDigit(Number(n)[i])
  {
    if n < 0 {
      DecimalReads(-n);
      assert ("-" + Decimal(-n))[1..] == Decimal(-n);
    } else {
      DecimalReads(n);
      assert IsDigit(Decimal(n)[0]);
    }
  }

  // ---------------------------------------------------------------- blocks

  /** A site block: the host, its TLS line, and the loopback port it proxies to. */
  function Block(host: string, tls: string, port: string): string {
    "\n" + host + " {\n" + tls + "\treverse_proxy 127.0.0.1:" + port + "\n}\n"
  }

  /** A wildcard host the operator listed for the DNS challenge, in any letter case, with or without a trailing dot. */
  predicate ListedWildcard(host: string, cfg: RenderConfig) {
    && cfg.routeDnsProvider == "cloudflare" && |host| >= 2 && host[0] == '*' && host[1] == '.'
    && Lower(TrimSuffix(TrimSpace(host), ".")) in cfg.routeDnsWildcards
  }

  lemma UsesDns01Iff(host: string, cfg: RenderConfig)
    ensures UsesDns01(host, cfg) <==> ListedWildcard(host, cfg)
  {
    if |host| >= 2 {
      assert host[..2] == [host[0], host[1]];
    }
  }

  /** The TLS line of a block: the internal issuer, the DNS challenge, or on demand. */
  predicate TlsMode(tls: string, host: string, cfg: RenderConfig) {
    if cfg.routeTls == "internal" then tls == "\ttls internal\n"
    else if ListedWildcard(host, cfg) then
      tls == "\ttls {\n\t\tdns cloudflare {env." + "SANDCASTLE_ROUTE_DNS_CLOUDFLARE_API_TOKEN" + "}\n\t}\n"
    else tls == "\ttls {\n\t\ton_demand\n\t}\n"
  }

  /** A route's block in any text that holds it. */
  ghost predicate ShowsRoute(text: string, cfg: RenderConfig, r: Route) {
    exists tls :: TlsMode(tls, TrimSpace(r.hostname), cfg) && Contains(text, Block(TrimSpace(r.hostname), tls, Number(r.localPort)))
  }

  lemma TlsIsMode(host: string, cfg: RenderConfig)
    ensures TlsMode(Tls(host, cfg), host, cfg)
  {
    UsesDns01Iff(host, cfg);
  }

  lemma SiteIsBlock(cfg: RenderConfig, r: Route)
    requires TrimSpace(r.hostname) != ""
    ensures Site(cfg, r) == Block(TrimSpace(r.hostname), Tls(TrimSpace(r.hostname), cfg), Number(r.localPort))
  {}

  lemma ContainsParts(before: string, part: string, after: string)
    ensures Contains(before + part + after, part)
  {
    var s := before + part + after;
    assert s[|before|..] == part + after;
    assert HasPrefix(s[|before|..], part);
  }

  lemma ContainsSplit(s: string, part: string) returns (before: string, after: string)
    requires Contains(s, part)
    ensures s == before + part + after
  {
    var i :| 0 <= i <= |s| && HasPrefix(s[i..], part);
    before, after := s[..i], s[i + |part|..];
    assert s[i..] == s[i..][..|part|] + s[i..][|part|..];
  }

  lemma {:induction false} SitesSplit(cfg: RenderConfig, routes: seq<Route>, r: Route) returns (before: string, after: string)
    requires r in routes
    ensures Sites(cfg, routes) == before + Site(cfg, r) + after
  {
    var front, last := routes[..|routes| - 1], routes[|routes| - 1];
    if r == last {
      before, after := Sites(cfg, front), "";
    } else {
      before, after := SitesSplit(cfg, front, r);
      after := after + Site(cfg, last);
    }
  }

  lemma Regroup(a: string, b: string, c: string, d: string)
    ensures a + (b + c + d) == (a + b) + c + d
  {}

  /** What the sites hold, the file holds. */
  lemma SitesShow(cfg: RenderConfig, routes: seq<Route>, part: string)
    requires Contains(Sites(cfg, StableSort(routes, RouteLeq)), part)
    ensures Contains(Render(cfg, routes), part)
  {
    var sites := Sites(cfg, StableSort(routes, RouteLeq));
    ContainsBehind(Header(cfg) + AuthSite(cfg), sites, part);
  }

  lemma ContainsBehind(head: string, s: string, part: string)
    requires Contains(s, part)
    ensures Contains(head + s, part)
  {
    var before, after := ContainsSplit(s, part);
    Regroup(head, before, part, after);
    ContainsParts(head + before, part, after);
  }

  /** Every route with a name has its block in the Caddyfile, with its own local port and its TLS line. */
  lemma EveryRouteShows(cfg: RenderConfig, routes: seq<Route>, r: Route)
    requires r in routes && TrimSpace(r.hostname) != ""
    ensures ShowsRoute(Render(cfg, routes), cfg, r)
  {
    var sorted := StableSort(routes, RouteLeq);
    SortMembers(routes, RouteLeq);
    var before, after := SitesSplit(cfg, sorted, r);
    ContainsParts(before, Site(cfg, r), after);
    SitesShow(cfg, routes, Site(cfg, r));
    SiteIsBlock(cfg, r);
    TlsIsMode(TrimSpace(r.hostname), cfg);
  }

  // ---------------------------------------------------------------- the whole file

  /** The last route in hostname order adds its block at the end; one without a name adds nothing. */
  lemma LastRouteShows(cfg: RenderConfig, routes: seq<Route>, r: Route, tls: string)
    requires KeyOrdered(routes + [r], RouteKey) && TlsMode(tls, TrimSpace(r.hostname), cfg)
    ensures Render(cfg, routes + [r]) ==
            Render(cfg, routes)
            + if TrimSpace(r.hostname) == "" then "" else Block(TrimSpace(r.hostname), tls, Number(r.localPort))
  {
    FrontOrdered(routes, r);
    RenderOrdered(cfg, routes + [r]);
    RenderOrdered(cfg, routes);
    SitesSnoc(cfg, routes, r);
    SiteShown(cfg, r, tls);
    Grouped(Header(cfg) + AuthSite(cfg), Sites(cfg, routes), Site(cfg, r));
  }

  lemma RenderOrdered(cfg: RenderConfig, routes: seq<Route>)
    requires KeyOrdered(routes, RouteKey)
    ensures Render(cfg, routes) == (Header(cfg) + AuthSite(cfg)) + Sites(cfg, routes)
  {
    SortedAlready(routes);
  }

  lemma Grouped(a: string, b: string, c: string)
    ensures a + (b + c) == (a + b) + c
  {}

  lemma SitesSnoc(cfg: RenderConfig, routes: seq<Route>, r: Route)
    ensures Sites(cfg, routes + [r]) == Sites(cfg, routes) + Site(cfg, r)
  {
    assert (routes + [r])[..|routes|] == routes;
  }

  lemma SiteShown(cfg: RenderConfig, r: Route, tls: string)
    requires TlsMode(tls, TrimSpace(r.hostname), cfg)
    ensures Site(cfg, r) == if TrimSpace(r.hostname) == "" then "" else Block(TrimSpace(r.hostname), tls, Number(r.localPort))
  {
    TlsIsMode(TrimSpace(r.hostname), cfg);
    if TrimSpace(r.hostname) != "" {
      SiteIsBlock(cfg, r);
    }
  }

  lemma FrontOrdered(routes: seq<Route>, r: Route)
    requires KeyOrdered(routes + [r], RouteKey)
    ensures KeyOrdered(routes, RouteKey)
  {
    forall i, j | 0 <= i < j < |routes| ensures Less(RouteKey(routes[i]), RouteKey(routes[j])) {
      assert (routes + [r])[i] == routes[i] && (routes + [r])[j] == routes[j];
    }
  }

  /** The e-mail line of the global block, when an address is set. */
  predicate EmailLine(line: string, cfg: RenderConfig) {
    line == if TrimSpace(cfg.acmeEmail) == "" then "" else "\temail " + TrimSpace(cfg.acmeEmail) + "\n"
  }

  /** The ask endpoint of on-demand certificates, when set. */
  predicate AskBlock(lines: string, cfg: RenderConfig) {
    lines == if TrimSpace(cfg.askUrl) == "" then "" else "\ton_demand_tls {\n" + "\t\task " + TrimSpace(cfg.askUrl) + "\n" + "\t}\n"
  }

  /** The login site: plain on port 8080 behind a Cloudflare tunnel, else under its own name; by default on port 9444. */
  predicate LoginSite(lines: string, cfg: RenderConfig) {
    var host := TrimDots(TrimSpace(cfg.authHostname));
    var address := if cfg.authIngressMode == "cloudflare" then "http://" + host + ":8080" else host;
    var upstream := if TrimSpace(cfg.upstream) != "" then TrimSpace(cfg.upstream) else "127.0.0.1:9444";
    lines == if host == "" then "" else address + " {\n\treverse_proxy " + upstream + "\n}\n"
  }

  /** Without routes the file is the global block and the login site. */
  lemma HeadShows(cfg: RenderConfig, email: string, ask: string, login: string)
    requires EmailLine(email, cfg) && AskBlock(ask, cfg) && LoginSite(login, cfg)
    ensures Render(cfg, []) == "{\n" + email + ask + "}\n\n" + login
  {}
}
