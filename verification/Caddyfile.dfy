/**
 The appliance Caddyfile: a global block, the Auth Hostname's site, and one site per Public Route in
 hostname order.
 */
module Caddyfile {
  import opened Text
  import opened Names
  import opened Registry

  datatype RenderConfig = RenderConfig(
    authHostname: string, authIngressMode: string, acmeEmail: string, upstream: string, askUrl: string,
    routeTls: string, routeDnsProvider: string, routeDnsWildcards: seq<string>)

  const LOOPBACK_UPSTREAM := "127.0.0.1:9444"
  const CLOUDFLARE := "cloudflare"
  const TOKEN_ENV := "SANDCASTLE_ROUTE_DNS_CLOUDFLARE_API_TOKEN"

  // ---------------------------------------------------------------- pieces

  function Decimal(n: nat): string {
    if n < 10 then [('0' as int + n) as char] else Decimal(n / 10) + [('0' as int + n % 10) as char]
  }

  /** `%d`. */
  function Number(n: int): string {
    if n < 0 then "-" + Decimal(-n) else Decimal(n)
  }

  function Header(cfg: RenderConfig): string {
    var email, ask := TrimSpace(cfg.acmeEmail), TrimSpace(cfg.askUrl);
    "{\n"
    + (if email != "" then "\temail " + email + "\n" else "")
    + (if ask != "" then "\ton_demand_tls {\n" + "\t\task " + ask + "\n" + "\t}\n" else "")
    + "}\n\n"
  }

  function AuthSite(cfg: RenderConfig): string {
    var host := TrimDots(TrimSpace(cfg.authHostname));
    var upstream := if TrimSpace(cfg.upstream) == "" then LOOPBACK_UPSTREAM else TrimSpace(cfg.upstream);
    if host == "" then ""
    else (if cfg.authIngressMode == CLOUDFLARE then "http://" + host + ":8080" else host)
         + " {\n\treverse_proxy " + upstream + "\n}\n"
  }

  /** `routeUsesDNS01`: a leading wildcard the operator authorized. */
  predicate UsesDns01(host: string, cfg: RenderConfig) {
    cfg.routeDnsProvider == CLOUDFLARE && IsWildcard(host) && FoldWildcard(host) in cfg.routeDnsWildcards
  }

  function FoldWildcard(hostname: string): string {
    Lower(TrimSuffix(TrimSpace(hostname), "."))
  }

  function Tls(host: string, cfg: RenderConfig): string {
    if cfg.routeTls == "internal" then "\ttls internal\n"
    else if UsesDns01(host, cfg) then "\ttls {\n\t\tdns cloudflare {env." + TOKEN_ENV + "}\n\t}\n"
    else "\ttls {\n\t\ton_demand\n\t}\n"
  }

  function Site(cfg: RenderConfig, r: Route): string {
    var host := TrimSpace(r.hostname);
    if host == "" then ""
    else "\n" + host + " {\n" + Tls(host, cfg) + "\treverse_proxy 127.0.0.1:" + Number(r.localPort) + "\n" + "}\n"
  }

  function Sites(cfg: RenderConfig, routes: seq<Route>): string {
    if routes == [] then "" else Sites(cfg, routes[..|routes| - 1]) + Site(cfg, routes[|routes| - 1])
  }

  // ---------------------------------------------------------------- rendering

  function RouteLeq(a: Route, b: Route): bool { LessEq(a.hostname, b.hostname) }

  function Render(cfg: RenderConfig, routes: seq<Route>): string {
    Header(cfg) + AuthSite(cfg) + Sites(cfg, StableSort(routes, RouteLeq))
  }

  /** `RenderCaddyfile`. */
  method RenderCaddyfile(cfg: RenderConfig, routes: seq<Route>) returns (text: string)
    ensures text == Render(cfg, routes)
  {
    var upstream := TrimSpace(cfg.upstream);
    if upstream == "" {
      upstream := LOOPBACK_UPSTREAM;
    }
    text := Header(cfg);
    var host := TrimDots(TrimSpace(cfg.authHostname));
    if host != "" {
      if cfg.authIngressMode == CLOUDFLARE {
        text := text + ("http://" + host + ":8080" + " {\n\treverse_proxy " + upstream + "\n}\n");
      } else {
        text := text + (host + " {\n\treverse_proxy " + upstream + "\n}\n");
      }
    }
    assert text == Header(cfg) + AuthSite(cfg);
    var sites := RenderSites(cfg, StableSort(routes, RouteLeq));
    text := text + sites;
  }

  method RenderSites(cfg: RenderConfig, sorted: seq<Route>) returns (text: string)
    ensures text == Sites(cfg, sorted)
  {
    text := "";
    for i := 0 to |sorted|
      invariant text == Sites(cfg, sorted[..i])
    {
      assert sorted[..i + 1][..i] == sorted[..i];
      var host := TrimSpace(sorted[i].hostname);
      if host == "" {
        assert Site(cfg, sorted[i]) == "";
        continue;
      }
      text := text + ("\n" + host + " {\n" + Tls(host, cfg) + "\treverse_proxy 127.0.0.1:" + Number(sorted[i].localPort) + "\n"
                      + "}\n");
    }
    assert sorted[..|sorted|] == sorted;
  }

  // ---------------------------------------------------------------- row order

  /** The Caddyfile depends on which routes there are, not on the order they are listed in. */
  lemma RenderAnyOrder(cfg: RenderConfig, a: seq<Route>, b: seq<Route>)
    requires DistinctKeys(a, RouteKey) && DistinctKeys(b, RouteKey) && forall r :: r in a <==> r in b
    ensures Render(cfg, a) == Render(cfg, b)
  {
    SortKeyOrdered(a, RouteLeq, RouteKey);
    SortKeyOrdered(b, RouteLeq, RouteKey);
    OrderedListingUnique(StableSort(a, RouteLeq), StableSort(b, RouteLeq), RouteKey);
  }

  // ---------------------------------------------------------------- authorized wildcards

  /** `normalizeRouteDNSWildcards`: every folded, non-empty hostname once. */
  method NormalizeWildcards(hostnames: seq<string>) returns (out: seq<string>)
    ensures NoRepeats(out)
    ensures forall x :: x in out <==> x != "" && exists h :: h in hostnames && FoldWildcard(h) == x
  {
    out := [];
    for i := 0 to |hostnames|
      invariant NoRepeats(out)
      invariant forall x :: x in out <==> x != "" && exists j :: 0 <= j < i && FoldWildcard(hostnames[j]) == x
    {
      var folded := FoldWildcard(hostnames[i]);
      if folded == "" || folded in out {
        continue;
      }
      out := out + [folded];
    }
    forall x ensures x in out <==> x != "" && exists h :: h in hostnames && FoldWildcard(h) == x {
      if j :| 0 <= j < |hostnames| && FoldWildcard(hostnames[j]) == x {
        assert hostnames[j] in hostnames;
      }
    }
  }
}
