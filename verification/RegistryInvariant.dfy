/**
 The cross-table invariant of the reservation registry, and the proof that every run of zone, claim,
 release, garbage-collection and route steps keeps it.
 */
module RegistryInvariant {
  import opened Text
  import opened Names
  import opened Registry

  // ---------------------------------------------------------------- the invariant

  ghost predicate Registered(zones: seq<Zone>, zone: string) {
    exists z :: z in zones && z.name == zone
  }

  /** Zones may not nest, and each lies inside the Cloudflare zone recorded for it. */
  ghost predicate ZonesOk(zones: seq<Zone>) {
    && KeyOrdered(zones, ZoneKey)
    && (forall z :: z in zones ==> ValidName(z.name) && Under(z.name, z.cloudflareZone))
    && (forall a, b :: a in zones && b in zones && Related(a.name, b.name) ==> a == b)
  }

  ghost predicate ClaimRowOk(zones: seq<Zone>, c: Claim) {
    ValidName(c.domain) && Registered(zones, c.zone) && StrictlyUnder(c.domain, c.zone)
  }

  /** Project Domains form an antichain and each project holds at most one. */
  ghost predicate ClaimsOk(zones: seq<Zone>, claims: seq<Claim>) {
    && KeyOrdered(claims, ClaimKey)
    && (forall c :: c in claims ==> ClaimRowOk(zones, c))
    && (forall a, b :: a in claims && b in claims && Related(a.domain, b.domain) ==> a == b)
    && (forall a, b :: a in claims && b in claims && a.tenant == b.tenant && a.project == b.project ==> a == b)
  }

  ghost predicate HostnameRowOk(zones: seq<Zone>, h: Hostname) {
    ValidName(Base(h.hostname)) && Registered(zones, h.zone) && Under(h.hostname, h.zone)
  }

  /** The only related pairs: one machine, at least one wildcard, different bases. */
  ghost predicate MayCoexist(a: Hostname, b: Hostname) {
    Related(Base(a.hostname), Base(b.hostname)) ==>
      && a.tenant == b.tenant && a.project == b.project && a.machine == b.machine
      && (IsWildcard(a.hostname) || IsWildcard(b.hostname))
      && Base(a.hostname) != Base(b.hostname)
  }

  ghost predicate HostnamesOk(zones: seq<Zone>, hostnames: seq<Hostname>) {
    && KeyOrdered(hostnames, HostnameKey)
    && (forall h :: h in hostnames ==> HostnameRowOk(zones, h))
    && (forall a, b :: a in hostnames && b in hostnames && a != b ==> MayCoexist(a, b))
  }

  /** A hostname related to a Project Domain lies strictly under its own project's domain. */
  ghost predicate InsideOwnDomain(h: Hostname, c: Claim) {
    Related(Base(h.hostname), c.domain) ==>
      && StrictlyUnder(Base(h.hostname), c.domain)
      && h.tenant == c.tenant && h.project == c.project
      && h.hostname != h.machine + "." + c.domain
  }

  ghost predicate DomainsAndHostnamesOk(claims: seq<Claim>, hostnames: seq<Hostname>) {
    forall h, c :: h in hostnames && c in claims ==> InsideOwnDomain(h, c)
  }

  /** A name is free of every reservation: it lies at or under no domain and no hostname base. */
  ghost predicate Outside(t: Tables, name: string) {
    && (forall c :: c in t.claims ==> !Under(name, c.domain))
    && (forall h :: h in t.hostnames ==> !Under(name, Base(h.hostname)))
  }

  ghost predicate RouteNamesOk(t: Tables) {
    forall r :: r in t.routes && RouteName(r.hostname) != "" ==> Outside(t, RouteName(r.hostname))
  }

  ghost predicate RoutesOk(routes: seq<Route>) {
    && KeyOrdered(routes, RouteKey)
    && (forall r :: r in routes ==> LOCAL_PORT_BASE <= r.localPort < LOCAL_PORT_CEILING)
    && (forall a, b :: a in routes && b in routes && a.localPort == b.localPort ==> a == b)
  }

  ghost predicate InstallOk(install: Install, t: Tables) {
    forall n :: n in [install.authHostname, install.routeBase] && NormalizeHostname(n) != "" ==> Outside(t, NormalizeHostname(n))
  }

  ghost predicate Inv(install: Install, t: Tables) {
    && ZonesOk(t.zones)
    && ClaimsOk(t.zones, t.claims)
    && HostnamesOk(t.zones, t.hostnames)
    && DomainsAndHostnamesOk(t.claims, t.hostnames)
    && RoutesOk(t.routes)
    && RouteNamesOk(t)
    && InstallOk(install, t)
  }

  // ---------------------------------------------------------------- the covering zone

  /** At most one registered zone covers a name. */
  lemma OneCoveringZone(zones: seq<Zone>, name: string, a: Zone, b: Zone)
    requires ZonesOk(zones) && a in zones && b in zones && Under(name, a.name) && Under(name, b.name)
    ensures a == b
  {
    SuffixesComparable(name, a.name, b.name);
  }

  /** The longest-match loop returns a covering zone, or "" when no zone covers the name. */
  lemma {:induction false} CoveringZoneCovers(name: string, zones: seq<Zone>)
    requires forall z :: z in zones ==> z.name != ""
    ensures var found := CoveringZone(name, zones);
            && (found != "" ==> Registered(zones, found) && Under(name, found))
            && (found == "" ==> forall z :: z in zones ==> !Under(name, z.name))
  {
    if zones != [] {
      var front := zones[..|zones| - 1];
      CoveringZoneCovers(name, front);
      assert zones == front + [zones[|zones| - 1]];
      assert forall z :: z in zones <==> z in front || z == zones[|zones| - 1];
      var best := CoveringZone(name, front);
      if best != "" {
        var z :| z in front && z.name == best;
        assert z in zones;
      }
    }
  }

  lemma ZoneNamesNonEmpty(zones: seq<Zone>)
    requires ZonesOk(zones)
    ensures forall z :: z in zones ==> z.name != "" && '*' !in z.name
  {
    forall z | z in zones ensures z.name != "" && '*' !in z.name {
      ValidNameFixed(z.name);
    }
  }

  /** Under the antichain the loop's answer is the one covering zone, in whatever order they are listed. */
  lemma CoveringZoneAnyOrder(name: string, zones: seq<Zone>, listed: seq<Zone>)
    requires ZonesOk(zones) && multiset(listed) == multiset(zones)
    ensures CoveringZone(name, listed) == CoveringZone(name, zones)
    ensures forall z :: z in zones && Under(name, z.name) ==> CoveringZone(name, listed) == z.name
  {
    ZoneNamesNonEmpty(zones);
    forall z ensures z in listed <==> z in zones {
      assert z in multiset(listed) <==> z in multiset(zones);
    }
    CoveringZoneCovers(name, zones);
    CoveringZoneCovers(name, listed);
    forall a, b | a in zones && b in zones && Under(name, a.name) && Under(name, b.name) ensures a == b {
      OneCoveringZone(zones, name, a, b);
    }
  }

  // ---------------------------------------------------------------- zone steps

  /** What the Cloudflare resolution stores really contains the zone. */
  lemma StoredCloudflareZone(zone: string, visible: seq<CloudflareZone>)
    requires ValidName(zone) && ContainingCloudflareZone(zone, visible).Some?
    ensures Under(zone, CloudflareZoneOrSelf(zone, ContainingCloudflareZone(zone, visible).value.name))
  {
    var cf := ContainingCloudflareZone(zone, visible).value;
    assert cf in LongestContaining(zone, visible);
    SuffixOfValid(zone, cf.name);
    NameCharsFixed(cf.name);
  }

  lemma NewZoneKeeps(install: Install, t: Tables, row: Zone)
    requires Inv(install, t) && ValidName(row.name) && Under(row.name, row.cloudflareZone)
    requires forall z :: z in t.zones ==> !Related(row.name, z.name)
    ensures Inv(install, t.(zones := Insert(t.zones, row, ZoneKey)))
  {
    InsertOrdered(t.zones, row, ZoneKey);
    RegisteredMonotone(t, Insert(t.zones, row, ZoneKey));
  }

  lemma AddZoneKeeps(install: Install, t: Tables, rawZone: string, visible: seq<CloudflareZone>)
    requires Inv(install, t)
    ensures Inv(install, AddZone(t, rawZone, visible).0)
  {
    if NormalizeZone(rawZone).Some? {
      var zone := NormalizeZone(rawZone).value;
      if ZoneAddable(zone, t.zones).ZoneOk? && ContainingCloudflareZone(zone, visible).Some? {
        StoredCloudflareZone(zone, visible);
        var hits := HitsZone(zone);
        assert forall z :: z in t.zones ==> !hits(z);
        NewZoneKeeps(install, t, Zone(zone, CloudflareZoneOrSelf(zone, ContainingCloudflareZone(zone, visible).value.name)));
      }
    }
  }

  lemma RegisteredMonotone(t: Tables, zones: seq<Zone>)
    requires ClaimsOk(t.zones, t.claims) && HostnamesOk(t.zones, t.hostnames)
    requires forall z :: z in t.zones ==> Registered(zones, z.name)
    ensures ClaimsOk(zones, t.claims) && HostnamesOk(zones, t.hostnames)
  {
    forall zone | Registered(t.zones, zone) ensures Registered(zones, zone) {
      var z :| z in t.zones && z.name == zone;
    }
  }

  lemma SetZoneTokenKeeps(install: Install, t: Tables, rawZone: string, visible: seq<CloudflareZone>)
    requires Inv(install, t)
    ensures Inv(install, SetZoneToken(t, rawZone, visible).0)
  {
    var (t', outcome) := SetZoneToken(t, rawZone, visible);
    if outcome.ZoneOk? {
      var zone := NormalizeZone(rawZone).value;
      var cf := ContainingCloudflareZone(zone, visible).value;
      StoredCloudflareZone(zone, visible);
      forall z | z in t.zones ensures Registered(t'.zones, z.name) {
        var i :| 0 <= i < |t.zones| && t.zones[i] == z;
        assert t'.zones[i] in t'.zones && t'.zones[i].name == z.name;
      }
      RegisteredMonotone(t, t'.zones);
      RetokenedOk(t.zones, zone, CloudflareZoneOrSelf(zone, cf.name));
    }
  }

  lemma RetokenedOk(zones: seq<Zone>, zone: string, cloudflareZone: string)
    requires ZonesOk(zones) && Under(zone, cloudflareZone)
    ensures ZonesOk(Retokened(zone, cloudflareZone, zones))
  {
    var r := Retokened(zone, cloudflareZone, zones);
    forall a, b | a in r && b in r && Related(a.name, b.name) ensures a == b {
      var i :| 0 <= i < |r| && r[i] == a;
      var j :| 0 <= j < |r| && r[j] == b;
      assert zones[i] in zones && zones[j] in zones;
    }
    forall a | a in r ensures ValidName(a.name) && Under(a.name, a.cloudflareZone) {
      var i :| 0 <= i < |r| && r[i] == a;
      assert zones[i] in zones;
    }
  }

  lemma RemoveZoneKeeps(install: Install, t: Tables, rawZone: string)
    requires Inv(install, t)
    ensures Inv(install, RemoveZone(t, rawZone).0)
  {
    var (t', outcome) := RemoveZone(t, rawZone);
    if outcome.ZoneOk? {
      var zone := NormalizeZone(rawZone).value;
      FilterOrdered(t.zones, NotZone(zone), ZoneKey);
      forall other | Registered(t.zones, other) && other != zone ensures Registered(t'.zones, other) {
        var z :| z in t.zones && z.name == other;
        assert z in t'.zones;
      }
    }
  }

  // ---------------------------------------------------------------- steps that only drop rows

  lemma DropClaimsKeeps(install: Install, t: Tables, keep: Claim -> bool)
    requires Inv(install, t)
    ensures Inv(install, t.(claims := Filter(t.claims, keep)))
  {
    FilterOrdered(t.claims, keep, ClaimKey);
  }

  lemma DropHostnamesKeeps(install: Install, t: Tables, keep: Hostname -> bool)
    requires Inv(install, t)
    ensures Inv(install, t.(hostnames := Filter(t.hostnames, keep)))
  {
    FilterOrdered(t.hostnames, keep, HostnameKey);
  }

  lemma DropRoutesKeeps(install: Install, t: Tables, keep: Route -> bool)
    requires Inv(install, t)
    ensures Inv(install, t.(routes := Filter(t.routes, keep)))
  {
    FilterOrdered(t.routes, keep, RouteKey);
  }

  // ---------------------------------------------------------------- Project Domain claims

  ghost predicate InstallClear(install: Install, d: string) {
    forall n :: n in [install.authHostname, install.routeBase] && NormalizeHostname(n) != "" ==> !Under(NormalizeHostname(n), d)
  }

  ghost predicate RoutesClear(routes: seq<Route>, d: string) {
    forall r :: r in routes && RouteName(r.hostname) != "" ==> !Under(RouteName(r.hostname), d)
  }

  ghost predicate ForeignClaimsClear(claims: seq<Claim>, d: string, tenant: string, project: string) {
    forall c :: c in claims && !(c.tenant == tenant && c.project == project) ==> !Related(c.domain, d)
  }

  ghost predicate HostnamesClear(hostnames: seq<Hostname>, d: string) {
    forall h :: h in hostnames ==> !Related(Base(h.hostname), d)
  }

  /** A domain is free for a project: what the scan promises, without the order of the scan. */
  ghost predicate DomainFree(install: Install, t: Tables, d: string, tenant: string, project: string) {
    && InstallClear(install, d)
    && RoutesClear(t.routes, d)
    && ForeignClaimsClear(t.claims, d, tenant, project)
    && HostnamesClear(t.hostnames, d)
  }

  lemma InstallScanExact(install: Install, d: string)
    ensures First(InstallNames(install), HitsInstallName(d)).None? <==> InstallClear(install, d)
  {
    var hit := HitsInstallName(d);
    assert First(InstallNames(install), hit).None? <==> forall n :: n in InstallNames(install) ==> !hit(n);
  }

  lemma RouteScanExact(routes: seq<Route>, d: string)
    ensures First(routes, HitsRoute(d)).None? <==> RoutesClear(routes, d)
  {
    var hit := HitsRoute(d);
    assert First(routes, hit).None? <==> forall r :: r in routes ==> !hit(r);
  }

  lemma ForeignClaimScanExact(claims: seq<Claim>, d: string, tenant: string, project: string)
    ensures First(claims, HitsForeignClaim(d, tenant, project)).None? <==> ForeignClaimsClear(claims, d, tenant, project)
  {
    var hit := HitsForeignClaim(d, tenant, project);
    assert First(claims, hit).None? <==> forall c :: c in claims ==> !hit(c);
  }

  lemma HostnamesScanExact(hostnames: seq<Hostname>, d: string)
    ensures First(hostnames, HitsHostname(d)).None? <==> HostnamesClear(hostnames, d)
  {
    var hit := HitsHostname(d);
    assert First(hostnames, hit).None? <==> forall h :: h in hostnames ==> !hit(h);
  }

  lemma DomainScanExact(install: Install, t: Tables, d: string, tenant: string, project: string)
    ensures DomainScan(install, t, d, tenant, project).None? <==> DomainFree(install, t, d, tenant, project)
  {
    InstallScanExact(install, d);
    RouteScanExact(t.routes, d);
    ForeignClaimScanExact(t.claims, d, tenant, project);
    HostnamesScanExact(t.hostnames, d);
  }

  /** Adding one free claim to the other projects' claims keeps the invariant. */
  lemma NewClaimKeeps(install: Install, t: Tables, others: seq<Claim>, claim: Claim)
    requires Inv(install, t)
    requires KeyOrdered(others, ClaimKey) && forall c :: c in others ==> c in t.claims
    requires forall c :: c in others ==> !(c.tenant == claim.tenant && c.project == claim.project)
    requires DomainFree(install, t, claim.domain, claim.tenant, claim.project)
    requires ClaimRowOk(t.zones, claim)
    ensures forall c :: c in others ==> !Related(c.domain, claim.domain)
    ensures Inv(install, t.(claims := Insert(others, claim, ClaimKey)))
  {
    forall c | c in others ensures !Related(c.domain, claim.domain) {}
    InsertOrdered(others, claim, ClaimKey);
    var claims := Insert(others, claim, ClaimKey);
    assert ClaimsOk(t.zones, claims);
    assert DomainsAndHostnamesOk(claims, t.hostnames);
  }

  /** The row a validated claim would store. */
  lemma ValidDomainRow(install: Install, t: Tables, norm: string)
    requires Inv(install, t) && ValidName(norm)
    requires ValidateProjectDomain(norm, t.zones).None?
    ensures Registered(t.zones, CoveringZone(norm, t.zones)) && StrictlyUnder(norm, CoveringZone(norm, t.zones))
  {
    ZoneNamesNonEmpty(t.zones);
    CoveringZoneCovers(norm, t.zones);
  }

  lemma AdmitDomainKeeps(install: Install, t: Tables, claim: Claim, dryRun: bool)
    requires Inv(install, t) && ClaimRowOk(t.zones, claim)
    ensures Inv(install, AdmitDomain(install, t, claim, dryRun).0)
    ensures AdmitDomain(install, t, claim, dryRun).1 != DomainRefused(InsertConflict)
  {
    if DomainScan(install, t, claim.domain, claim.tenant, claim.project).None? {
      DomainScanExact(install, t, claim.domain, claim.tenant, claim.project);
      var others := OtherClaims(install, t, claim);
      NewClaimKeeps(install, t, others, claim);
      AdmittedDomain(install, t, claim, others, dryRun);
    }
  }

  /** A claim that passed the scan is inserted beside the other projects' claims. */
  lemma AdmittedDomain(install: Install, t: Tables, claim: Claim, others: seq<Claim>, dryRun: bool)
    requires DomainScan(install, t, claim.domain, claim.tenant, claim.project).None?
    requires others == Filter(t.claims, NotOwnedBy(claim.tenant, claim.project))
    requires First(t.claims, OwnedBy(claim.tenant, claim.project)).None? ==> others == t.claims
    requires forall c :: c in others ==> !Related(c.domain, claim.domain)
    ensures var previous := First(t.claims, OwnedBy(claim.tenant, claim.project));
            AdmitDomain(install, t, claim, dryRun) ==
            if previous.Some? && previous.value.domain == claim.domain then (t, AlreadyClaimed(previous.value))
            else (if dryRun then t else t.(claims := Insert(others, claim, ClaimKey)), Claimed(claim, previous))
  {
    assert InsertClaim(others, claim) == Some(Insert(others, claim, ClaimKey)) by {
      forall c | c in others
        ensures !(c.domain == claim.domain || (c.tenant == claim.tenant && c.project == claim.project)) {}
    }
  }

  /** The rows the insert of a claim runs against: every claim but the project's own. */
  lemma OtherClaims(install: Install, t: Tables, claim: Claim) returns (others: seq<Claim>)
    requires Inv(install, t)
    ensures others == Filter(t.claims, NotOwnedBy(claim.tenant, claim.project))
    ensures KeyOrdered(others, ClaimKey)
    ensures forall c :: c in others <==> c in t.claims && !(c.tenant == claim.tenant && c.project == claim.project)
    ensures First(t.claims, OwnedBy(claim.tenant, claim.project)).None? ==> others == t.claims
  {
    var owned, kept := OwnedBy(claim.tenant, claim.project), NotOwnedBy(claim.tenant, claim.project);
    others := Filter(t.claims, kept);
    FilterOrdered(t.claims, kept, ClaimKey);
    if First(t.claims, owned).None? {
      forall c | c in t.claims ensures kept(c) {
        assert !owned(c);
      }
      FilterAll(t.claims, kept);
    }
  }

  lemma ClaimDomainKeeps(install: Install, t: Tables, req: DomainRequest, now: int)
    requires Inv(install, t)
    ensures Inv(install, ClaimDomain(install, t, req, now).0)
    ensures ClaimDomain(install, t, req, now).1 != DomainRefused(InsertConflict)
  {
    if NormalizeName(req.domain).Some? {
      var norm := NormalizeName(req.domain).value;
      if ValidateProjectDomain(norm, t.zones).None? {
        ValidDomainRow(install, t, norm);
        var claim := Claim(norm, TrimSpace(req.tenant), TrimSpace(req.project), CoveringZone(norm, t.zones),
                           TrimSpace(req.userKey), now);
        AdmitDomainKeeps(install, t, claim, req.dryRun);
      }
    }
  }

  // ---------------------------------------------------------------- machine hostnames

  /** Every Project Domain related to the row's name is the row's own project's, strictly above it. */
  ghost predicate DomainsAllow(claims: seq<Claim>, row: Hostname) {
    forall c :: c in claims ==> InsideOwnDomain(row, c)
  }

  ghost predicate HostnamesAllow(hostnames: seq<Hostname>, row: Hostname) {
    forall h :: h in hostnames ==> MayCoexist(row, h)
  }

  /** A hostname is free for a machine, stated on the unfiltered tables. */
  ghost predicate HostnameFree(install: Install, t: Tables, row: Hostname) {
    && InstallClear(install, Base(row.hostname))
    && RoutesClear(t.routes, Base(row.hostname))
    && DomainsAllow(t.claims, row)
    && HostnamesAllow(t.hostnames, row)
  }

  lemma HostnameScanExact(install: Install, t: Tables, row: Hostname)
    requires First(t.claims, DerivesName(row.hostname, row.tenant, row.project, row.machine)).None?
    ensures HostnameClash(install, t, row).None? <==> HostnameFree(install, t, row)
  {
    InstallScanExact(install, Base(row.hostname));
    RouteScanExact(t.routes, Base(row.hostname));
    BlockingClaims(t.claims, row);
    BlockingHostnames(t.hostnames, row);
  }

  lemma BlockingClaims(claims: seq<Claim>, row: Hostname)
    requires First(claims, DerivesName(row.hostname, row.tenant, row.project, row.machine)).None?
    ensures First(Filter(claims, BlockingClaim(row.hostname, row.tenant, row.project)), HitsClaim(Base(row.hostname))).None?
            <==> DomainsAllow(claims, row)
  {
    var derives := DerivesName(row.hostname, row.tenant, row.project, row.machine);
    var blocking, hit := BlockingClaim(row.hostname, row.tenant, row.project), HitsClaim(Base(row.hostname));
    var filtered := Filter(claims, blocking);
    assert First(filtered, hit).None? <==> forall c :: c in filtered ==> !hit(c);
    forall c | c in claims ensures InsideOwnDomain(row, c) <==> !(blocking(c) && hit(c)) {
      assert !derives(c);
    }
  }

  lemma BlockingHostnames(hostnames: seq<Hostname>, row: Hostname)
    ensures First(Filter(hostnames, BlockingHostname(row.hostname, row.tenant, row.project, row.machine)),
                  HitsHostname(Base(row.hostname))).None?
            <==> HostnamesAllow(hostnames, row)
  {
    var blocking := BlockingHostname(row.hostname, row.tenant, row.project, row.machine);
    var hit := HitsHostname(Base(row.hostname));
    var filtered := Filter(hostnames, blocking);
    assert First(filtered, hit).None? <==> forall h :: h in filtered ==> !hit(h);
    forall h | h in hostnames ensures MayCoexist(row, h) <==> !(blocking(h) && hit(h)) {}
  }

  lemma NewHostnameKeeps(install: Install, t: Tables, row: Hostname)
    requires Inv(install, t)
    requires HostnameFree(install, t, row) && HostnameRowOk(t.zones, row)
    ensures forall h :: h in t.hostnames ==> h.hostname != row.hostname
    ensures Inv(install, t.(hostnames := Insert(t.hostnames, row, HostnameKey)))
  {
    forall h | h in t.hostnames ensures h.hostname != row.hostname {
      assert MayCoexist(row, h);
    }
    InsertOrdered(t.hostnames, row, HostnameKey);
    var hostnames := Insert(t.hostnames, row, HostnameKey);
    forall a, b | a in hostnames && b in hostnames && a != b ensures MayCoexist(a, b) {
      if a == row {
        assert MayCoexist(row, b);
      } else if b == row {
        assert MayCoexist(row, a);
      }
    }
    assert HostnamesOk(t.zones, hostnames);
  }

  lemma AdmitHostnameKeeps(install: Install, t: Tables, row: Hostname, tunnel: Option<string>, dryRun: bool)
    requires Inv(install, t) && HostnameRowOk(t.zones, row)
    ensures Inv(install, AdmitHostname(install, t, row, tunnel, dryRun).0)
    ensures AdmitHostname(install, t, row, tunnel, dryRun).1 != HostnameRefused(InsertConflict)
  {
    if First(t.claims, DerivesName(row.hostname, row.tenant, row.project, row.machine)).None? {
      HostnameScanExact(install, t, row);
      if HostnameFree(install, t, row) {
        NewHostnameKeeps(install, t, row);
      }
    }
  }

  lemma ClaimHostnameKeeps(install: Install, t: Tables, req: HostnameRequest, tunnel: Option<string>, now: int)
    requires Inv(install, t)
    ensures Inv(install, ClaimHostname(install, t, req, tunnel, now).0)
    ensures ClaimHostname(install, t, req, tunnel, now).1 != HostnameRefused(InsertConflict)
  {
    if NormalizeMachineHostname(req.hostname).Some? {
      var norm := NormalizeMachineHostname(req.hostname).value;
      var zone := CoveringZone(norm, t.zones);
      if zone != "" {
        ZoneNamesNonEmpty(t.zones);
        CoveringZoneCovers(norm, t.zones);
        var row := Hostname(norm, TrimSpace(req.tenant), TrimSpace(req.project), TrimSpace(req.machine), zone,
                            TrimSpace(req.userKey), now);
        AdmitHostnameKeeps(install, t, row, tunnel, req.dryRun);
      }
    }
  }

  // ---------------------------------------------------------------- routes

  lemma RouteInsideExact(t: Tables, stored: string)
    ensures RouteInside(t, stored).None? <==> (RouteName(stored) != "" ==> Outside(t, RouteName(stored)))
  {
    var name := RouteName(stored);
    var claimHit, hostnameHit := CoversRoute(name), HostnameCoversRoute(name);
    assert First(t.claims, claimHit).None? <==> forall c :: c in t.claims ==> !claimHit(c);
    assert First(t.hostnames, hostnameHit).None? <==> forall h :: h in t.hostnames ==> !hostnameHit(h);
  }

  lemma NewRouteKeeps(install: Install, t: Tables, row: Route)
    requires Inv(install, t)
    requires RouteName(row.hostname) != "" ==> Outside(t, RouteName(row.hostname))
    requires forall r :: r in t.routes ==> r.hostname != row.hostname && r.localPort != row.localPort
    requires LOCAL_PORT_BASE <= row.localPort < LOCAL_PORT_CEILING
    ensures Inv(install, t.(routes := Insert(t.routes, row, RouteKey)))
  {
    InsertOrdered(t.routes, row, RouteKey);
    assert RoutesOk(Insert(t.routes, row, RouteKey));
    assert RouteNamesOk(t.(routes := Insert(t.routes, row, RouteKey)));
  }

  lemma AdmitRouteKeeps(install: Install, t: Tables, row: Route)
    requires Inv(install, t)
    ensures Inv(install, AdmitRoute(t, row).0)
  {
    RouteInsideExact(t, row.hostname);
    var port := FreePort(t.routes, LOCAL_PORT_BASE);
    if RouteInside(t, row.hostname).None? && port.Some? && forall r :: r in t.routes ==> r.hostname != row.hostname {
      forall r | r in t.routes ensures r.localPort != port.value {
        assert !PortUsed(t.routes, port.value);
      }
      NewRouteKeeps(install, t, row.(localPort := port.value));
    }
  }

  lemma UpsertRouteKeeps(install: Install, t: Tables, request: Route, now: int)
    requires Inv(install, t)
    ensures Inv(install, UpsertRoute(t, request, now).0)
  {
    var row := request.(hostname := NormalizeHostname(request.hostname), tenant := TrimSpace(request.tenant),
                        project := TrimSpace(request.project), machine := TrimSpace(request.machine),
                        createdAt := now);
    AdmitRouteKeeps(install, t, row);
  }

  // ---------------------------------------------------------------- runs

  /** Every step of the registry except the unscanned compensation insert. */
  datatype Step =
    | AddZoneStep(zone: string, visible: seq<CloudflareZone>)
    | SetZoneTokenStep(zone: string, visible: seq<CloudflareZone>)
    | RemoveZoneStep(zone: string)
    | ClaimDomainStep(domainRequest: DomainRequest, now: int)
    | ReleaseDomainStep(tenant: string, project: string)
    | GcDomainsStep(live: LiveProjects)
    | ClaimHostnameStep(hostnameRequest: HostnameRequest, tunnel: Option<string>, now: int)
    | ReleaseHostnameStep(tenant: string, project: string, machine: string, hostname: string)
    | ReleaseProjectStep(tenant: string, project: string)
    | GcHostnamesStep(live: LiveProjects, machines: Option<set<string>>)
    | UpsertRouteStep(route: Route, now: int)
    | DeleteRouteStep(hostname: string, tenant: string)
    | PruneRouteStep(hostname: string)

  function Apply(install: Install, t: Tables, step: Step): Tables {
    match step
    case AddZoneStep(zone, visible) => AddZone(t, zone, visible).0
    case SetZoneTokenStep(zone, visible) => SetZoneToken(t, zone, visible).0
    case RemoveZoneStep(zone) => RemoveZone(t, zone).0
    case ClaimDomainStep(req, now) => ClaimDomain(install, t, req, now).0
    case ReleaseDomainStep(tenant, project) => ReleaseDomain(t, tenant, project).0
    case GcDomainsStep(live) => GcDomains(t, live).0
    case ClaimHostnameStep(req, tunnel, now) => ClaimHostname(install, t, req, tunnel, now).0
    case ReleaseHostnameStep(tenant, project, machine, hostname) => ReleaseHostname(t, tenant, project, machine, hostname).0
    case ReleaseProjectStep(tenant, project) => ReleaseHostnamesOfProject(t, tenant, project).0
    case GcHostnamesStep(live, machines) => GcHostnames(t, live, machines).0
    case UpsertRouteStep(route, now) => UpsertRoute(t, route, now).0
    case DeleteRouteStep(hostname, tenant) => DeleteRoute(t, hostname, tenant).0
    case PruneRouteStep(hostname) => PruneRoute(t, hostname)
  }

  function Run(install: Install, t: Tables, steps: seq<Step>): Tables
    decreases |steps|
  {
    if steps == [] then t else Run(install, Apply(install, t, steps[0]), steps[1..])
  }

  const NO_ROWS := Tables([], [], [], [])

  lemma ReleaseDomainKeeps(install: Install, t: Tables, tenant: string, project: string)
    requires Inv(install, t)
    ensures Inv(install, ReleaseDomain(t, tenant, project).0)
  {
    var held := First(t.claims, OwnedBy(TrimSpace(tenant), TrimSpace(project)));
    if held.Some? {
      DropClaimsKeeps(install, t, NotOwnedBy(held.value.tenant, held.value.project));
    }
  }

  lemma ReleaseHostnameKeeps(install: Install, t: Tables, tenant: string, project: string, machine: string, hostname: string)
    requires Inv(install, t)
    ensures Inv(install, ReleaseHostname(t, tenant, project, machine, hostname).0)
  {
    if NormalizeMachineHostname(hostname).Some? {
      DropHostnamesKeeps(install, t, NotHostname(NormalizeMachineHostname(hostname).value));
    }
  }

  lemma GcDomainsKeeps(install: Install, t: Tables, live: LiveProjects)
    requires Inv(install, t)
    ensures Inv(install, GcDomains(t, live).0)
  {
    DropClaimsKeeps(install, t, ClaimLive(live));
  }

  lemma ReleaseProjectKeeps(install: Install, t: Tables, tenant: string, project: string)
    requires Inv(install, t)
    ensures Inv(install, ReleaseHostnamesOfProject(t, tenant, project).0)
  {
    DropHostnamesKeeps(install, t, OutsideProject(tenant, project));
  }

  lemma GcHostnamesKeeps(install: Install, t: Tables, live: LiveProjects, machines: Option<set<string>>)
    requires Inv(install, t)
    ensures Inv(install, GcHostnames(t, live, machines).0)
  {
    DropHostnamesKeeps(install, t, HostnameLive(live, machines));
  }

  lemma DeleteRouteKeeps(install: Install, t: Tables, hostname: string, tenant: string)
    requires Inv(install, t)
    ensures Inv(install, DeleteRoute(t, hostname, tenant).0)
  {
    DropRoutesKeeps(install, t, NotRoute(NormalizeHostname(hostname)));
  }

  lemma PruneRouteKeeps(install: Install, t: Tables, hostname: string)
    requires Inv(install, t)
    ensures Inv(install, PruneRoute(t, hostname))
  {
    DropRoutesKeeps(install, t, NotRoute(NormalizeHostname(hostname)));
  }

  lemma ZoneStepKeeps(install: Install, t: Tables, step: Step)
    requires Inv(install, t) && (step.AddZoneStep? || step.SetZoneTokenStep? || step.RemoveZoneStep?)
    ensures Inv(install, Apply(install, t, step))
  {
    match step
    case AddZoneStep(zone, visible) => AddZoneKeeps(install, t, zone, visible);
    case SetZoneTokenStep(zone, visible) => SetZoneTokenKeeps(install, t, zone, visible);
    case RemoveZoneStep(zone) => RemoveZoneKeeps(install, t, zone);
  }

  lemma DomainStepKeeps(install: Install, t: Tables, step: Step)
    requires Inv(install, t) && (step.ClaimDomainStep? || step.ReleaseDomainStep? || step.GcDomainsStep?)
    ensures Inv(install, Apply(install, t, step))
  {
    match step
    case ClaimDomainStep(req, now) => ClaimDomainKeeps(install, t, req, now);
    case ReleaseDomainStep(tenant, project) => ReleaseDomainKeeps(install, t, tenant, project);
    case GcDomainsStep(live) => GcDomainsKeeps(install, t, live);
  }

  lemma HostnameStepKeeps(install: Install, t: Tables, step: Step)
    requires Inv(install, t)
    requires step.ClaimHostnameStep? || step.ReleaseHostnameStep? || step.ReleaseProjectStep? || step.GcHostnamesStep?
    ensures Inv(install, Apply(install, t, step))
  {
    match step
    case ClaimHostnameStep(req, tunnel, now) => ClaimHostnameKeeps(install, t, req, tunnel, now);
    case ReleaseHostnameStep(tenant, project, machine, hostname) =>
      ReleaseHostnameKeeps(install, t, tenant, project, machine, hostname);
    case ReleaseProjectStep(tenant, project) => ReleaseProjectKeeps(install, t, tenant, project);
    case GcHostnamesStep(live, machines) => GcHostnamesKeeps(install, t, live, machines);
  }

  lemma RouteStepKeeps(install: Install, t: Tables, step: Step)
    requires Inv(install, t) && (step.UpsertRouteStep? || step.DeleteRouteStep? || step.PruneRouteStep?)
    ensures Inv(install, Apply(install, t, step))
  {
    match step
    case UpsertRouteStep(route, now) => UpsertRouteKeeps(install, t, route, now);
    case DeleteRouteStep(hostname, tenant) => DeleteRouteKeeps(install, t, hostname, tenant);
    case PruneRouteStep(hostname) => PruneRouteKeeps(install, t, hostname);
  }

  lemma StepKeeps(install: Install, t: Tables, step: Step)
    requires Inv(install, t)
    ensures Inv(install, Apply(install, t, step))
  {
    if step.AddZoneStep? || step.SetZoneTokenStep? || step.RemoveZoneStep? {
      ZoneStepKeeps(install, t, step);
    } else if step.ClaimDomainStep? || step.ReleaseDomainStep? || step.GcDomainsStep? {
      DomainStepKeeps(install, t, step);
    } else if step.UpsertRouteStep? || step.DeleteRouteStep? || step.PruneRouteStep? {
      RouteStepKeeps(install, t, step);
    } else {
      HostnameStepKeeps(install, t, step);
    }
  }

  /** Main theorem: every reachable registry satisfies the invariant. */
  lemma {:induction false} RunKeeps(install: Install, t: Tables, steps: seq<Step>)
    requires Inv(install, t)
    ensures Inv(install, Run(install, t, steps))
    decreases |steps|
  {
    if steps != [] {
      StepKeeps(install, t, steps[0]);
      RunKeeps(install, Apply(install, t, steps[0]), steps[1..]);
    }
  }

  lemma ReachableInv(install: Install, steps: seq<Step>)
    ensures Inv(install, Run(install, NO_ROWS, steps))
  {
    RunKeeps(install, NO_ROWS, steps);
  }
}
