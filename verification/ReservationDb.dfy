/**
 The registry calls in the form the Auth App runs them: loops over listings that stop at the first
 conflict, filters that rebuild a snapshot, and statements that insert or delete rows. Each method is
 proved to compute the step of the same name in module Registry.
 */
module ReservationDbs {
  import opened Text
  import opened Names
  import opened Registry
  import opened RegistryInvariant
  import opened RegistryTheorems
  import opened ProjectCreation

  // ---------------------------------------------------------------- read-only loops

  /** `containingCloudflareZone`. */
  method FindContaining(zone: string, visible: seq<CloudflareZone>) returns (r: Option<CloudflareZone>)
    ensures r == ContainingCloudflareZone(zone, visible)
    ensures r.Some? ==> Under(zone, r.value.name) && r.value.name != ""
  {
    var best: seq<CloudflareZone> := [];
    for i := 0 to |visible|
      invariant best == LongestContaining(zone, visible[..i])
    {
      assert visible[..i + 1][..i] == visible[..i];
      var name := FoldName(visible[i].name);
      if name == "" || (name != zone && !HasSuffix(zone, "." + name)) {
        continue;
      }
      var candidate := visible[i].(name := name);
      if best == [] || |name| > |best[0].name| {
        best := [candidate];
      } else if |name| == |best[0].name| {
        best := best + [candidate];
      }
    }
    assert visible[..|visible|] == visible;
    r := if |best| == 1 then Some(best[0]) else None;
    assert r.Some? ==> r.value in best;
  }

  /** The longest-match zone lookup of both validations. */
  method FindZone(name: string, zones: seq<Zone>) returns (zone: string)
    ensures zone == CoveringZone(name, zones)
  {
    zone := "";
    for i := 0 to |zones|
      invariant zone == CoveringZone(name, zones[..i])
    {
      assert zones[..i + 1][..i] == zones[..i];
      var candidate := zones[i].name;
      if name == candidate || HasSuffix(name, "." + candidate) {
        if |candidate| > |zone| {
          zone := candidate;
        }
      }
    }
    assert zones[..|zones|] == zones;
  }

  method ScanInstallNames(install: Install, d: string) returns (r: Option<Conflict>)
    ensures r == match First(InstallNames(install), HitsInstallName(d))
                 case Some(n) => Some(Conflict(InstallClash, NormalizeHostname(n), "", "", false))
                 case None => None
  {
    var names := InstallNames(install);
    for i := 0 to |names|
      invariant First(names[..i], HitsInstallName(d)).None?
    {
      FirstAt(names, i, HitsInstallName(d));
      var reserved := NormalizeHostname(names[i]);
      if reserved != "" && (reserved == d || HasSuffix(reserved, "." + d)) {
        return Some(Conflict(InstallClash, reserved, "", "", false));
      }
    }
    assert names[..|names|] == names;
    return None;
  }

  method ScanRoutes(routes: seq<Route>, d: string) returns (r: Option<Conflict>)
    ensures r == match First(routes, HitsRoute(d))
                 case Some(route) => Some(Conflict(RouteClash, RouteName(route.hostname), "", "", false))
                 case None => None
  {
    for i := 0 to |routes|
      invariant First(routes[..i], HitsRoute(d)).None?
    {
      FirstAt(routes, i, HitsRoute(d));
      var name := RouteName(routes[i].hostname);
      if name != "" && (name == d || HasSuffix(name, "." + d)) {
        return Some(Conflict(RouteClash, name, "", "", false));
      }
    }
    assert routes[..|routes|] == routes;
    return None;
  }

  /** `scanProjectDomainClaimConflicts`. */
  method ScanForeignClaims(claims: seq<Claim>, d: string, tenant: string, project: string) returns (r: Option<Conflict>)
    ensures r == match First(claims, HitsForeignClaim(d, tenant, project))
                 case Some(c) => Some(Conflict(ClassOf(c.domain, d), c.domain, c.project, "", c.tenant == tenant))
                 case None => None
  {
    for i := 0 to |claims|
      invariant First(claims[..i], HitsForeignClaim(d, tenant, project)).None?
    {
      FirstAt(claims, i, HitsForeignClaim(d, tenant, project));
      var c := claims[i];
      if c.tenant == tenant && c.project == project {
        continue;
      }
      if c.domain == d {
        return Some(Conflict(Exact, c.domain, c.project, "", c.tenant == tenant));
      } else if HasSuffix(c.domain, "." + d) {
        return Some(Conflict(Ancestor, c.domain, c.project, "", c.tenant == tenant));
      } else if HasSuffix(d, "." + c.domain) {
        return Some(Conflict(Descendant, c.domain, c.project, "", c.tenant == tenant));
      }
    }
    assert claims[..|claims|] == claims;
    return None;
  }

  /** `scanProjectDomainHostnameConflicts`. */
  method ScanHostnamesForDomain(hostnames: seq<Hostname>, d: string, tenant: string) returns (r: Option<Conflict>)
    ensures r == match First(hostnames, HitsHostname(d))
                 case Some(h) => Some(Conflict(MachineClash, h.hostname, h.project, h.machine, h.tenant == tenant))
                 case None => None
  {
    for i := 0 to |hostnames|
      invariant First(hostnames[..i], HitsHostname(d)).None?
    {
      FirstAt(hostnames, i, HitsHostname(d));
      var h := hostnames[i];
      var name := Base(h.hostname);
      if name == d || HasSuffix(name, "." + d) || HasSuffix(d, "." + name) {
        return Some(Conflict(MachineClash, h.hostname, h.project, h.machine, h.tenant == tenant));
      }
    }
    assert hostnames[..|hostnames|] == hostnames;
    return None;
  }

  /** `scanProjectDomainConflicts`. */
  method ScanDomain(install: Install, t: Tables, d: string, tenant: string, project: string) returns (r: Option<Conflict>)
    ensures r == DomainScan(install, t, d, tenant, project)
    ensures r.None? <==> DomainFree(install, t, d, tenant, project)
  {
    DomainScanExact(install, t, d, tenant, project);
    r := ScanInstallNames(install, d);
    if r.Some? { return; }
    r := ScanRoutes(t.routes, d);
    if r.Some? { return; }
    r := ScanForeignClaims(t.claims, d, tenant, project);
    if r.Some? { return; }
    r := ScanHostnamesForDomain(t.hostnames, d, tenant);
  }

  /** The claim half of `scanMachineHostnameConflicts`. */
  method ScanClaimsForHostname(claims: seq<Claim>, h: string, tenant: string) returns (r: Option<Conflict>)
    ensures r == match First(claims, HitsClaim(h))
                 case Some(c) => Some(Conflict(DomainClash, c.domain, c.project, "", c.tenant == tenant))
                 case None => None
  {
    for i := 0 to |claims|
      invariant First(claims[..i], HitsClaim(h)).None?
    {
      FirstAt(claims, i, HitsClaim(h));
      var c := claims[i];
      if c.domain == h || HasSuffix(h, "." + c.domain) || HasSuffix(c.domain, "." + h) {
        return Some(Conflict(DomainClash, c.domain, c.project, "", c.tenant == tenant));
      }
    }
    assert claims[..|claims|] == claims;
    return None;
  }

  /** The hostname half of `scanMachineHostnameConflicts`. */
  method ScanHostnamesForHostname(hostnames: seq<Hostname>, h: string, tenant: string) returns (r: Option<Conflict>)
    ensures r == match First(hostnames, HitsHostname(h))
                 case Some(e) =>
                   Some(Conflict(ClassOf(Base(e.hostname), h), e.hostname, e.project, e.machine, e.tenant == tenant))
                 case None => None
  {
    for i := 0 to |hostnames|
      invariant First(hostnames[..i], HitsHostname(h)).None?
    {
      FirstAt(hostnames, i, HitsHostname(h));
      var e := hostnames[i];
      var existing := Base(e.hostname);
      if existing == h {
        return Some(Conflict(Exact, e.hostname, e.project, e.machine, e.tenant == tenant));
      } else if HasSuffix(existing, "." + h) {
        return Some(Conflict(Ancestor, e.hostname, e.project, e.machine, e.tenant == tenant));
      } else if HasSuffix(h, "." + existing) {
        return Some(Conflict(Descendant, e.hostname, e.project, e.machine, e.tenant == tenant));
      }
    }
    assert hostnames[..|hostnames|] == hostnames;
    return None;
  }

  /** `scanMachineHostnameConflicts`. */
  method ScanHostname(install: Install, routes: seq<Route>, claims: seq<Claim>, hostnames: seq<Hostname>,
                      name: string, tenant: string) returns (r: Option<Conflict>)
    ensures r == HostnameScan(install, routes, claims, hostnames, name, tenant)
  {
    var h := Base(name);
    r := ScanInstallNames(install, h);
    if r.Some? { return; }
    r := ScanRoutes(routes, h);
    if r.Some? { return; }
    r := ScanClaimsForHostname(claims, h, tenant);
    if r.Some? { return; }
    r := ScanHostnamesForHostname(hostnames, h, tenant);
  }

  /** `allocateLocalPort`: collect the used ports, then take the first free one. */
  method AllocateLocalPort(routes: seq<Route>) returns (r: Option<int>)
    ensures r == FreePort(routes, LOCAL_PORT_BASE)
  {
    var used: set<int> := {};
    for i := 0 to |routes|
      invariant forall p :: p in used <==> exists j :: 0 <= j < i && routes[j].localPort == p
    {
      used := used + {routes[i].localPort};
    }
    assert forall p :: p in used <==> PortUsed(routes, p) by {
      forall p | p in used ensures PortUsed(routes, p) {
        var j :| 0 <= j < |routes| && routes[j].localPort == p;
        assert routes[j] in routes;
      }
    }
    var port := LOCAL_PORT_BASE;
    while port < LOCAL_PORT_CEILING
      invariant LOCAL_PORT_BASE <= port <= LOCAL_PORT_CEILING
      invariant FreePort(routes, port) == FreePort(routes, LOCAL_PORT_BASE)
    {
      if port !in used {
        return Some(port);
      }
      port := port + 1;
    }
    return None;
  }

  function OtherKey<T>(key: T -> string, row: T): T -> bool {
    (x: T) => key(x) != key(row)
  }

  /** The table of the delete loop at row `i`: earlier rows are swept, later ones untouched. */
  function Swept<T(!new)>(rows: seq<T>, i: nat, keep: T -> bool): seq<T>
    requires i <= |rows|
  {
    Filter(rows[..i], keep) + rows[i..]
  }

  lemma SweepKeeps<T(!new)>(rows: seq<T>, i: nat, keep: T -> bool)
    requires i < |rows| && keep(rows[i])
    ensures Swept(rows, i + 1, keep) == Swept(rows, i, keep)
  {
    FilterAt(rows, i, keep);
  }

  lemma SweepDrops<T(!new)>(rows: seq<T>, i: nat, keep: T -> bool, other: T -> bool)
    requires i < |rows| && !keep(rows[i]) && !other(rows[i])
    requires forall x :: x in rows[..i] || x in rows[i + 1..] ==> other(x)
    ensures Swept(rows, i + 1, keep) == Filter(Swept(rows, i, keep), other)
  {
    FilterAt(rows, i, keep);
    assert Swept(rows, i, keep) == Filter(rows[..i], keep) + [rows[i]] + rows[i + 1..];
    DeleteRow(Filter(rows[..i], keep), rows[i], rows[i + 1..], other);
  }

  /** The delete loop of the garbage collections: one `DELETE ... WHERE key = ?` per dropped row of a listing. */
  method Sweep<T(!new)>(rows: seq<T>, key: T -> string, keep: T -> bool, drop: T -> bool)
    returns (table: seq<T>, dropped: seq<T>)
    requires KeyOrdered(rows, key)
    requires forall x :: drop(x) <==> !keep(x)
    ensures table == Filter(rows, keep) && dropped == Filter(rows, drop)
  {
    table, dropped := rows, [];
    for i := 0 to |rows|
      invariant table == Swept(rows, i, keep)
      invariant dropped == Filter(rows[..i], drop)
    {
      FilterAt(rows, i, drop);
      if keep(rows[i]) {
        SweepKeeps(rows, i, keep);
      } else {
        OtherKeys(rows, i, key);
        SweepDrops(rows, i, keep, OtherKey(key, rows[i]));
        table := Filter(table, OtherKey(key, rows[i]));
        dropped := dropped + [rows[i]];
      }
    }
    assert rows[..|rows|] == rows;
  }

  // ---------------------------------------------------------------- the database

  class ReservationDb {
    const install: Install
    var zones: seq<Zone>
    var claims: seq<Claim>
    var hostnames: seq<Hostname>
    var routes: seq<Route>

    /** The listings are in primary-key order with no key twice: what the database itself keeps. */
    ghost predicate Valid()
      reads this
    {
      && KeyOrdered(zones, ZoneKey) && KeyOrdered(claims, ClaimKey)
      && KeyOrdered(hostnames, HostnameKey) && KeyOrdered(routes, RouteKey)
    }

    function State(): Tables
      reads this
    {
      Tables(zones, claims, hostnames, routes)
    }

    constructor (install: Install)
      ensures Valid() && State() == NO_ROWS && this.install == install
      ensures Inv(install, State())
    {
      this.install := install;
      zones, claims, hostnames, routes := [], [], [], [];
    }

    // -------------------------------------------------------------- zones

    method AddPublicDNSZone(rawZone: string, visible: seq<CloudflareZone>) returns (outcome: ZoneOutcome)
      requires Valid()
      modifies this`zones
      ensures Valid()
      ensures (State(), outcome) == AddZone(old(State()), rawZone, visible)
      ensures Inv(install, old(State())) ==> Inv(install, State())
    {
      if Inv(install, State()) { AddZoneKeeps(install, State(), rawZone, visible); }
      var norm := NormalizeZone(rawZone);
      if norm.None? { return ZoneBadName; }
      var zone := norm.value;
      for i := 0 to |zones|
        invariant zones == old(zones) && First(zones[..i], HitsZone(zone)).None?
      {
        FirstAt(zones, i, HitsZone(zone));
        var existing := zones[i].name;
        if existing == zone { return ZoneExists; }
        if HasSuffix(zone, "." + existing) || HasSuffix(existing, "." + zone) { return ZoneOverlap(existing); }
      }
      assert zones[..|zones|] == zones;
      var cf := FindContaining(zone, visible);
      if cf.None? { return ZoneRejected; }
      var hits := HitsZone(zone);
      assert forall z :: z in zones ==> !hits(z);
      InsertOrdered(zones, Zone(zone, CloudflareZoneOrSelf(zone, cf.value.name)), ZoneKey);
      zones := Insert(zones, Zone(zone, CloudflareZoneOrSelf(zone, cf.value.name)), ZoneKey);
      return ZoneOk;
    }

    method SetPublicDNSZoneToken(rawZone: string, visible: seq<CloudflareZone>) returns (outcome: ZoneOutcome)
      requires Valid()
      modifies this`zones
      ensures Valid()
      ensures (State(), outcome) == SetZoneToken(old(State()), rawZone, visible)
      ensures Inv(install, old(State())) ==> Inv(install, State())
    {
      if Inv(install, State()) { SetZoneTokenKeeps(install, State(), rawZone, visible); }
      var norm := NormalizeZone(rawZone);
      if norm.None? { return ZoneBadName; }
      var zone := norm.value;
      if forall z :: z in zones ==> z.name != zone { return ZoneNotFound; }
      var cf := FindContaining(zone, visible);
      if cf.None? { return ZoneRejected; }
      zones := Retokened(zone, CloudflareZoneOrSelf(zone, cf.value.name), zones);
      return ZoneOk;
    }

    method RemovePublicDNSZone(rawZone: string) returns (outcome: ZoneOutcome)
      requires Valid()
      modifies this`zones
      ensures Valid()
      ensures (State(), outcome) == RemoveZone(old(State()), rawZone)
      ensures Inv(install, old(State())) ==> Inv(install, State())
    {
      if Inv(install, State()) { RemoveZoneKeeps(install, State(), rawZone); }
      var norm := NormalizeZone(rawZone);
      if norm.None? { return ZoneBadName; }
      var zone := norm.value;
      if forall z :: z in zones ==> z.name != zone { return ZoneNotFound; }
      if exists c :: c in claims && c.zone == zone { return ZoneClaimed; }
      if exists h :: h in hostnames && h.zone == zone { return ZoneClaimed; }
      FilterOrdered(zones, NotZone(zone), ZoneKey);
      zones := Filter(zones, NotZone(zone));
      return ZoneOk;
    }

    // -------------------------------------------------------------- Project Domains

    method ClaimProjectDomain(req: DomainRequest, now: int) returns (outcome: DomainOutcome)
      requires Valid()
      modifies this`claims
      ensures Valid()
      ensures (State(), outcome) == ClaimDomain(install, old(State()), req, now)
      ensures Inv(install, old(State())) ==> Inv(install, State())
    {
      if Inv(install, State()) { ClaimDomainKeeps(install, State(), req, now); }
      var norm := NormalizeName(req.domain);
      if norm.None? { return DomainRefused(BadName); }
      var tenant, project := TrimSpace(req.tenant), TrimSpace(req.project);
      if tenant == "" || project == "" { return DomainRefused(OwnerMissing); }
      var zone := FindZone(norm.value, zones);
      if zone == "" { return DomainRefused(NoZone); }
      if norm.value == zone { return DomainRefused(Apex(zone)); }
      if |norm.value| > PROJECT_DOMAIN_MAX_LENGTH { return DomainRefused(TooLong); }
      outcome := ClaimUnderLock(Claim(norm.value, tenant, project, zone, TrimSpace(req.userKey), now), req.dryRun);
    }

    method ClaimUnderLock(claim: Claim, dryRun: bool) returns (outcome: DomainOutcome)
      requires Valid()
      modifies this`claims
      ensures Valid()
      ensures (State(), outcome) == AdmitDomain(install, old(State()), claim, dryRun)
    {
      var previous: Option<Claim> := None;
      for i := 0 to |claims|
        invariant claims == old(claims) && previous.None? && First(claims[..i], OwnedBy(claim.tenant, claim.project)).None?
      {
        FirstAt(claims, i, OwnedBy(claim.tenant, claim.project));
        if claims[i].tenant == claim.tenant && claims[i].project == claim.project {
          previous := Some(claims[i]);
          break;
        }
      }
      assert claims[..|claims|] == claims;
      if previous.Some? && previous.value.domain == claim.domain { return AlreadyClaimed(previous.value); }
      var clash := ScanDomain(install, State(), claim.domain, claim.tenant, claim.project);
      if clash.Some? { return DomainRefused(Clash(clash.value)); }
      if dryRun { return Claimed(claim, previous); }
      var remaining := claims;
      if previous.Some? {
        remaining := Filter(claims, NotOwnedBy(claim.tenant, claim.project));
        FilterOrdered(claims, NotOwnedBy(claim.tenant, claim.project), ClaimKey);
      }
      var inserted := InsertClaim(remaining, claim);
      if inserted.None? { return DomainRefused(InsertConflict); }  // the transaction rolls back
      InsertOrdered(remaining, claim, ClaimKey);
      claims := inserted.value;
      return Claimed(claim, previous);
    }

    method ReleaseProjectDomainClaim(tenant: string, project: string) returns (released: Option<Claim>)
      requires Valid()
      modifies this`claims
      ensures Valid()
      ensures (State(), released) == ReleaseDomain(old(State()), tenant, project)
      ensures Inv(install, old(State())) ==> Inv(install, State())
    {
      if Inv(install, State()) { ReleaseDomainKeeps(install, State(), tenant, project); }
      released := First(claims, OwnedBy(TrimSpace(tenant), TrimSpace(project)));
      if released.None? { return; }
      FilterOrdered(claims, NotOwnedBy(released.value.tenant, released.value.project), ClaimKey);
      claims := Filter(claims, NotOwnedBy(released.value.tenant, released.value.project));
    }

    method RestoreProjectDomainClaim(claim: Claim)
      requires Valid()
      modifies this`claims
      ensures Valid()
      ensures State() == RestoreDomain(old(State()), claim)
    {
      if forall z :: z in zones ==> z.name != claim.zone { return; }
      var inserted := InsertClaim(claims, claim);
      if inserted.Some? {
        InsertOrdered(claims, claim, ClaimKey);
        claims := inserted.value;
      }
    }

    /** `projectDomainSet`; `incusOk` is what the Incus write answers. */
    method ProjectDomainSet(req: DomainRequest, now: int, incusOk: bool) returns (outcome: DomainOutcome)
      requires Valid()
      modifies this`claims
      ensures Valid()
      ensures (State(), outcome) == SetDomain(install, old(State()), req, now, incusOk)
      ensures Inv(install, old(State())) ==> Inv(install, State())
      ensures Inv(install, old(State())) && !incusOk ==> State() == old(State())
    {
      ghost var before := State();
      outcome := ClaimProjectDomain(req, now);
      if outcome.Claimed? && !req.dryRun && !incusOk {
        var _ := ReleaseProjectDomainClaim(req.tenant, req.project);
        if outcome.previous.Some? {
          RestoreProjectDomainClaim(outcome.previous.value);
        }
      }
      if Inv(install, before) && !incusOk {
        SetDomainRollsBack(install, before, req, now);
      }
    }

    /** `projectCreateWithDomain`: a failed creation releases the claim and restores nothing. */
    method ProjectCreateWithDomain(req: DomainRequest, now: int, incusOk: bool) returns (outcome: DomainOutcome)
      requires Valid()
      modifies this`claims
      ensures Valid()
      ensures (State(), outcome) == CreateProject(install, old(State()), req, now, incusOk)
      ensures Inv(install, old(State())) ==> Inv(install, State())
    {
      outcome := ClaimProjectDomain(req, now);
      if outcome.Claimed? && !req.dryRun && !incusOk {
        var _ := ReleaseProjectDomainClaim(req.tenant, req.project);
      }
    }

    /** The claim GC. */
    method ReconcileProjectDomainClaims(live: LiveProjects) returns (dropped: seq<Claim>)
      requires Valid()
      modifies this`claims
      ensures Valid()
      ensures (State(), dropped) == GcDomains(old(State()), live)
      ensures Inv(install, old(State())) ==> Inv(install, State())
    {
      if Inv(install, State()) { DropClaimsKeeps(install, State(), ClaimLive(live)); }
      if live == map[] { return []; }
      FilterOrdered(claims, ClaimLive(live), ClaimKey);
      claims, dropped := Sweep(claims, ClaimKey, ClaimLive(live), ClaimDead(live));
    }

    // -------------------------------------------------------------- machine hostnames

    method ClaimMachineHostname(req: HostnameRequest, tunnel: Option<string>, now: int) returns (outcome: HostnameOutcome)
      requires Valid()
      modifies this`hostnames
      ensures Valid()
      ensures (State(), outcome) == ClaimHostname(install, old(State()), req, tunnel, now)
      ensures Inv(install, old(State())) ==> Inv(install, State())
    {
      if Inv(install, State()) { ClaimHostnameKeeps(install, State(), req, tunnel, now); }
      var norm := NormalizeMachineHostname(req.hostname);
      if norm.None? { return HostnameRefused(BadName); }
      var tenant, project, machine := TrimSpace(req.tenant), TrimSpace(req.project), TrimSpace(req.machine);
      if tenant == "" || project == "" || machine == "" { return HostnameRefused(OwnerMissing); }
      var zone := FindZone(norm.value, zones);
      if zone == "" { return HostnameRefused(NoZone); }
      if |norm.value| > MACHINE_HOSTNAME_MAX_LENGTH { return HostnameRefused(TooLong); }
      outcome := ClaimHostnameUnderLock(
        Hostname(norm.value, tenant, project, machine, zone, TrimSpace(req.userKey), now), tunnel, req.dryRun);
    }

    method ClaimHostnameUnderLock(row: Hostname, tunnel: Option<string>, dryRun: bool) returns (outcome: HostnameOutcome)
      requires Valid()
      modifies this`hostnames
      ensures Valid()
      ensures (State(), outcome) == AdmitHostname(install, old(State()), row, tunnel, dryRun)
    {
      if tunnel.Some? { return HostnameRefused(Clash(Conflict(Exact, tunnel.value, "", "", false))); }
      var held := First(hostnames, HeldAs(row.hostname, row.tenant, row.project, row.machine));
      if held.Some? { return AlreadyHeld(held.value); }
      var derived, blocking := FilterClaims(row);
      if derived.Some? {
        return HostnameRefused(Clash(Conflict(DomainClash, derived.value.domain, row.project, "", true)));
      }
      var others := FilterHostnames(row);
      var clash := ScanHostname(install, routes, blocking, others, row.hostname, row.tenant);
      if clash.Some? { return HostnameRefused(Clash(clash.value)); }
      if dryRun { return HostnameClaimed(row); }
      if exists h :: h in hostnames && h.hostname == row.hostname { return HostnameRefused(InsertConflict); }
      InsertOrdered(hostnames, row, HostnameKey);
      hostnames := Insert(hostnames, row, HostnameKey);
      return HostnameClaimed(row);
    }

    /** The claim snapshot without the caller's own domain above the name; stops at the derived name. */
    method FilterClaims(row: Hostname) returns (derived: Option<Claim>, kept: seq<Claim>)
      ensures derived == First(claims, DerivesName(row.hostname, row.tenant, row.project, row.machine))
      ensures derived.None? ==> kept == Filter(claims, BlockingClaim(row.hostname, row.tenant, row.project))
    {
      var derives := DerivesName(row.hostname, row.tenant, row.project, row.machine);
      var blocking := BlockingClaim(row.hostname, row.tenant, row.project);
      kept := [];
      for i := 0 to |claims|
        invariant First(claims[..i], derives).None? && kept == Filter(claims[..i], blocking)
      {
        FirstAt(claims, i, derives);
        FilterAt(claims, i, blocking);
        var c := claims[i];
        if c.tenant == row.tenant && c.project == row.project && HasSuffix(Base(row.hostname), "." + c.domain) {
          if row.hostname == row.machine + "." + c.domain { return Some(c), kept; }
          continue;
        }
        kept := kept + [c];
      }
      assert claims[..|claims|] == claims;
      derived := None;
    }

    /** The hostname snapshot without the same machine's rows a wildcard may stand beside. */
    method FilterHostnames(row: Hostname) returns (kept: seq<Hostname>)
      ensures kept == Filter(hostnames, BlockingHostname(row.hostname, row.tenant, row.project, row.machine))
    {
      var blocking := BlockingHostname(row.hostname, row.tenant, row.project, row.machine);
      kept := [];
      for i := 0 to |hostnames|
        invariant kept == Filter(hostnames[..i], blocking)
      {
        FilterAt(hostnames, i, blocking);
        var e := hostnames[i];
        var same := e.tenant == row.tenant && e.project == row.project && e.machine == row.machine;
        var wildcard := IsWildcard(row.hostname) || IsWildcard(e.hostname);
        if same && wildcard && Base(row.hostname) != Base(e.hostname) {
          continue;
        }
        kept := kept + [e];
      }
      assert hostnames[..|hostnames|] == hostnames;
    }

    method ReleaseMachineHostname(tenant: string, project: string, machine: string, hostname: string)
      returns (released: Option<Hostname>)
      requires Valid()
      modifies this`hostnames
      ensures Valid()
      ensures (State(), released) == ReleaseHostname(old(State()), tenant, project, machine, hostname)
      ensures Inv(install, old(State())) ==> Inv(install, State())
    {
      if Inv(install, State()) { ReleaseHostnameKeeps(install, State(), tenant, project, machine, hostname); }
      var norm := NormalizeMachineHostname(hostname);
      if norm.None? { return None; }
      released := First(hostnames, HeldAs(norm.value, TrimSpace(tenant), TrimSpace(project), TrimSpace(machine)));
      if released.None? { return; }
      FilterOrdered(hostnames, NotHostname(norm.value), HostnameKey);
      hostnames := Filter(hostnames, NotHostname(norm.value));
    }

    /** `machineHostnameAdd` with the answers of its later writes. */
    method MachineHostnameAdd(req: HostnameRequest, tunnel: Option<string>, now: int, w: AddWrites)
      returns (outcome: HostnameOutcome)
      requires Valid()
      modifies this`hostnames
      ensures Valid()
      ensures (State(), outcome) == AddHostname(install, old(State()), req, tunnel, now, w)
      ensures Inv(install, old(State())) ==> Inv(install, State())
      ensures Inv(install, old(State())) && WritesFail(w) ==> State() == old(State())
    {
      ghost var before := State();
      outcome := ClaimMachineHostname(req, tunnel, now);
      // A failed coverage lookup is no failed write: a new reservation stays.
      if outcome.HostnameClaimed? && !req.dryRun && WritesFail(w) {
        var _ := ReleaseMachineHostname(req.tenant, req.project, req.machine, outcome.row.hostname);
      }
      if Inv(install, before) && WritesFail(w) {
        AddHostnameUndone(install, before, req, tunnel, now, w);
      }
    }

    /** The hostname GC. */
    method ReconcileMachineHostnames(live: LiveProjects, machines: Option<set<string>>) returns (dropped: seq<Hostname>)
      requires Valid()
      modifies this`hostnames
      ensures Valid()
      ensures (State(), dropped) == GcHostnames(old(State()), live, machines)
      ensures Inv(install, old(State())) ==> Inv(install, State())
    {
      if Inv(install, State()) { DropHostnamesKeeps(install, State(), HostnameLive(live, machines)); }
      if live == map[] { return []; }
      FilterOrdered(hostnames, HostnameLive(live, machines), HostnameKey);
      hostnames, dropped := Sweep(hostnames, HostnameKey, HostnameLive(live, machines), HostnameDead(live, machines));
    }

    /** Project deletion frees every hostname of the project. */
    method ReleaseMachineHostnamesOfProject(tenant: string, project: string) returns (released: seq<Hostname>)
      requires Valid()
      modifies this`hostnames
      ensures Valid()
      ensures (State(), released) == ReleaseHostnamesOfProject(old(State()), tenant, project)
      ensures Inv(install, old(State())) ==> Inv(install, State())
    {
      if Inv(install, State()) { DropHostnamesKeeps(install, State(), OutsideProject(tenant, project)); }
      FilterOrdered(hostnames, OutsideProject(tenant, project), HostnameKey);
      hostnames, released := Sweep(hostnames, HostnameKey, OutsideProject(tenant, project), InsideProject(tenant, project));
    }

    // -------------------------------------------------------------- routes

    method UpsertRouteRow(request: Route, now: int) returns (outcome: RouteOutcome)
      requires Valid()
      modifies this`routes
      ensures Valid()
      ensures (State(), outcome) == UpsertRoute(old(State()), request, now)
      ensures Inv(install, old(State())) ==> Inv(install, State())
    {
      if Inv(install, State()) { UpsertRouteKeeps(install, State(), request, now); }
      var row := request.(hostname := NormalizeHostname(request.hostname), tenant := TrimSpace(request.tenant),
                          project := TrimSpace(request.project), machine := TrimSpace(request.machine),
                          createdAt := now);
      if row.hostname == "" || row.tenant == "" || row.backendPort <= 0 { return RouteIncomplete; }
      var existing := GetRoute(routes, row.hostname);
      if existing.Some? {
        if existing.value.tenant != row.tenant { return RouteTaken(true); }
        if existing.value.project == row.project && existing.value.machine == row.machine
           && existing.value.backendPort == row.backendPort { return Published(existing); }
        return RouteTaken(false);
      }
      var inside := RouteInside(State(), row.hostname);
      if inside.Some? { return inside.value; }
      var port := AllocateLocalPort(routes);
      if port.None? { return NoFreePort; }
      if exists r :: r in routes && r.hostname == row.hostname { return RouteInsertConflict; }
      InsertOrdered(routes, row.(localPort := port.value), RouteKey);
      routes := Insert(routes, row.(localPort := port.value), RouteKey);
      return Published(GetRoute(routes, row.hostname));
    }

    method DeleteRouteRow(hostname: string, tenant: string) returns (removed: Option<Route>)
      requires Valid()
      modifies this`routes
      ensures Valid()
      ensures (State(), removed) == DeleteRoute(old(State()), hostname, tenant)
      ensures Inv(install, old(State())) ==> Inv(install, State())
    {
      if Inv(install, State()) { DropRoutesKeeps(install, State(), NotRoute(NormalizeHostname(hostname))); }
      var name, owner := NormalizeHostname(hostname), TrimSpace(tenant);
      removed := GetRoute(routes, name);
      if removed.None? || (owner != "" && removed.value.tenant != owner) { return None; }
      FilterOrdered(routes, NotRoute(name), RouteKey);
      routes := Filter(routes, NotRoute(name));
    }

    method PruneRouteRow(hostname: string)
      requires Valid()
      modifies this`routes
      ensures Valid()
      ensures State() == PruneRoute(old(State()), hostname)
      ensures Inv(install, old(State())) ==> Inv(install, State())
    {
      if Inv(install, State()) { DropRoutesKeeps(install, State(), NotRoute(NormalizeHostname(hostname))); }
      FilterOrdered(routes, NotRoute(NormalizeHostname(hostname)), RouteKey);
      routes := Filter(routes, NotRoute(NormalizeHostname(hostname)));
    }
  }
}
