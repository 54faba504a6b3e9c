/**
 What each registry call answers and does to the rows, stated on the rows' own fields: when a zone, claim, hostname
 or route is accepted, which refusal it gets otherwise, which rows come and go, and that all others stay.
 */
module RegistryEffects {
  import opened Text
  import opened Names
  import opened Registry
  import opened RegistryInvariant
  import opened RegistryTheorems
  import opened ProjectCreation

  // ---------------------------------------------------------------- zones

  /** One name lies below the other. */
  predicate Nests(a: string, b: string) {
    HasSuffix(a, "." + b) || HasSuffix(b, "." + a)
  }

  ghost predicate IsRegistered(zones: seq<Zone>, zone: string) {
    exists z :: z in zones && z.name == zone
  }

  ghost predicate NestsInOne(zones: seq<Zone>, zone: string) {
    exists z :: z in zones && Nests(zone, z.name)
  }

  /** The pre-flight of a new zone: registered already, nested with a registered one, or free. */
  lemma AddableIs(zones: seq<Zone>, zone: string)
    requires ZonesOk(zones)
    ensures match ZoneAddable(zone, zones)
            case ZoneOk => !IsRegistered(zones, zone) && !NestsInOne(zones, zone)
            case ZoneExists => IsRegistered(zones, zone)
            case ZoneOverlap(other) => !IsRegistered(zones, zone) && IsRegistered(zones, other) && Nests(zone, other)
            case _ => false
  {
    var hit := HitsZone(zone);
    var first := First(zones, hit);
    if first.None? {
      assert forall z :: z in zones ==> !hit(z);
    } else {
      assert first.value in zones && hit(first.value);
      if first.value.name != zone {
        forall z | z in zones ensures z.name != zone {}
      }
    }
  }

  /** The answers of `zone add`; each says which input it is given to. */
  lemma AddZoneAnswers(t: Tables, rawZone: string, visible: seq<CloudflareZone>)
    requires ZonesOk(t.zones)
    ensures NormalizeZone(rawZone).None? ==> AddZone(t, rawZone, visible).1 == ZoneBadName
    ensures NormalizeZone(rawZone).Some? ==>
              var zone := NormalizeZone(rawZone).value;
              match AddZone(t, rawZone, visible).1
              case ZoneExists => IsRegistered(t.zones, zone)
              case ZoneOverlap(other) => !IsRegistered(t.zones, zone) && IsRegistered(t.zones, other) && Nests(zone, other)
              case ZoneRejected =>
                !IsRegistered(t.zones, zone) && !NestsInOne(t.zones, zone) && ContainingCloudflareZone(zone, visible).None?
              case ZoneOk =>
                !IsRegistered(t.zones, zone) && !NestsInOne(t.zones, zone) && ContainingCloudflareZone(zone, visible).Some?
              case _ => false
  {
    if NormalizeZone(rawZone).Some? {
      AddableIs(t.zones, NormalizeZone(rawZone).value);
    }
  }

  /** An accepted zone joins the others under the Cloudflare zone the token resolved; otherwise nothing changes. */
  lemma AddZoneRows(t: Tables, rawZone: string, visible: seq<CloudflareZone>)
    ensures var (after, outcome) := AddZone(t, rawZone, visible);
            if outcome == ZoneOk then
              && NormalizeZone(rawZone).Some? && ContainingCloudflareZone(NormalizeZone(rawZone).value, visible).Some?
              && after == t.(zones := after.zones)
              && forall z :: z in after.zones <==> z in t.zones || IsNewZone(z, NormalizeZone(rawZone).value, visible)
            else after == t
  {
    if NormalizeZone(rawZone).Some? {
      AdmitZoneRows(t, NormalizeZone(rawZone).value, visible);
    }
  }

  lemma AdmitZoneRows(t: Tables, zone: string, visible: seq<CloudflareZone>)
    requires ValidName(zone)
    ensures var (after, outcome) := AdmitZone(t, zone, visible);
            if outcome == ZoneOk then
              && ContainingCloudflareZone(zone, visible).Some?
              && after == t.(zones := after.zones)
              && forall z :: z in after.zones <==> z in t.zones || IsNewZone(z, zone, visible)
            else after == t
  {
    if ContainingCloudflareZone(zone, visible).Some? {
      ResolvedName(zone, visible);
      var row := Zone(zone, ContainingCloudflareZone(zone, visible).value.name);
      forall z ensures IsNewZone(z, zone, visible) <==> z == row {}
    }
  }

  ghost predicate IsNewZone(z: Zone, zone: string, visible: seq<CloudflareZone>) {
    && z.name == zone && ContainingCloudflareZone(zone, visible).Some?
    && z.cloudflareZone == ContainingCloudflareZone(zone, visible).value.name
  }

  /** The resolved name is stored as it is. */
  lemma ResolvedName(zone: string, visible: seq<CloudflareZone>)
    requires ValidName(zone) && ContainingCloudflareZone(zone, visible).Some?
    ensures var cf := ContainingCloudflareZone(zone, visible).value;
            CloudflareZoneOrSelf(zone, cf.name) == cf.name
  {
    var cf := ContainingCloudflareZone(zone, visible).value;
    assert cf in LongestContaining(zone, visible);
    SuffixOfValid(zone, cf.name);
    NameCharsFixed(cf.name);
  }

  /** `zone set-token`: the named zone's Cloudflare zone changes to the resolved one; every other row stays. */
  lemma SetTokenEffect(t: Tables, rawZone: string, visible: seq<CloudflareZone>)
    ensures NormalizeZone(rawZone).None? ==> SetZoneToken(t, rawZone, visible) == (t, ZoneBadName)
    ensures NormalizeZone(rawZone).Some? ==>
              var (after, outcome) := SetZoneToken(t, rawZone, visible);
              var zone := NormalizeZone(rawZone).value;
              && (outcome == ZoneNotFound <==> !IsRegistered(t.zones, zone))
              && (outcome == ZoneOk <==> IsRegistered(t.zones, zone) && ContainingCloudflareZone(zone, visible).Some?)
              && (outcome in {ZoneNotFound, ZoneOk, ZoneRejected}) && (outcome != ZoneOk ==> after == t)
              && (outcome == ZoneOk ==>
                    && after == t.(zones := after.zones) && |after.zones| == |t.zones|
                    && forall i :: 0 <= i < |t.zones| ==>
                         && after.zones[i].name == t.zones[i].name
                         && after.zones[i].cloudflareZone ==
                            if t.zones[i].name == zone then ContainingCloudflareZone(zone, visible).value.name
                            else t.zones[i].cloudflareZone)
  {
    if NormalizeZone(rawZone).Some? && ContainingCloudflareZone(NormalizeZone(rawZone).value, visible).Some? {
      ResolvedName(NormalizeZone(rawZone).value, visible);
    }
  }

  /** `zone remove`: the zone's row goes iff it is registered and no claim and no hostname records it; all others stay. */
  lemma RemoveZoneEffect(t: Tables, rawZone: string)
    ensures NormalizeZone(rawZone).None? ==> RemoveZone(t, rawZone) == (t, ZoneBadName)
    ensures NormalizeZone(rawZone).Some? ==>
              var (after, outcome) := RemoveZone(t, rawZone);
              var zone := NormalizeZone(rawZone).value;
              var recorded := (exists c :: c in t.claims && c.zone == zone) || (exists h :: h in t.hostnames && h.zone == zone);
              && outcome == (if !IsRegistered(t.zones, zone) then ZoneNotFound else if recorded then ZoneClaimed else ZoneOk)
              && after == t.(zones := after.zones)
              && forall z :: z in after.zones <==> z in t.zones && (outcome == ZoneOk ==> z.name != zone)
  {
    if NormalizeZone(rawZone).Some? {
      var kept := NotZone(NormalizeZone(rawZone).value);
      assert forall z :: kept(z) <==> z.name != NormalizeZone(rawZone).value;
    }
  }

  // ---------------------------------------------------------------- Project Domain claims

  lemma {:induction false} CoversItself(name: string, zones: seq<Zone>)
    requires name != ""
    ensures CoveringZone(name, zones) == name <==> IsRegistered(zones, name)
    ensures CoveringZone(name, zones) == "" || Under(name, CoveringZone(name, zones))
  {
    if zones != [] {
      var front, last := zones[..|zones| - 1], zones[|zones| - 1];
      CoversItself(name, front);
      assert forall z :: z in zones <==> z in front || z == last;
    }
  }

  /** The checks of a Project Domain before the lock, each with the input it refuses. */
  lemma DomainChecks(name: string, zones: seq<Zone>)
    requires name != ""
    ensures ValidateProjectDomain(name, zones) ==
            if !Covered(name, zones) then Some(NoZone) else if IsRegistered(zones, name) then Some(Apex(name))
            else if |name| > 187 then Some(TooLong) else None
  {
    CoveredIff(name, zones);
    CoversItself(name, zones);
  }

  /** An accepted claim: its row, the claim it replaces, and every other project's claim as before. */
  lemma ClaimDomainRows(install: Install, t: Tables, req: DomainRequest, now: int)
    requires Inv(install, t) && ClaimDomain(install, t, req, now).1.Claimed?
    ensures var (after, outcome) := ClaimDomain(install, t, req, now);
            var row := outcome.claim;
            && Some(row.domain) == NormalizeName(req.domain) && row.tenant == TrimSpace(req.tenant)
            && row.project == TrimSpace(req.project) && row.userKey == TrimSpace(req.userKey) && row.createdAt == now
            && IsRegistered(t.zones, row.zone) && HasSuffix(row.domain, "." + row.zone)
            && (outcome.previous.Some? <==> exists c :: c in t.claims && c.tenant == row.tenant && c.project == row.project)
            && (outcome.previous.Some? ==>
                  && outcome.previous.value in t.claims
                  && outcome.previous.value.tenant == row.tenant && outcome.previous.value.project == row.project)
            && (if req.dryRun then after == t
                else
                  && after == t.(claims := after.claims)
                  && forall c :: c in after.claims <==>
                       c == row || (c in t.claims && !(c.tenant == row.tenant && c.project == row.project)))
  {
    ClaimedRow(install, t, req, now);
    var row := ClaimDomain(install, t, req, now).1.claim;
    DryClaimSame(install, t, row, req.dryRun);
    var others := ClaimedTables(install, t, row);
    var owned := OwnedBy(row.tenant, row.project);
    ClaimStamp(install, t, req, now);
    if First(t.claims, owned).None? {
      assert forall c :: c in t.claims ==> !owned(c);
    }
  }

  /** The answers of a claim before its conflict scan, each with the request it is given to. */
  lemma DomainAnswers(install: Install, t: Tables, req: DomainRequest, now: int)
    ensures var name, outcome := NormalizeName(req.domain), ClaimDomain(install, t, req, now).1;
            if name.None? then outcome == DomainRefused(BadName)
            else if TrimSpace(req.tenant) == "" || TrimSpace(req.project) == "" then outcome == DomainRefused(OwnerMissing)
            else if ValidateProjectDomain(name.value, t.zones).Some?
            then outcome == DomainRefused(ValidateProjectDomain(name.value, t.zones).value)
            else outcome.AlreadyClaimed? || outcome.Claimed? || (outcome.DomainRefused? && outcome.reason in {InsertConflict})
                 || (outcome.DomainRefused? && outcome.reason.Clash?)
  {}

  lemma AdmitAlready(install: Install, t: Tables, claim: Claim, dryRun: bool)
    ensures AdmitDomain(install, t, claim, dryRun).1.AlreadyClaimed? <==>
            var own := First(t.claims, OwnedBy(claim.tenant, claim.project));
            own.Some? && own.value.domain == claim.domain
    ensures AdmitDomain(install, t, claim, dryRun).1.AlreadyClaimed? ==>
              AdmitDomain(install, t, claim, dryRun).1.claim in t.claims
              && OwnedBy(claim.tenant, claim.project)(AdmitDomain(install, t, claim, dryRun).1.claim)
              && AdmitDomain(install, t, claim, dryRun).1.claim.domain == claim.domain
  {}

  lemma ClaimIsAdmitted(install: Install, t: Tables, req: DomainRequest, now: int)
    requires NormalizeName(req.domain).Some? && TrimSpace(req.tenant) != "" && TrimSpace(req.project) != ""
    requires ValidateProjectDomain(NormalizeName(req.domain).value, t.zones).None?
    ensures var name := NormalizeName(req.domain).value;
            var claim := Claim(name, TrimSpace(req.tenant), TrimSpace(req.project), CoveringZone(name, t.zones),
                               TrimSpace(req.userKey), now);
            ClaimDomain(install, t, req, now) == AdmitDomain(install, t, claim, req.dryRun)
  {}

  /** Already claimed: for a request that passes its checks, iff the project holds this very domain. */
  lemma AlreadyClaimedIff(install: Install, t: Tables, req: DomainRequest, now: int)
    requires Inv(install, t)
    requires NormalizeName(req.domain).Some? && TrimSpace(req.tenant) != "" && TrimSpace(req.project) != ""
    requires ValidateProjectDomain(NormalizeName(req.domain).value, t.zones).None?
    ensures ClaimDomain(install, t, req, now).1.AlreadyClaimed? <==>
            HasClaim(t.claims, NormalizeName(req.domain).value, TrimSpace(req.tenant), TrimSpace(req.project))
    ensures ClaimDomain(install, t, req, now).1.AlreadyClaimed? ==>
              var c := ClaimDomain(install, t, req, now).1.claim;
              && c in t.claims && c.domain == NormalizeName(req.domain).value
              && c.tenant == TrimSpace(req.tenant) && c.project == TrimSpace(req.project)
  {
    var name, tenant, project := NormalizeName(req.domain).value, TrimSpace(req.tenant), TrimSpace(req.project);
    var claim := Claim(name, tenant, project, CoveringZone(name, t.zones), TrimSpace(req.userKey), now);
    ClaimIsAdmitted(install, t, req, now);
    AdmitAlready(install, t, claim, req.dryRun);
    FirstOwned(install, t, name, tenant, project);
  }

  ghost predicate HasClaim(claims: seq<Claim>, domain: string, tenant: string, project: string) {
    exists c :: c in claims && c.domain == domain && c.tenant == tenant && c.project == project
  }

  lemma FirstOwned(install: Install, t: Tables, domain: string, tenant: string, project: string)
    requires Inv(install, t)
    ensures HasClaim(t.claims, domain, tenant, project) <==>
            First(t.claims, OwnedBy(tenant, project)).Some? && First(t.claims, OwnedBy(tenant, project)).value.domain == domain
  {
    var owned := OwnedBy(tenant, project);
    if First(t.claims, owned).None? {
      assert forall c :: c in t.claims ==> !owned(c);
    }
  }

  lemma DryClaimSame(install: Install, t: Tables, claim: Claim, dryRun: bool)
    requires Inv(install, t) && ClaimRowOk(t.zones, claim) && AdmitDomain(install, t, claim, dryRun).1.Claimed?
    ensures AdmitDomain(install, t, claim, false).1 == AdmitDomain(install, t, claim, dryRun).1
  {
    AdmitDomainKeeps(install, t, claim, false);
    AdmitDomainSame(install, t, claim);
  }

  lemma ClaimStamp(install: Install, t: Tables, req: DomainRequest, now: int)
    requires ClaimDomain(install, t, req, now).1.Claimed?
    ensures ClaimDomain(install, t, req, now).1.claim.userKey == TrimSpace(req.userKey)
    ensures ClaimDomain(install, t, req, now).1.claim.createdAt == now
  {}

  /** `unset-domain`: the project's claims go and one of them is returned; without one nothing changes. */
  lemma ReleaseDomainRows(t: Tables, tenant: string, project: string)
    ensures var (after, released) := ReleaseDomain(t, tenant, project);
            && after == t.(claims := after.claims)
            && (released.Some? <==> exists c :: c in t.claims && c.tenant == TrimSpace(tenant) && c.project == TrimSpace(project))
            && (released.Some? ==>
                  && released.value in t.claims
                  && released.value.tenant == TrimSpace(tenant) && released.value.project == TrimSpace(project))
            && forall c :: c in after.claims <==> c in t.claims && !(c.tenant == TrimSpace(tenant) && c.project == TrimSpace(project))
  {
    var owned, kept := OwnedBy(TrimSpace(tenant), TrimSpace(project)), NotOwnedBy(TrimSpace(tenant), TrimSpace(project));
    if First(t.claims, owned).None? {
      assert forall c :: c in t.claims ==> !owned(c);
    }
    assert forall c :: kept(c) <==> !(c.tenant == TrimSpace(tenant) && c.project == TrimSpace(project));
  }

  /** The claim GC, when some tenant is listed: a claim stays iff a listed project of its tenant trims to its project. */
  lemma GcDomainsRows(t: Tables, live: LiveProjects, c: Claim)
    requires live != map[]
    ensures c in GcDomains(t, live).0.claims <==>
            c in t.claims && c.tenant in live && exists p :: p in live[c.tenant] && TrimSpace(p) == c.project
    ensures c in GcDomains(t, live).1 <==>
            c in t.claims && !(c.tenant in live && exists p :: p in live[c.tenant] && TrimSpace(p) == c.project)
    ensures GcDomains(t, live).0 == t.(claims := GcDomains(t, live).0.claims)
  {
    var kept, dropped := ClaimLive(live), ClaimDead(live);
    assert kept(c) <==> !dropped(c);
  }

  /** With nothing listed at all neither GC is trusted to drop anything. */
  lemma GcNeedsListing(t: Tables, machines: Option<set<string>>)
    ensures GcDomains(t, map[]) == (t, []) && GcHostnames(t, map[], machines) == (t, [])
  {}

  // ---------------------------------------------------------------- machine hostnames

  /** This machine holds the name. */
  ghost predicate Holds(hostnames: seq<Hostname>, name: string, tenant: string, project: string, machine: string) {
    exists h :: h in hostnames && h.hostname == name && h.tenant == tenant && h.project == project && h.machine == machine
  }

  lemma FirstHolder(hostnames: seq<Hostname>, name: string, tenant: string, project: string, machine: string)
    ensures First(hostnames, HeldAs(name, tenant, project, machine)).Some? <==> Holds(hostnames, name, tenant, project, machine)
  {
    var held := HeldAs(name, tenant, project, machine);
    if First(hostnames, held).None? {
      assert forall h :: h in hostnames ==> !held(h);
    }
  }

  /** The row is stored, and is the machine's own of that name. */
  predicate IsHolder(hostnames: seq<Hostname>, h: Hostname, name: string, tenant: string, project: string, machine: string) {
    h in hostnames && h.hostname == name && h.tenant == tenant && h.project == project && h.machine == machine
  }

  lemma AdmitHeldIff(install: Install, t: Tables, row: Hostname, tunnel: Option<string>, dryRun: bool)
    ensures AdmitHostname(install, t, row, tunnel, dryRun).1.AlreadyHeld? <==>
            tunnel.None? && Holds(t.hostnames, row.hostname, row.tenant, row.project, row.machine)
    ensures AdmitHostname(install, t, row, tunnel, dryRun).1.AlreadyHeld? ==>
              IsHolder(t.hostnames, AdmitHostname(install, t, row, tunnel, dryRun).1.row, row.hostname, row.tenant, row.project,
                       row.machine)
    ensures tunnel.Some? ==>
              AdmitHostname(install, t, row, tunnel, dryRun).1 ==
              HostnameRefused(Clash(Conflict(Exact, tunnel.value, "", "", false)))
  {
    FirstHolder(t.hostnames, row.hostname, row.tenant, row.project, row.machine);
  }

  /** The checks before the lock, each with the input it refuses. */
  lemma HostnameChecks(hostname: string, tenant: string, project: string, machine: string, zones: seq<Zone>)
    ensures var name := NormalizeMachineHostname(hostname);
            CheckHostname(hostname, tenant, project, machine, zones) ==
            if name.None? then Some(BadName)
            else if TrimSpace(tenant) == "" || TrimSpace(project) == "" || TrimSpace(machine) == "" then Some(OwnerMissing)
            else if !Covered(name.value, zones) then Some(NoZone)
            else if |name.value| > 251 then Some(TooLong) else None
  {
    if NormalizeMachineHostname(hostname).Some? {
      CoveredIff(NormalizeMachineHostname(hostname).value, zones);
    }
  }

  ghost predicate Covered(name: string, zones: seq<Zone>) {
    exists z :: z in zones && z.name != "" && (name == z.name || HasSuffix(name, "." + z.name))
  }

  lemma {:induction false} CoveredIff(name: string, zones: seq<Zone>)
    ensures CoveringZone(name, zones) != "" <==> Covered(name, zones)
  {
    if zones != [] {
      var front, last := zones[..|zones| - 1], zones[|zones| - 1];
      CoveredIff(name, front);
      assert forall z :: z in zones <==> z in front || z == last;
    }
  }

  /** Already held: no tunnel publishes the name, the request passes its checks, and this same machine holds it. */
  lemma AlreadyHeldIff(install: Install, t: Tables, req: HostnameRequest, tunnel: Option<string>, now: int)
    ensures ClaimHostname(install, t, req, tunnel, now).1.AlreadyHeld? <==>
            && CheckHostname(req.hostname, req.tenant, req.project, req.machine, t.zones).None?
            && tunnel.None?
            && Holds(t.hostnames, NormalizeMachineHostname(req.hostname).value, TrimSpace(req.tenant), TrimSpace(req.project),
                     TrimSpace(req.machine))
    ensures ClaimHostname(install, t, req, tunnel, now).1.AlreadyHeld? ==>
              IsHolder(t.hostnames, ClaimHostname(install, t, req, tunnel, now).1.row,
                       NormalizeMachineHostname(req.hostname).value, TrimSpace(req.tenant), TrimSpace(req.project),
                       TrimSpace(req.machine))
  {
    if CheckHostname(req.hostname, req.tenant, req.project, req.machine, t.zones).None? {
      AdmitHeldIff(install, t, HostnameRow(t, req, now), tunnel, req.dryRun);
    }
  }

  /** The row of an accepted hostname, and the table with it. */
  lemma ClaimHostnameRows(install: Install, t: Tables, req: HostnameRequest, tunnel: Option<string>, now: int)
    requires Inv(install, t) && ClaimHostname(install, t, req, tunnel, now).1.HostnameClaimed?
    ensures var (after, outcome) := ClaimHostname(install, t, req, tunnel, now);
            var row := outcome.row;
            && Some(row.hostname) == NormalizeMachineHostname(req.hostname) && row.tenant == TrimSpace(req.tenant)
            && row.project == TrimSpace(req.project) && row.machine == TrimSpace(req.machine)
            && row.userKey == TrimSpace(req.userKey) && row.createdAt == now
            && IsRegistered(t.zones, row.zone) && Under(row.hostname, row.zone)
            && (if req.dryRun then after == t
                else after == t.(hostnames := after.hostnames) && forall h :: h in after.hostnames <==> h in t.hostnames || h == row)
  {
    ClaimedHostname(install, t, req, tunnel, now);
    ZoneNamesNonEmpty(t.zones);
    CoveringZoneCovers(HostnameRow(t, req, now).hostname, t.zones);
    ClaimIsCovered(install, t, req, tunnel, now);
  }

  lemma ClaimIsCovered(install: Install, t: Tables, req: HostnameRequest, tunnel: Option<string>, now: int)
    requires ClaimHostname(install, t, req, tunnel, now).1.HostnameClaimed?
    ensures CoveringZone(NormalizeMachineHostname(req.hostname).value, t.zones) != ""
  {}

  /** A release drops the named row iff this machine holds it; every other row stays. */
  lemma ReleaseHostnameRows(t: Tables, tenant: string, project: string, machine: string, hostname: string)
    requires KeyOrdered(t.hostnames, HostnameKey)
    ensures var (after, released) := ReleaseHostname(t, tenant, project, machine, hostname);
            && after == t.(hostnames := after.hostnames)
            && (released.Some? ==>
                  && released.value in t.hostnames && Some(released.value.hostname) == NormalizeMachineHostname(hostname)
                  && released.value.tenant == TrimSpace(tenant) && released.value.project == TrimSpace(project)
                  && released.value.machine == TrimSpace(machine))
            && (released.None? ==>
                  && after == t
                  && forall h :: h in t.hostnames && Some(h.hostname) == NormalizeMachineHostname(hostname) ==>
                       !(h.tenant == TrimSpace(tenant) && h.project == TrimSpace(project) && h.machine == TrimSpace(machine)))
            && forall h :: h in after.hostnames <==> h in t.hostnames && Some(h) != released
  {
    if NormalizeMachineHostname(hostname).Some? {
      var norm := NormalizeMachineHostname(hostname).value;
      var held, kept := HeldAs(norm, TrimSpace(tenant), TrimSpace(project), TrimSpace(machine)), NotHostname(norm);
      var found := First(t.hostnames, held);
      if found.None? {
        assert forall h :: h in t.hostnames ==> !held(h);
      } else {
        forall h | h in t.hostnames ensures kept(h) <==> h != found.value {
          if h.hostname == norm {
            KeyUnique(t.hostnames, HostnameKey, h, found.value);
          }
        }
      }
    }
  }

  /** Deleting a project drops and returns exactly its machines' hostnames. */
  lemma ReleaseProjectRows(t: Tables, tenant: string, project: string, h: Hostname)
    ensures h in ReleaseHostnamesOfProject(t, tenant, project).0.hostnames <==>
            h in t.hostnames && !(h.tenant == TrimSpace(tenant) && h.project == TrimSpace(project))
    ensures h in ReleaseHostnamesOfProject(t, tenant, project).1 <==>
            h in t.hostnames && h.tenant == TrimSpace(tenant) && h.project == TrimSpace(project)
  {
    var outside, inside := OutsideProject(tenant, project), InsideProject(tenant, project);
    assert outside(h) <==> !inside(h);
  }

  /** The hostname GC: a row stays iff its project is listed and, with a machine listing, its machine is too. */
  lemma GcHostnamesRows(t: Tables, live: LiveProjects, machines: Option<set<string>>, h: Hostname)
    requires live != map[]
    ensures var kept := h.tenant in live && (exists p :: p in live[h.tenant] && TrimSpace(p) == h.project)
                        && (machines.None? || h.tenant + "/" + h.project + "/" + h.machine in machines.value);
            && (h in GcHostnames(t, live, machines).0.hostnames <==> h in t.hostnames && kept)
            && (h in GcHostnames(t, live, machines).1 <==> h in t.hostnames && !kept)
  {
    var kept, dropped := HostnameLive(live, machines), HostnameDead(live, machines);
    assert kept(h) <==> !dropped(h);
  }

  // ---------------------------------------------------------------- routes

  /** A publish of a stored hostname changes nothing: the same backend gets the row back, any other is refused. */
  lemma UpsertStored(t: Tables, req: Route, now: int)
    requires GetRoute(t.routes, NormalizeHostname(req.hostname)).Some?
    requires NormalizeHostname(req.hostname) != "" && TrimSpace(req.tenant) != "" && req.backendPort > 0
    ensures var row := GetRoute(t.routes, NormalizeHostname(req.hostname)).value;
            && row in t.routes && row.hostname == NormalizeHostname(NormalizeHostname(req.hostname))
            && UpsertRoute(t, req, now) ==
               (t, if row.tenant != TrimSpace(req.tenant) then RouteTaken(true)
                   else if row.project != TrimSpace(req.project) || row.machine != TrimSpace(req.machine)
                           || row.backendPort != req.backendPort then RouteTaken(false)
                   else Published(Some(row)))
  {}

  /** A publish without a hostname, a tenant or a positive port is refused. */
  lemma UpsertIncomplete(t: Tables, req: Route, now: int)
    ensures UpsertRoute(t, req, now).1 == RouteIncomplete <==>
            NormalizeHostname(req.hostname) == "" || TrimSpace(req.tenant) == "" || req.backendPort <= 0
    ensures UpsertRoute(t, req, now).1 == RouteIncomplete ==> UpsertRoute(t, req, now).0 == t
  {}

  /** A delete drops the row of the hostname iff the lookup finds one its tenant may remove; all others stay. */
  lemma DeleteRouteRows(t: Tables, rawHostname: string, rawTenant: string)
    ensures var (after, removed) := DeleteRoute(t, rawHostname, rawTenant);
            var found := GetRoute(t.routes, NormalizeHostname(rawHostname));
            && (removed.Some? <==> found.Some? && (TrimSpace(rawTenant) == "" || found.value.tenant == TrimSpace(rawTenant)))
            && (removed.Some? ==>
                  && removed == found && removed.value in t.routes
                  && removed.value.hostname == NormalizeHostname(NormalizeHostname(rawHostname)))
            && after == t.(routes := after.routes)
            && forall r :: r in after.routes <==> r in t.routes && (removed.Some? ==> r.hostname != NormalizeHostname(rawHostname))
  {
    var kept := NotRoute(NormalizeHostname(rawHostname));
    assert forall r :: kept(r) <==> r.hostname != NormalizeHostname(rawHostname);
  }

  // ---------------------------------------------------------------- what a refusal reports

  /** An install name at or under the candidate. */
  ghost predicate InstallHit(install: Install, name: string, existing: string) {
    exists n :: n in [install.authHostname, install.routeBase] && NormalizeHostname(n) == existing && existing != "" && Under(existing, name)
  }

  ghost predicate RouteHit(routes: seq<Route>, name: string, existing: string) {
    exists r :: r in routes && RouteName(r.hostname) == existing && existing != "" && Under(existing, name)
  }

  /** How an existing name stands to the candidate. */
  predicate Stands(kind: ConflictKind, existing: string, candidate: string) {
    match kind
    case Exact => existing == candidate
    case Ancestor => HasSuffix(existing, "." + candidate)
    case Descendant => HasSuffix(candidate, "." + existing)
    case _ => false
  }

  ghost predicate ClaimHit(claims: seq<Claim>, name: string, tenant: string, project: string, x: Conflict) {
    exists c :: c in claims && !(c.tenant == tenant && c.project == project) && c.domain == x.existing && c.project == x.project
                && x.sameTenant == (c.tenant == tenant) && Stands(x.kind, c.domain, name)
  }

  ghost predicate HostnameHit(hostnames: seq<Hostname>, name: string, tenant: string, x: Conflict) {
    exists h :: h in hostnames && h.hostname == x.existing && h.project == x.project && h.machine == x.machine
                && x.sameTenant == (h.tenant == tenant) && Related(Base(h.hostname), name)
  }

  lemma RelatedStands(existing: string, candidate: string)
    requires Related(existing, candidate)
    ensures Stands(ClassOf(existing, candidate), existing, candidate)
  {}

  lemma ForeignHitIsReal(claims: seq<Claim>, d: string, tenant: string, project: string)
    requires First(claims, HitsForeignClaim(d, tenant, project)).Some?
    ensures var c := First(claims, HitsForeignClaim(d, tenant, project)).value;
            && Stands(ClassOf(c.domain, d), c.domain, d)
            && ClaimHit(claims, d, tenant, project, Conflict(ClassOf(c.domain, d), c.domain, c.project, "", c.tenant == tenant))
  {
    var c := First(claims, HitsForeignClaim(d, tenant, project)).value;
    RelatedStands(c.domain, d);
    assert c in claims;
  }

  lemma HeldHitIsReal(hostnames: seq<Hostname>, name: string, tenant: string, kind: ConflictKind)
    requires First(hostnames, HitsHostname(name)).Some?
    ensures var h := First(hostnames, HitsHostname(name)).value;
            HostnameHit(hostnames, name, tenant, Conflict(kind, h.hostname, h.project, h.machine, h.tenant == tenant))
  {
    assert First(hostnames, HitsHostname(name)).value in hostnames;
  }

  lemma InstallHitIsReal(install: Install, name: string)
    requires First(InstallNames(install), HitsInstallName(name)).Some?
    ensures InstallHit(install, name, NormalizeHostname(First(InstallNames(install), HitsInstallName(name)).value))
  {
    var reserved := First(InstallNames(install), HitsInstallName(name)).value;
    assert reserved in [install.authHostname, install.routeBase];
  }

  lemma RouteHitIsReal(routes: seq<Route>, name: string)
    requires First(routes, HitsRoute(name)).Some?
    ensures RouteHit(routes, name, RouteName(First(routes, HitsRoute(name)).value.hostname))
  {
    assert First(routes, HitsRoute(name)).value in routes;
  }

  /** A refused Project Domain names a row, or an install name, that is really in the way, and how it stands. */
  lemma DomainConflictIsReal(install: Install, t: Tables, d: string, tenant: string, project: string)
    requires DomainScan(install, t, d, tenant, project).Some?
    ensures var x := DomainScan(install, t, d, tenant, project).value;
            match x.kind
            case InstallClash => InstallHit(install, d, x.existing)
            case RouteClash => RouteHit(t.routes, d, x.existing)
            case MachineClash => HostnameHit(t.hostnames, d, tenant, x)
            case _ => ClaimHit(t.claims, d, tenant, project, x)
  {
    if First(InstallNames(install), HitsInstallName(d)).Some? {
      InstallHitIsReal(install, d);
    } else if First(t.routes, HitsRoute(d)).Some? {
      RouteHitIsReal(t.routes, d);
    } else if First(t.claims, HitsForeignClaim(d, tenant, project)).Some? {
      ForeignHitIsReal(t.claims, d, tenant, project);
    } else {
      HeldHitIsReal(t.hostnames, d, tenant, MachineClash);
    }
  }

  ghost predicate DomainHit(claims: seq<Claim>, name: string, tenant: string, x: Conflict) {
    exists c :: c in claims && c.domain == x.existing && c.project == x.project
                && x.sameTenant == (c.tenant == tenant) && Related(c.domain, name)
  }

  /** A refused hostname does so too. */
  lemma HostnameConflictIsReal(install: Install, routes: seq<Route>, claims: seq<Claim>, hostnames: seq<Hostname>, name: string,
                               tenant: string)
    requires HostnameScan(install, routes, claims, hostnames, name, tenant).Some?
    ensures var x := HostnameScan(install, routes, claims, hostnames, name, tenant).value;
            match x.kind
            case InstallClash => InstallHit(install, Base(name), x.existing)
            case RouteClash => RouteHit(routes, Base(name), x.existing)
            case DomainClash => DomainHit(claims, Base(name), tenant, x)
            case _ => HostnameHit(hostnames, Base(name), tenant, x) && Stands(x.kind, Base(x.existing), Base(name))
  {
    var b := Base(name);
    var reserved, route := First(InstallNames(install), HitsInstallName(b)), First(routes, HitsRoute(b));
    var claim, held := First(claims, HitsClaim(b)), First(hostnames, HitsHostname(b));
    if reserved.Some? {
      assert reserved.value in [install.authHostname, install.routeBase];
    } else if route.Some? {
      assert route.value in routes;
    } else if claim.Some? {
      assert claim.value in claims;
    } else {
      RelatedStands(Base(held.value.hostname), b);
      assert held.value in hostnames;
    }
  }

  /** A route refused for a reservation lies at or under the one it names. */
  lemma RouteInsideIsReal(t: Tables, stored: string)
    ensures match RouteInside(t, stored)
            case None => true
            case Some(RouteInsideDomain(domain)) => exists c :: c in t.claims && c.domain == domain && Under(RouteName(stored), domain)
            case Some(RouteInsideHostname(hostname)) =>
              exists h :: h in t.hostnames && h.hostname == hostname && Under(RouteName(stored), Base(hostname))
            case Some(_) => false
  {}
}
