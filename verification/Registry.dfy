/**
 The install-wide reservation registry: Public DNS Zones, Project Domain claims, explicit Machine
 Public Hostnames and Public Routes, and what each registry call does to these four tables.

 A table is the sequence of its rows in primary-key order, which is what the `ORDER BY` listings
 return. Every call is one atomic step: for the two claim functions the source takes SQLite's write
 lock (`withReservationLock`), for the other calls atomicity is an assumption of the model.
 */
module Registry {
  import opened Text
  import opened Names

  // ---------------------------------------------------------------- rows

  datatype Zone = Zone(name: string, cloudflareZone: string)

  datatype Claim = Claim(
    domain: string, tenant: string, project: string, zone: string, userKey: string, createdAt: int)

  datatype Hostname = Hostname(
    hostname: string, tenant: string, project: string, machine: string, zone: string,
    userKey: string, createdAt: int)

  datatype Route = Route(
    hostname: string, tenant: string, project: string, machine: string,
    backendPort: int, localPort: int, createdAt: int)

  datatype Tables = Tables(
    zones: seq<Zone>, claims: seq<Claim>, hostnames: seq<Hostname>, routes: seq<Route>)

  /** The install's own names; either may be empty. They are fixed over a run. */
  datatype Install = Install(authHostname: string, routeBase: string)

  function ZoneKey(z: Zone): string { z.name }
  function ClaimKey(c: Claim): string { c.domain }
  function HostnameKey(h: Hostname): string { h.hostname }
  function RouteKey(r: Route): string { r.hostname }

  // ---------------------------------------------------------------- refusals

  datatype ConflictKind = Exact | Ancestor | Descendant | RouteClash | InstallClash | MachineClash | DomainClash

  datatype Conflict = Conflict(
    kind: ConflictKind, existing: string, project: string, machine: string, sameTenant: bool)

  datatype Refusal =
    | BadName | OwnerMissing | NoZone | Apex(zone: string) | TooLong
    | Clash(conflict: Conflict)
    | InsertConflict  // the primary key or a UNIQUE constraint refused the INSERT

  // ---------------------------------------------------------------- zone lookup

  /** The longest-match loop over the registered zones; "" when none covers the name. */
  function CoveringZone(name: string, zones: seq<Zone>): string {
    if zones == [] then ""
    else
      var best := CoveringZone(name, zones[..|zones| - 1]);
      var z := zones[|zones| - 1].name;
      if Under(name, z) && |z| > |best| then z else best
  }

  // ---------------------------------------------------------------- zones

  datatype CloudflareZone = CloudflareZone(id: string, name: string)

  datatype ZoneOutcome =
    | ZoneOk | ZoneBadName | ZoneExists | ZoneOverlap(other: string) | ZoneNotFound
    | ZoneClaimed | ZoneRejected

  function HitsZone(zone: string): Zone -> bool {
    (z: Zone) => Related(zone, z.name)
  }

  /** `CheckPublicDNSZoneAddable`: the first registered zone equal to, above or below the new one. */
  function ZoneAddable(zone: string, zones: seq<Zone>): ZoneOutcome {
    match First(zones, HitsZone(zone))
    case None => ZoneOk
    case Some(z) => if z.name == zone then ZoneExists else ZoneOverlap(z.name)
  }

  /** The candidates of `containingCloudflareZone` that tie for the longest name, in listing order. */
  function LongestContaining(zone: string, visible: seq<CloudflareZone>): (best: seq<CloudflareZone>)
    ensures forall c :: c in best ==> c.name != "" && Under(zone, c.name)
  {
    if visible == [] then []
    else
      var best := LongestContaining(zone, visible[..|visible| - 1]);
      var last := visible[|visible| - 1];
      var name := FoldName(last.name);
      if name == "" || !Under(zone, name) then best
      else if best == [] || |name| > |best[0].name| then [last.(name := name)]
      else if |name| == |best[0].name| then best + [last.(name := name)]
      else best
  }

  function ContainingCloudflareZone(zone: string, visible: seq<CloudflareZone>): Option<CloudflareZone> {
    var best := LongestContaining(zone, visible);
    if |best| == 1 then Some(best[0]) else None
  }

  function CloudflareZoneOrSelf(zone: string, cloudflareZone: string): string {
    var folded := FoldName(cloudflareZone);
    if folded == "" then zone else folded
  }

  /** The pre-flight, the Cloudflare resolution and the insert of a normalized zone. */
  function AdmitZone(t: Tables, zone: string, visible: seq<CloudflareZone>): (Tables, ZoneOutcome) {
    var addable := ZoneAddable(zone, t.zones);
    if addable != ZoneOk then (t, addable)
    else
      match ContainingCloudflareZone(zone, visible)
      case None => (t, ZoneRejected)
      case Some(cf) =>
        (t.(zones := Insert(t.zones, Zone(zone, CloudflareZoneOrSelf(zone, cf.name)), ZoneKey)), ZoneOk)
  }

  /** `zone add`. */
  function AddZone(t: Tables, rawZone: string, visible: seq<CloudflareZone>): (Tables, ZoneOutcome) {
    match NormalizeZone(rawZone)
    case None => (t, ZoneBadName)
    case Some(zone) => AdmitZone(t, zone, visible)
  }

  function Retokened(zone: string, cloudflareZone: string, zones: seq<Zone>): (r: seq<Zone>)
    ensures |r| == |zones|
    ensures forall i :: 0 <= i < |zones| ==>
              r[i] == if zones[i].name == zone then zones[i].(cloudflareZone := cloudflareZone) else zones[i]
  {
    seq(|zones|, i requires 0 <= i < |zones| =>
      if zones[i].name == zone then zones[i].(cloudflareZone := cloudflareZone) else zones[i])
  }

  /** `zone set-token`: re-records the Cloudflare zone the new token resolved. */
  function SetZoneToken(t: Tables, rawZone: string, visible: seq<CloudflareZone>): (Tables, ZoneOutcome) {
    match NormalizeZone(rawZone)
    case None => (t, ZoneBadName)
    case Some(zone) =>
      if forall z :: z in t.zones ==> z.name != zone then (t, ZoneNotFound)
      else
        match ContainingCloudflareZone(zone, visible)
        case None => (t, ZoneRejected)
        case Some(cf) => (t.(zones := Retokened(zone, CloudflareZoneOrSelf(zone, cf.name), t.zones)), ZoneOk)
  }

  function NotZone(zone: string): Zone -> bool {
    (z: Zone) => z.name != zone
  }

  /** `zone remove`: refused while a claim or a hostname records the zone. */
  function RemoveZone(t: Tables, rawZone: string): (Tables, ZoneOutcome) {
    match NormalizeZone(rawZone)
    case None => (t, ZoneBadName)
    case Some(zone) =>
      if forall z :: z in t.zones ==> z.name != zone then (t, ZoneNotFound)
      else if (exists c :: c in t.claims && c.zone == zone) || (exists h :: h in t.hostnames && h.zone == zone)
      then (t, ZoneClaimed)
      else (t.(zones := Filter(t.zones, NotZone(zone))), ZoneOk)
  }

  // ---------------------------------------------------------------- conflict scans

  function InstallNames(install: Install): seq<string> {
    [install.authHostname, install.routeBase]
  }

  function HitsInstallName(d: string): string -> bool {
    (reserved: string) => NormalizeHostname(reserved) != "" && Under(NormalizeHostname(reserved), d)
  }

  function HitsRoute(d: string): Route -> bool {
    (r: Route) => RouteName(r.hostname) != "" && Under(RouteName(r.hostname), d)
  }

  function OwnedBy(tenant: string, project: string): Claim -> bool {
    (c: Claim) => c.tenant == tenant && c.project == project
  }

  function NotOwnedBy(tenant: string, project: string): Claim -> bool {
    (c: Claim) => !(c.tenant == tenant && c.project == project)
  }

  function HitsForeignClaim(d: string, tenant: string, project: string): Claim -> bool {
    (c: Claim) => !(c.tenant == tenant && c.project == project) && Related(c.domain, d)
  }

  function HitsClaim(name: string): Claim -> bool {
    (c: Claim) => Related(c.domain, name)
  }

  function HitsHostname(name: string): Hostname -> bool {
    (h: Hostname) => Related(Base(h.hostname), name)
  }

  /** How a candidate relates to an existing name it conflicts with. */
  function ClassOf(existing: string, candidate: string): ConflictKind {
    if existing == candidate then Exact
    else if StrictlyUnder(existing, candidate) then Ancestor
    else Descendant
  }

  /** `scanProjectDomainConflicts`: install names, routes, other projects' claims, hostnames. */
  function DomainScan(install: Install, t: Tables, d: string, tenant: string, project: string): Option<Conflict> {
    match First(InstallNames(install), HitsInstallName(d))
    case Some(reserved) => Some(Conflict(InstallClash, NormalizeHostname(reserved), "", "", false))
    case None =>
      match First(t.routes, HitsRoute(d))
      case Some(r) => Some(Conflict(RouteClash, RouteName(r.hostname), "", "", false))
      case None =>
        match First(t.claims, HitsForeignClaim(d, tenant, project))
        case Some(c) => Some(Conflict(ClassOf(c.domain, d), c.domain, c.project, "", c.tenant == tenant))
        case None =>
          match First(t.hostnames, HitsHostname(d))
          case Some(h) => Some(Conflict(MachineClash, h.hostname, h.project, h.machine, h.tenant == tenant))
          case None => None
  }

  /** `scanMachineHostnameConflicts` over the snapshot the claim has already filtered. */
  function HostnameScan(install: Install, routes: seq<Route>, claims: seq<Claim>, hostnames: seq<Hostname>,
                        name: string, tenant: string): Option<Conflict> {
    var h := Base(name);
    match First(InstallNames(install), HitsInstallName(h))
    case Some(reserved) => Some(Conflict(InstallClash, NormalizeHostname(reserved), "", "", false))
    case None =>
      match First(routes, HitsRoute(h))
      case Some(r) => Some(Conflict(RouteClash, RouteName(r.hostname), "", "", false))
      case None =>
        match First(claims, HitsClaim(h))
        case Some(c) => Some(Conflict(DomainClash, c.domain, c.project, "", c.tenant == tenant))
        case None =>
          match First(hostnames, HitsHostname(h))
          case Some(e) =>
            Some(Conflict(ClassOf(Base(e.hostname), h), e.hostname, e.project, e.machine, e.tenant == tenant))
          case None => None
  }

  // ---------------------------------------------------------------- Project Domain claims

  const PROJECT_DOMAIN_MAX_LENGTH := 253 - 2 - 63 - 1
  const MACHINE_HOSTNAME_MAX_LENGTH := 253 - 2

  datatype DomainRequest = DomainRequest(
    domain: string, tenant: string, project: string, userKey: string, dryRun: bool)

  datatype DomainOutcome =
    | Claimed(claim: Claim, previous: Option<Claim>)
    | AlreadyClaimed(claim: Claim)
    | DomainRefused(reason: Refusal)

  function ValidateProjectDomain(norm: string, zones: seq<Zone>): (r: Option<Refusal>) {
    var zone := CoveringZone(norm, zones);
    if zone == "" then Some(NoZone)
    else if norm == zone then Some(Apex(zone))
    else if |norm| > PROJECT_DOMAIN_MAX_LENGTH then Some(TooLong)
    else None
  }

  /** `INSERT INTO project_domain_claims`: `domain` is the key and (tenant, project) is UNIQUE. */
  function InsertClaim(claims: seq<Claim>, claim: Claim): Option<seq<Claim>> {
    if exists c :: c in claims && (c.domain == claim.domain || (c.tenant == claim.tenant && c.project == claim.project))
    then None
    else Some(Insert(claims, claim, ClaimKey))
  }

  /** The locked part of a claim: own previous claim, conflict scan, delete and insert. */
  function AdmitDomain(install: Install, t: Tables, claim: Claim, dryRun: bool): (r: (Tables, DomainOutcome))
    ensures !r.1.Claimed? || dryRun ==> r.0 == t
  {
    var previous := First(t.claims, OwnedBy(claim.tenant, claim.project));
    if previous.Some? && previous.value.domain == claim.domain then (t, AlreadyClaimed(previous.value))
    else
      var clash := DomainScan(install, t, claim.domain, claim.tenant, claim.project);
      if clash.Some? then (t, DomainRefused(Clash(clash.value)))
      else if dryRun then (t, Claimed(claim, previous))
      else
        var others := Filter(t.claims, NotOwnedBy(claim.tenant, claim.project));
        match InsertClaim(if previous.Some? then others else t.claims, claim)
        case None => (t, DomainRefused(InsertConflict))
        case Some(claims) => (t.(claims := claims), Claimed(claim, previous))
  }

  /** A refused, repeated or dry-run claim leaves the tables alone. */
  function ClaimDomain(install: Install, t: Tables, req: DomainRequest, now: int): (r: (Tables, DomainOutcome))
    ensures !r.1.Claimed? || req.dryRun ==> r.0 == t
  {
    match NormalizeName(req.domain)
    case None => (t, DomainRefused(BadName))
    case Some(norm) =>
      var tenant, project := TrimSpace(req.tenant), TrimSpace(req.project);
      if tenant == "" || project == "" then (t, DomainRefused(OwnerMissing))
      else
        match ValidateProjectDomain(norm, t.zones)
        case Some(refusal) => (t, DomainRefused(refusal))
        case None =>
          var claim := Claim(norm, tenant, project, CoveringZone(norm, t.zones), TrimSpace(req.userKey), now);
          AdmitDomain(install, t, claim, req.dryRun)
  }

  function ReleaseDomain(t: Tables, tenant: string, project: string): (Tables, Option<Claim>) {
    var held := First(t.claims, OwnedBy(TrimSpace(tenant), TrimSpace(project)));
    if held.None? then (t, None)
    else (t.(claims := Filter(t.claims, NotOwnedBy(held.value.tenant, held.value.project))), held)
  }

  /**
   The compensation insert, with no conflict scan: `INSERT OR IGNORE` skips a taken domain or project, and the
   foreign key on the zone refuses a claim whose zone is gone.
   */
  function RestoreDomain(t: Tables, claim: Claim): Tables {
    if forall z :: z in t.zones ==> z.name != claim.zone then t
    else
      match InsertClaim(t.claims, claim)
      case None => t
      case Some(claims) => t.(claims := claims)
  }

  /** Which projects the slow loop saw, per tenant. */
  type LiveProjects = map<string, seq<string>>

  predicate ProjectLive(live: LiveProjects, tenant: string, project: string) {
    tenant in live && exists p :: p in live[tenant] && TrimSpace(p) == project
  }

  function ClaimLive(live: LiveProjects): Claim -> bool {
    (c: Claim) => ProjectLive(live, c.tenant, c.project)
  }

  function ClaimDead(live: LiveProjects): Claim -> bool {
    (c: Claim) => !ProjectLive(live, c.tenant, c.project)
  }

  /** The claim GC; an empty live set is never trusted. Returns the dropped claims. */
  function GcDomains(t: Tables, live: LiveProjects): (Tables, seq<Claim>) {
    if live == map[] then (t, [])
    else (t.(claims := Filter(t.claims, ClaimLive(live))), Filter(t.claims, ClaimDead(live)))
  }

  // ---------------------------------------------------------------- machine hostnames

  datatype HostnameRequest = HostnameRequest(
    hostname: string, tenant: string, project: string, machine: string, userKey: string, dryRun: bool)

  datatype HostnameOutcome =
    | HostnameClaimed(row: Hostname)
    | AlreadyHeld(row: Hostname)
    | HostnameRefused(reason: Refusal)

  predicate SameMachine(h: Hostname, tenant: string, project: string, machine: string) {
    h.tenant == tenant && h.project == project && h.machine == machine
  }

  function HeldAs(name: string, tenant: string, project: string, machine: string): Hostname -> bool {
    (h: Hostname) => h.hostname == name && SameMachine(h, tenant, project, machine)
  }

  /** The caller's own Project Domain whose derived name for this machine is the requested name. */
  function DerivesName(name: string, tenant: string, project: string, machine: string): Claim -> bool {
    (c: Claim) =>
      && c.tenant == tenant && c.project == project && StrictlyUnder(Base(name), c.domain)
      && name == machine + "." + c.domain
  }

  /** Claims that still block: all but the caller's own domain strictly above the name. */
  function BlockingClaim(name: string, tenant: string, project: string): Claim -> bool {
    (c: Claim) => !(c.tenant == tenant && c.project == project && StrictlyUnder(Base(name), c.domain))
  }

  /** Hostnames that still block: a wildcard and a deeper name on one machine may coexist. */
  function BlockingHostname(name: string, tenant: string, project: string, machine: string): Hostname -> bool {
    (h: Hostname) =>
      !(&& SameMachine(h, tenant, project, machine)
        && (IsWildcard(name) || IsWildcard(h.hostname))
        && Base(name) != Base(h.hostname))
  }

  /** The scan of a hostname claim, on the snapshot without the rows that may stay beside it. */
  function HostnameClash(install: Install, t: Tables, row: Hostname): Option<Conflict> {
    HostnameScan(install, t.routes,
                 Filter(t.claims, BlockingClaim(row.hostname, row.tenant, row.project)),
                 Filter(t.hostnames, BlockingHostname(row.hostname, row.tenant, row.project, row.machine)),
                 row.hostname, row.tenant)
  }

  /** The locked part of a hostname claim. `tunnel` is the answer of the dedicated-tunnel lookup. */
  function AdmitHostname(install: Install, t: Tables, row: Hostname, tunnel: Option<string>, dryRun: bool)
    : (r: (Tables, HostnameOutcome))
    ensures !r.1.HostnameClaimed? || dryRun ==> r.0 == t
  {
    if tunnel.Some? then (t, HostnameRefused(Clash(Conflict(Exact, tunnel.value, "", "", false))))
    else
      match First(t.hostnames, HeldAs(row.hostname, row.tenant, row.project, row.machine))
      case Some(held) => (t, AlreadyHeld(held))
      case None =>
        match First(t.claims, DerivesName(row.hostname, row.tenant, row.project, row.machine))
        case Some(c) => (t, HostnameRefused(Clash(Conflict(DomainClash, c.domain, row.project, "", true))))
        case None =>
          match HostnameClash(install, t, row)
          case Some(clash) => (t, HostnameRefused(Clash(clash)))
          case None =>
            if dryRun then (t, HostnameClaimed(row))
            else if exists h :: h in t.hostnames && h.hostname == row.hostname then (t, HostnameRefused(InsertConflict))
            else (t.(hostnames := Insert(t.hostnames, row, HostnameKey)), HostnameClaimed(row))
  }

  /** The checks before the lock: a well-formed name and owner, a covering zone, the length. */
  function CheckHostname(hostname: string, tenant: string, project: string, machine: string, zones: seq<Zone>): (r: Option<Refusal>)
    ensures r.None? ==> NormalizeMachineHostname(hostname).Some?
  {
    match NormalizeMachineHostname(hostname)
    case None => Some(BadName)
    case Some(norm) =>
      if TrimSpace(tenant) == "" || TrimSpace(project) == "" || TrimSpace(machine) == "" then Some(OwnerMissing)
      else if CoveringZone(norm, zones) == "" then Some(NoZone)
      else if |norm| > MACHINE_HOSTNAME_MAX_LENGTH then Some(TooLong)
      else None
  }

  /** The row a well-formed request asks for. */
  function HostnameRow(t: Tables, req: HostnameRequest, now: int): Hostname
    requires NormalizeMachineHostname(req.hostname).Some?
  {
    var norm := NormalizeMachineHostname(req.hostname).value;
    Hostname(norm, TrimSpace(req.tenant), TrimSpace(req.project), TrimSpace(req.machine), CoveringZone(norm, t.zones),
             TrimSpace(req.userKey), now)
  }

  /** A refused, repeated or dry-run claim leaves the tables alone. */
  function ClaimHostname(install: Install, t: Tables, req: HostnameRequest, tunnel: Option<string>, now: int)
    : (r: (Tables, HostnameOutcome))
    ensures !r.1.HostnameClaimed? || req.dryRun ==> r.0 == t
  {
    match CheckHostname(req.hostname, req.tenant, req.project, req.machine, t.zones)
    case Some(refusal) => (t, HostnameRefused(refusal))
    case None => AdmitHostname(install, t, HostnameRow(t, req, now), tunnel, req.dryRun)
  }

  function NotHostname(name: string): Hostname -> bool {
    (h: Hostname) => h.hostname != name
  }

  function ReleaseHostname(t: Tables, tenant: string, project: string, machine: string, hostname: string)
    : (Tables, Option<Hostname>)
  {
    match NormalizeMachineHostname(hostname)
    case None => (t, None)
    case Some(norm) =>
      var held := First(t.hostnames, HeldAs(norm, TrimSpace(tenant), TrimSpace(project), TrimSpace(machine)));
      if held.None? then (t, None) else (t.(hostnames := Filter(t.hostnames, NotHostname(norm))), held)
  }

  function OutsideProject(tenant: string, project: string): Hostname -> bool {
    (h: Hostname) => !(h.tenant == TrimSpace(tenant) && h.project == TrimSpace(project))
  }

  function InsideProject(tenant: string, project: string): Hostname -> bool {
    (h: Hostname) => h.tenant == TrimSpace(tenant) && h.project == TrimSpace(project)
  }

  function ReleaseHostnamesOfProject(t: Tables, tenant: string, project: string): (Tables, seq<Hostname>) {
    (t.(hostnames := Filter(t.hostnames, OutsideProject(tenant, project))),
     Filter(t.hostnames, InsideProject(tenant, project)))
  }

  function MachineRef(h: Hostname): string {
    h.tenant + "/" + h.project + "/" + h.machine
  }

  /** `machines` is None when the machine listing is unavailable. */
  function HostnameLive(live: LiveProjects, machines: Option<set<string>>): Hostname -> bool {
    (h: Hostname) =>
      ProjectLive(live, h.tenant, h.project) && (machines.None? || MachineRef(h) in machines.value)
  }

  function HostnameDead(live: LiveProjects, machines: Option<set<string>>): Hostname -> bool {
    (h: Hostname) =>
      !(ProjectLive(live, h.tenant, h.project) && (machines.None? || MachineRef(h) in machines.value))
  }

  function GcHostnames(t: Tables, live: LiveProjects, machines: Option<set<string>>): (Tables, seq<Hostname>) {
    if live == map[] then (t, [])
    else (t.(hostnames := Filter(t.hostnames, HostnameLive(live, machines))),
          Filter(t.hostnames, HostnameDead(live, machines)))
  }

  // ---------------------------------------------------------------- Public Routes

  const LOCAL_PORT_BASE := 20000
  const LOCAL_PORT_CEILING := 30000

  datatype RouteOutcome =
    | Published(route: Option<Route>)  // the row as read back, None when the read-back misses it
    | RouteIncomplete
    | RouteInsideDomain(domain: string)
    | RouteInsideHostname(hostname: string)
    | RouteTaken(crossTenant: bool)
    | NoFreePort
    | RouteInsertConflict

  function IsRoute(name: string): Route -> bool {
    (r: Route) => r.hostname == name
  }

  function NotRoute(name: string): Route -> bool {
    (r: Route) => r.hostname != name
  }

  /** `GetRoute` normalizes its argument once more. */
  function GetRoute(routes: seq<Route>, hostname: string): Option<Route> {
    First(routes, IsRoute(NormalizeHostname(hostname)))
  }

  function CoversRoute(name: string): Claim -> bool {
    (c: Claim) => Under(name, c.domain)
  }

  function HostnameCoversRoute(name: string): Hostname -> bool {
    (h: Hostname) => Under(name, Base(h.hostname))
  }

  /** The reverse checks of a new route: inside a Project Domain, inside a machine hostname. */
  function RouteInside(t: Tables, stored: string): Option<RouteOutcome> {
    var name := RouteName(stored);
    if name == "" then None
    else
      match First(t.claims, CoversRoute(name))
      case Some(c) => Some(RouteInsideDomain(c.domain))
      case None =>
        match First(t.hostnames, HostnameCoversRoute(name))
        case Some(h) => Some(RouteInsideHostname(h.hostname))
        case None => None
  }

  predicate PortUsed(routes: seq<Route>, port: int) {
    exists r :: r in routes && r.localPort == port
  }

  /** The lowest port at or above `from` that no route holds. */
  function FreePort(routes: seq<Route>, from: int): (r: Option<int>)
    requires LOCAL_PORT_BASE <= from <= LOCAL_PORT_CEILING
    ensures r.Some? ==> from <= r.value < LOCAL_PORT_CEILING && !PortUsed(routes, r.value)
    ensures r.None? ==> forall p :: from <= p < LOCAL_PORT_CEILING ==> PortUsed(routes, p)
    decreases LOCAL_PORT_CEILING - from
  {
    if from == LOCAL_PORT_CEILING then None
    else if !PortUsed(routes, from) then Some(from)
    else FreePort(routes, from + 1)
  }

  /** A new route: reverse checks, the lowest free port, the insert and the read-back. */
  function AdmitRoute(t: Tables, row: Route): (Tables, RouteOutcome) {
    match RouteInside(t, row.hostname)
    case Some(refusal) => (t, refusal)
    case None =>
      match FreePort(t.routes, LOCAL_PORT_BASE)
      case None => (t, NoFreePort)
      case Some(port) =>
        if exists r :: r in t.routes && r.hostname == row.hostname then (t, RouteInsertConflict)
        else
          var routes := Insert(t.routes, row.(localPort := port), RouteKey);
          (t.(routes := routes), Published(GetRoute(routes, row.hostname)))
  }

  function UpsertRoute(t: Tables, request: Route, now: int): (Tables, RouteOutcome) {
    var row := request.(hostname := NormalizeHostname(request.hostname), tenant := TrimSpace(request.tenant),
                        project := TrimSpace(request.project), machine := TrimSpace(request.machine),
                        createdAt := now);
    if row.hostname == "" || row.tenant == "" || row.backendPort <= 0 then (t, RouteIncomplete)
    else
      match GetRoute(t.routes, row.hostname)
      case Some(existing) =>
        if existing.tenant != row.tenant then (t, RouteTaken(true))
        else if existing.project == row.project && existing.machine == row.machine && existing.backendPort == row.backendPort
        then (t, Published(Some(existing)))
        else (t, RouteTaken(false))
      case None => AdmitRoute(t, row)
  }

  /** A missing route, or one of another tenant, is refused (`None`). */
  function DeleteRoute(t: Tables, rawHostname: string, rawTenant: string): (Tables, Option<Route>) {
    var hostname, tenant := NormalizeHostname(rawHostname), TrimSpace(rawTenant);
    var route := GetRoute(t.routes, hostname);
    if route.None? || (tenant != "" && route.value.tenant != tenant) then (t, None)
    else (t.(routes := Filter(t.routes, NotRoute(hostname))), route)
  }

  function PruneRoute(t: Tables, hostname: string): Tables {
    t.(routes := Filter(t.routes, NotRoute(NormalizeHostname(hostname))))
  }
}
