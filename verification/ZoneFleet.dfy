/**
 A whole pass over the fleet: machines and registry rows become targets, every zone with a claim or a
 hostname gets a record pass, and zones that share one Cloudflare zone do not disturb each other.
 */
module ZoneFleet {
  import opened Text
  import opened Names
  import opened Registry
  import opened RegistryInvariant
  import opened ZoneRecords

  // ---------------------------------------------------------------- targets

  /** One instance; `projectDomain` is the domain key of its Incus project, `addr` its bridge address. */
  datatype Machine = Machine(tenant: string, project: string, name: string, projectDomain: string, addr: Option<int>)

  datatype MachineTargets = MachineTargets(targets: seq<Target>, converge: bool)

  /** Exactly one label above the Project Domain. */
  predicate CoveredByProjectCertificate(hostname: string, projectDomain: string) {
    var h, d := Lower(TrimDots(TrimSpace(hostname))), Lower(TrimDots(TrimSpace(projectDomain)));
    && d != "" && HasSuffix(h, "." + d)
    && var above := TrimSuffix(h, "." + d);
       above != "" && '.' !in above && '*' !in above
  }

  /** The claims by project key; a later row of an equal key replaces an earlier one. */
  function ClaimByKey(claims: seq<Claim>, key: string): (r: Option<Claim>)
    ensures r.Some? ==> r.value in claims && r.value.tenant + "/" + r.value.project == key
  {
    if claims == [] then None
    else
      var last := claims[|claims| - 1];
      if last.tenant + "/" + last.project == key then Some(last) else ClaimByKey(claims[..|claims| - 1], key)
  }

  function OnMachine(key: string): Hostname -> bool {
    (h: Hostname) => MachineRef(h) == key
  }

  function ByHostname(a: Target, b: Target): bool {
    LessEq(a.hostname, b.hostname)
  }

  function Explicit(rows: seq<Hostname>, addr: Option<int>): (r: seq<Target>)
    ensures |r| == |rows|
    ensures forall i :: 0 <= i < |rows| ==> r[i] == Target(rows[i].hostname, rows[i].zone, "", false, addr)
  {
    seq(|rows|, i requires 0 <= i < |rows| => Target(rows[i].hostname, rows[i].zone, "", false, addr))
  }

  function Stamped(targets: seq<Target>, domain: string): (r: seq<Target>)
    ensures |r| == |targets|
    ensures forall i :: 0 <= i < |targets| ==>
              r[i] == targets[i].(projectDomain :=
                if CoveredByProjectCertificate(targets[i].hostname, domain) then domain else targets[i].projectDomain)
  {
    seq(|targets|, i requires 0 <= i < |targets| =>
      targets[i].(projectDomain :=
        if CoveredByProjectCertificate(targets[i].hostname, domain) then domain else targets[i].projectDomain))
  }

  /** `classify`: the derived name when claim and Incus key agree, and every explicit hostname, sorted. */
  function Classify(m: Machine, t: Tables): MachineTargets {
    var incusDomain := Lower(TrimSpace(m.projectDomain));
    var claim := ClaimByKey(t.claims, m.tenant + "/" + m.project);
    var explicit := Explicit(Filter(t.hostnames, OnMachine(m.tenant + "/" + m.project + "/" + m.name)), m.addr);
    if claim.Some? && (incusDomain == "" || claim.value.domain == incusDomain) then
      var derived := Target(Lower(m.name) + "." + claim.value.domain, claim.value.zone, "", true, m.addr);
      MachineTargets(StableSort(Stamped([derived] + explicit, claim.value.domain), ByHostname), true)
    else
      MachineTargets(StableSort(explicit, ByHostname), incusDomain == "")
  }

  /** `classify`, as it appends, stamps in place and sorts. */
  method ClassifyMachine(m: Machine, t: Tables) returns (mt: MachineTargets)
    ensures mt == Classify(m, t)
  {
    var incusDomain := Lower(TrimSpace(m.projectDomain));
    var claim := ClaimByKey(t.claims, m.tenant + "/" + m.project);
    var claimed, converge := claim.Some?, true;
    if claimed && incusDomain != "" && claim.value.domain != incusDomain {
      claimed, converge := false, false;
    } else if !claimed && incusDomain != "" {
      converge := false;
    }
    var explicit := AppendExplicit(Filter(t.hostnames, OnMachine(m.tenant + "/" + m.project + "/" + m.name)), m.addr);
    var targets := explicit;
    if claimed {
      var derived := Target(Lower(m.name) + "." + claim.value.domain, claim.value.zone, "", true, m.addr);
      targets := StampCovered([derived] + explicit, claim.value.domain);
    }
    mt := MachineTargets(StableSort(targets, ByHostname), converge);
  }

  method AppendExplicit(rows: seq<Hostname>, addr: Option<int>) returns (targets: seq<Target>)
    ensures targets == Explicit(rows, addr)
  {
    targets := [];
    for i := 0 to |rows|
      invariant |targets| == i
      invariant forall k :: 0 <= k < i ==> targets[k] == Target(rows[k].hostname, rows[k].zone, "", false, addr)
    {
      targets := targets + [Target(rows[i].hostname, rows[i].zone, "", false, addr)];
    }
  }

  method StampCovered(targets: seq<Target>, domain: string) returns (stamped: seq<Target>)
    ensures stamped == Stamped(targets, domain)
  {
    stamped := targets;
    for i := 0 to |targets|
      invariant |stamped| == |targets|
      invariant forall k :: 0 <= k < i ==> stamped[k] == Stamped(targets, domain)[k]
      invariant forall k :: i <= k < |targets| ==> stamped[k] == targets[k]
    {
      if CoveredByProjectCertificate(stamped[i].hostname, domain) {
        stamped := stamped[i := stamped[i].(projectDomain := domain)];
      }
    }
  }

  function FleetTargets(machines: seq<Machine>, t: Tables): seq<Target> {
    if machines == [] then []
    else FleetTargets(machines[..|machines| - 1], t) + Classify(machines[|machines| - 1], t).targets
  }

  /** Where a target comes from: a name below a claimed domain, or an explicit hostname. */
  ghost predicate FromClaim(x: Target, c: Claim) {
    x.zone == c.zone && x.derived && exists above :: x.hostname == above + "." + c.domain
  }

  ghost predicate FromHostname(x: Target, h: Hostname) {
    x.zone == h.zone && x.hostname == h.hostname
  }

  ghost predicate Sourced(x: Target, t: Tables) {
    || (exists c :: c in t.claims && FromClaim(x, c))
    || (exists h :: h in t.hostnames && FromHostname(x, h))
  }

  lemma ExplicitSourced(t: Tables, rows: seq<Hostname>, addr: Option<int>)
    requires forall h :: h in rows ==> h in t.hostnames
    ensures forall x :: x in Explicit(rows, addr) ==> Sourced(x, t)
  {
    var explicit := Explicit(rows, addr);
    forall x | x in explicit ensures Sourced(x, t) {
      var i :| 0 <= i < |explicit| && explicit[i] == x;
      assert rows[i] in t.hostnames && FromHostname(x, rows[i]);
    }
  }

  lemma StampedSourced(t: Tables, targets: seq<Target>, domain: string)
    requires forall x :: x in targets ==> Sourced(x, t)
    ensures forall x :: x in Stamped(targets, domain) ==> Sourced(x, t)
  {
    var stamped := Stamped(targets, domain);
    forall x | x in stamped ensures Sourced(x, t) {
      var i :| 0 <= i < |stamped| && stamped[i] == x;
      assert targets[i] in targets;
      SourcedStamp(targets[i], x, t);
    }
  }

  lemma SourcedStamp(x: Target, y: Target, t: Tables)
    requires Sourced(x, t) && y == x.(projectDomain := y.projectDomain)
    ensures Sourced(y, t)
  {
    if h :| h in t.hostnames && FromHostname(x, h) {
      assert FromHostname(y, h);
    } else {
      var c :| c in t.claims && FromClaim(x, c);
      assert FromClaim(y, c);
    }
  }

  lemma ClassifySourced(m: Machine, t: Tables)
    ensures forall x :: x in Classify(m, t).targets ==> Sourced(x, t)
  {
    var rows := Filter(t.hostnames, OnMachine(m.tenant + "/" + m.project + "/" + m.name));
    var explicit := Explicit(rows, m.addr);
    ExplicitSourced(t, rows, m.addr);
    SortMembers(explicit, ByHostname);
    var claim := ClaimByKey(t.claims, m.tenant + "/" + m.project);
    if claim.Some? {
      var derived := Target(Lower(m.name) + "." + claim.value.domain, claim.value.zone, "", true, m.addr);
      assert FromClaim(derived, claim.value);
      StampedSourced(t, [derived] + explicit, claim.value.domain);
      SortMembers(Stamped([derived] + explicit, claim.value.domain), ByHostname);
    }
  }

  lemma {:induction false} FleetSourced(machines: seq<Machine>, t: Tables)
    ensures forall x :: x in FleetTargets(machines, t) ==> Sourced(x, t)
  {
    if machines != [] {
      FleetSourced(machines[..|machines| - 1], t);
      ClassifySourced(machines[|machines| - 1], t);
    }
  }

  // ---------------------------------------------------------------- plans

  function InZone(zone: string): Target -> bool {
    (x: Target) => x.zone == zone
  }

  function SuffixesFor(claims: seq<Claim>, zone: string, lz: string): (r: seq<string>)
    ensures forall s :: s in r <==> exists c :: c in claims && c.zone == zone && s == "." + RelativeName(c.domain, lz)
  {
    if claims == [] then []
    else
      var before, c := SuffixesFor(claims[..|claims| - 1], zone, lz), claims[|claims| - 1];
      if c.zone == zone then before + ["." + RelativeName(c.domain, lz)] else before
  }

  function ReservedFor(hostnames: seq<Hostname>, zone: string, lz: string): set<string> {
    set h | h in hostnames && h.zone == zone :: MachineRelativeName(RelativeName(h.hostname, lz))
  }

  /** What the pass of one zone works with. */
  function PlanFor(t: Tables, z: Zone, targets: seq<Target>): Plan {
    var lz := LibdnsZone(z.cloudflareZone);
    var mine := Filter(targets, InZone(z.name));
    Plan(Want(lz, mine), Keep(lz, mine), SuffixesFor(t.claims, z.name, lz), ReservedFor(t.hostnames, z.name, lz))
  }

  /** The preparation of `reconcileZoneRecords`: wanted and kept names, domain suffixes, reserved names. */
  method PlanZone(t: Tables, z: Zone, targets: seq<Target>) returns (plan: Plan)
    ensures plan == PlanFor(t, z, targets)
  {
    var lz := LibdnsZone(z.cloudflareZone);
    var want, keep := DesiredZoneRecords(lz, Filter(targets, InZone(z.name)));
    var suffixes := ListSuffixes(t.claims, z.name, lz);
    var reserved := ListReserved(t.hostnames, z.name, lz);
    plan := Plan(want, keep, suffixes, reserved);
  }

  method ListSuffixes(claims: seq<Claim>, zone: string, lz: string) returns (suffixes: seq<string>)
    ensures suffixes == SuffixesFor(claims, zone, lz)
  {
    suffixes := [];
    for i := 0 to |claims|
      invariant suffixes == SuffixesFor(claims[..i], zone, lz)
    {
      assert claims[..i + 1][..i] == claims[..i];
      if claims[i].zone == zone {
        suffixes := suffixes + ["." + RelativeName(claims[i].domain, lz)];
      }
    }
    assert claims[..|claims|] == claims;
  }

  method ListReserved(hostnames: seq<Hostname>, zone: string, lz: string) returns (reserved: set<string>)
    ensures reserved == ReservedFor(hostnames, zone, lz)
  {
    reserved := {};
    for i := 0 to |hostnames|
      invariant reserved == ReservedFor(hostnames[..i], zone, lz)
    {
      var h := hostnames[i];
      assert forall x :: x in hostnames[..i + 1] <==> x in hostnames[..i] || x == h;
      if h.zone == zone {
        reserved := reserved + {MachineRelativeName(RelativeName(h.hostname, lz))};
      }
    }
    assert hostnames[..|hostnames|] == hostnames;
  }

  /** The Cloudflare zone of a valid zone name is spelled with name characters and is not empty. */
  lemma CloudflareNameShape(name: string, cf: string)
    requires ValidName(name) && Under(name, cf)
    ensures cf != "" && cf[|cf| - 1] != '.' && NameChars(cf)
  {
    ValidNameShape(name);
    SuffixOfValid(name, cf);
    assert "." + "" == ".";
  }

  lemma CloudflareNameFixed(cf: string)
    requires cf != "" && cf[|cf| - 1] != '.' && NameChars(cf)
    ensures LibdnsZone(cf) == cf + "." && '*' !in cf
  {
    LibdnsZoneFixed(cf);
    NameCharsFixed(cf);
  }

  lemma ValidNameNoStar(name: string)
    requires ValidName(name)
    ensures '*' !in name && name != ""
  {
    ValidNameFixed(name);
  }

  /** Facts about a registered zone's Cloudflare zone that the name arithmetic needs. */
  lemma CloudflareZoneShape(zones: seq<Zone>, z: Zone)
    requires ZonesOk(zones) && z in zones
    ensures LibdnsZone(z.cloudflareZone) == z.cloudflareZone + "."
    ensures z.cloudflareZone != "" && z.cloudflareZone[|z.cloudflareZone| - 1] != '.'
    ensures '*' !in z.cloudflareZone && '*' !in z.name && z.name != ""
  {
    CloudflareNameShape(z.name, z.cloudflareZone);
    CloudflareNameFixed(z.cloudflareZone);
    ValidNameNoStar(z.name);
  }

  /** A record name behind a claim's suffix lies strictly below the claimed domain. */
  lemma SuffixMeansBelow(rd: string, cf: string, name: string)
    requires rd != "" && HasSuffix(name, "." + rd)
    ensures StrictlyUnder(Absolute(name, cf), rd + "." + cf)
  {
    var p := name[..|name| - |"." + rd|];
    assert name == p + ("." + rd);
    assert name + "." + cf == p + "." + (rd + "." + cf);
    BelowIs(p, rd + "." + cf);
  }

  /** The relative name of a domain strictly inside its Cloudflare zone. */
  lemma DomainRelative(d: string, cf: string) returns (rd: string)
    requires ValidName(d) && StrictlyUnder(d, cf) && cf != ""
    ensures rd == RelativeName(d, cf + ".") && rd != "" && d == rd + "." + cf
  {
    ValidNameFixed(d);
    RelativeExact(d, cf);
    rd := RelativeName(d, cf + ".");
  }

  /** The record names whose base is the relative name of `b`: `b` itself and its wildcard. */
  lemma NamesWithBase(rb: string, b: string, cf: string, zone: string, name: string)
    requires MachineRelativeName(name) == rb && Absolute(rb, cf) == b && (rb == "@" <==> b == cf)
    requires Under(b, zone) && Under(zone, cf)
    ensures Under(Absolute(name, cf), zone)
  {
    if rb == "@" {
      UnderAntisymmetric(cf, zone);
      BelowIs(name, cf);
    } else if name != rb {
      assert name == WILDCARD + rb;
      assert name + "." + cf == "*" + "." + b;
      BelowIs("*", b);
      UnderTransitive("*" + "." + b, b, zone);
    }
  }

  /** A record name with a reserved base is that hostname's base or its wildcard. */
  lemma ReservedMeansBase(h: string, z: Zone, name: string)
    requires Storable(h) && Under(h, z.name) && Under(z.name, z.cloudflareZone) && z.cloudflareZone != ""
    requires '*' !in z.name
    requires MachineRelativeName(name) == MachineRelativeName(RelativeName(h, z.cloudflareZone + "."))
    ensures Under(Absolute(name, z.cloudflareZone), z.name)
  {
    var cf, b := z.cloudflareZone, Base(h);
    BaseUnder(h, z.name);
    UnderTransitive(h, z.name, cf);
    UnderTransitive(b, z.name, cf);
    ValidNameFixed(b);
    RelativeBase(h, cf);
    RelativeExact(b, cf);
    NamesWithBase(RelativeName(b, cf + "."), b, cf, z.name, name);
  }

  /** Everything a zone manages lies at or under the zone. */
  lemma ManagedUnderZone(install: Install, t: Tables, z: Zone, targets: seq<Target>, name: string)
    requires Inv(install, t) && z in t.zones && Managed(PlanFor(t, z, targets), name)
    ensures Under(Absolute(name, z.cloudflareZone), z.name)
  {
    var cf := z.cloudflareZone;
    CloudflareZoneShape(t.zones, z);
    var plan := PlanFor(t, z, targets);
    if MachineRelativeName(name) in plan.reserved {
      var h :| h in t.hostnames && h.zone == z.name
               && MachineRelativeName(name) == MachineRelativeName(RelativeName(h.hostname, cf + "."));
      assert HostnameRowOk(t.zones, h);
      ReservedMeansBase(h.hostname, z, name);
    } else {
      var s :| s in plan.suffixes && HasSuffix(name, s);
      var c :| c in t.claims && c.zone == z.name && s == "." + RelativeName(c.domain, cf + ".");
      assert ClaimRowOk(t.zones, c);
      UnderTransitive(c.domain, z.name, cf);
      var rd := DomainRelative(c.domain, cf);
      SuffixMeansBelow(rd, cf, name);
      UnderTransitive(Absolute(name, cf), c.domain, z.name);
    }
  }

  /** Managed names of different zones inside one Cloudflare zone are disjoint. */
  lemma ManagedDisjoint(install: Install, t: Tables, a: Zone, b: Zone, targets: seq<Target>, name: string)
    requires Inv(install, t) && a in t.zones && b in t.zones && a.cloudflareZone == b.cloudflareZone
    requires Managed(PlanFor(t, a, targets), name) && Managed(PlanFor(t, b, targets), name)
    ensures a == b
  {
    ManagedUnderZone(install, t, a, targets, name);
    ManagedUnderZone(install, t, b, targets, name);
    OneCoveringZone(t.zones, Absolute(name, a.cloudflareZone), a, b);
  }

  // ---------------------------------------------------------------- wanted names are managed

  /** A derived name and its wildcard end in their domain's suffix. */
  lemma DerivedManaged(rd: string, cf: string, above: string)
    requires rd != "" && cf != "" && cf[|cf| - 1] != '.'
    ensures var rel := RelativeName(above + "." + (rd + "." + cf), cf + ".");
            HasSuffix(rel, "." + rd) && HasSuffix(RelativeWildcard(rel), "." + rd)
  {
    DerivedRelative(rd, cf, above);
    WildcardEndsIn(above, "." + rd);
    EndsIn(above, "." + rd);
  }

  lemma DerivedRelative(rd: string, cf: string, above: string)
    requires cf != "" && cf[|cf| - 1] != '.'
    ensures RelativeName(above + "." + (rd + "." + cf), cf + ".") == above + ("." + rd)
  {
    var p := above + ("." + rd);
    Reassociate(above, rd, cf);
    assert p[|above|] == '.';
    RelativeBelow(p, cf);
  }

  lemma Reassociate(a: string, b: string, c: string)
    ensures a + "." + (b + "." + c) == a + ("." + b) + "." + c
  {}

  lemma WildcardEndsIn(above: string, suffix: string)
    requires |suffix| > 1
    ensures HasSuffix(RelativeWildcard(above + suffix), suffix)
  {
    EndsIn(WILDCARD + above, suffix);
    assert WILDCARD + (above + suffix) == (WILDCARD + above) + suffix;
    assert |above + suffix| > 1;
  }

  lemma EndsIn(s: string, t: string)
    ensures HasSuffix(s + t, t)
  {
    assert (s + t)[|s + t| - |t|..] == t;
  }

  lemma ExplicitManaged(install: Install, t: Tables, z: Zone, targets: seq<Target>, h: Hostname)
    requires Inv(install, t) && z in t.zones && h in t.hostnames && h.zone == z.name
    ensures var rel := RelativeName(h.hostname, LibdnsZone(z.cloudflareZone));
            && Managed(PlanFor(t, z, targets), rel)
            && (!IsWildcard(h.hostname) ==> Managed(PlanFor(t, z, targets), RelativeWildcard(rel)))
  {
    var cf := z.cloudflareZone;
    CloudflareZoneShape(t.zones, z);
    assert HostnameRowOk(t.zones, h);
    var rel := RelativeName(h.hostname, cf + ".");
    assert MachineRelativeName(rel) in PlanFor(t, z, targets).reserved;
    if !IsWildcard(h.hostname) {
      UnderTransitive(h.hostname, z.name, cf);
      RelativeBase(h.hostname, cf);
      WildcardRelative(rel, cf);
    }
  }

  /** The parts of a claimed domain inside its Cloudflare zone. */
  lemma ClaimShape(zones: seq<Zone>, z: Zone, c: Claim) returns (rd: string)
    requires ZonesOk(zones) && z in zones && ClaimRowOk(zones, c) && c.zone == z.name
    ensures rd == RelativeName(c.domain, z.cloudflareZone + ".") && rd != "" && c.domain == rd + "." + z.cloudflareZone
  {
    CloudflareZoneShape(zones, z);
    UnderTransitive(c.domain, z.name, z.cloudflareZone);
    rd := DomainRelative(c.domain, z.cloudflareZone);
  }

  lemma SuffixListed(t: Tables, z: Zone, targets: seq<Target>, c: Claim)
    requires c in t.claims && c.zone == z.name
    ensures "." + RelativeName(c.domain, LibdnsZone(z.cloudflareZone)) in PlanFor(t, z, targets).suffixes
  {}

  lemma ClaimedManaged(install: Install, t: Tables, z: Zone, targets: seq<Target>, c: Claim, above: string)
    requires Inv(install, t) && z in t.zones && c in t.claims && c.zone == z.name
    ensures var rel := RelativeName(above + "." + c.domain, LibdnsZone(z.cloudflareZone));
            Managed(PlanFor(t, z, targets), rel) && Managed(PlanFor(t, z, targets), RelativeWildcard(rel))
  {
    CloudflareZoneShape(t.zones, z);
    assert ClaimRowOk(t.zones, c);
    var rd := ClaimShape(t.zones, z, c);
    DerivedManaged(rd, z.cloudflareZone, above);
    SuffixListed(t, z, targets, c);
  }

  lemma TargetManaged(install: Install, t: Tables, z: Zone, targets: seq<Target>, x: Target)
    requires Inv(install, t) && z in t.zones && x.zone == z.name && Sourced(x, t)
    ensures var rel := RelativeName(x.hostname, LibdnsZone(z.cloudflareZone));
            && Managed(PlanFor(t, z, targets), rel)
            && (!IsWildcard(x.hostname) ==> Managed(PlanFor(t, z, targets), RelativeWildcard(rel)))
  {
    if h :| h in t.hostnames && FromHostname(x, h) {
      ExplicitManaged(install, t, z, targets, h);
    } else {
      var c :| c in t.claims && FromClaim(x, c);
      var above :| x.hostname == above + "." + c.domain;
      ClaimedManaged(install, t, z, targets, c, above);
    }
  }

  /** A name the target asks for: its own, or its wildcard. */
  predicate AsksFor(lz: string, x: Target, name: string) {
    var rel := RelativeName(x.hostname, lz);
    name == rel || (!IsWildcard(x.hostname) && name == RelativeWildcard(rel))
  }

  lemma {:induction false} WantNames(lz: string, targets: seq<Target>, name: string) returns (x: Target)
    requires name in Want(lz, targets)
    ensures x in targets && AsksFor(lz, x, name)
  {
    var front := targets[..|targets| - 1];
    x := targets[|targets| - 1];
    if name in Want(lz, front) {
      x := WantNames(lz, front, name);
    }
  }

  /** Every name a zone's pass wants, and so every record it sets, is one of the zone's managed names. */
  lemma WantedManaged(install: Install, t: Tables, z: Zone, machines: seq<Machine>, name: string)
    requires Inv(install, t) && z in t.zones
    requires name in PlanFor(t, z, FleetTargets(machines, t)).want
    ensures Managed(PlanFor(t, z, FleetTargets(machines, t)), name)
  {
    var targets := FleetTargets(machines, t);
    var lz, mine := LibdnsZone(z.cloudflareZone), Filter(targets, InZone(z.name));
    var x := WantNames(lz, mine, name);
    var inZone := InZone(z.name);
    assert x in targets && inZone(x);
    FleetSourced(machines, t);
    TargetManaged(install, t, z, targets, x);
  }

  /** Every record a zone's pass sets or deletes is one of that zone's managed names. */
  lemma WritesConfined(install: Install, t: Tables, z: Zone, machines: seq<Machine>, actual: seq<Record>,
                       sets: seq<Record>, stale: seq<Record>)
    requires Inv(install, t) && z in t.zones
    requires var plan := PlanFor(t, z, FleetTargets(machines, t));
             IsSetList(plan, actual, sets) && stale == Filter(actual, IsStale(plan))
    ensures forall r :: r in sets || r in stale ==> Managed(PlanFor(t, z, FleetTargets(machines, t)), r.name)
  {
    var plan := PlanFor(t, z, FleetTargets(machines, t));
    var hit := IsStale(plan);
    assert forall r :: r in stale ==> hit(r);
    forall r | r in sets ensures Managed(plan, r.name) {
      WantedManaged(install, t, z, machines, r.name);
    }
  }

  // ---------------------------------------------------------------- the zone loop

  /** The A records a pass sets, as a value: the key-ordered listing `IsSetList` describes. */
  ghost function SetList(plan: Plan, actual: seq<Record>): (sets: seq<Record>)
    ensures IsSetList(plan, actual, sets)
  {
    SetListOver(plan, actual, plan.want.Keys)
  }

  ghost function SetListOver(plan: Plan, actual: seq<Record>, names: set<string>): (sets: seq<Record>)
    requires names <= plan.want.Keys
    ensures KeyOrdered(sets, RecordName)
    ensures forall r :: r in sets <==>
              r.A? && r.name in names && r.addr == plan.want[r.name] && !LastIs(AddrsOf(actual, r.name), r.addr)
  {
    if names == {} then []
    else
      var name :| name in names;
      var rest := SetListOver(plan, actual, names - {name});
      if LastIs(AddrsOf(actual, name), plan.want[name]) then rest
      else
        InsertOrdered(rest, A(name, plan.want[name]), RecordName);
        Insert(rest, A(name, plan.want[name]), RecordName)
  }

  /** The records of a Cloudflare zone after one zone's pass. */
  ghost function PassRecords(plan: Plan, actual: seq<Record>): seq<Record> {
    After(actual, SetList(plan, actual), Filter(actual, IsStale(plan)))
  }

  /** Every Cloudflare zone's records, by zone name. */
  type Stores = map<string, seq<Record>>

  function RecordsOf(stores: Stores, cf: string): seq<Record> {
    if cf in stores then stores[cf] else []
  }

  ghost function PassZone(t: Tables, targets: seq<Target>, stores: Stores, z: Zone): Stores {
    stores[z.cloudflareZone := PassRecords(PlanFor(t, z, targets), RecordsOf(stores, z.cloudflareZone))]
  }

  /** The zone loop of `ReconcileFleet`, over a given order of zones. */
  ghost function PassAll(t: Tables, targets: seq<Target>, stores: Stores, order: seq<Zone>): Stores
    decreases |order|
  {
    if order == [] then stores else PassAll(t, targets, PassZone(t, targets, stores, order[0]), order[1..])
  }

  /** The zone of `order` that manages a record name of a Cloudflare zone. */
  ghost predicate Manages(t: Tables, targets: seq<Target>, z: Zone, cf: string, name: string) {
    z.cloudflareZone == cf && Managed(PlanFor(t, z, targets), name)
  }

  lemma PassZoneAt(install: Install, t: Tables, machines: seq<Machine>, stores: Stores, z: Zone, cf: string, name: string)
    requires Inv(install, t) && z in t.zones
    ensures var targets := FleetTargets(machines, t);
            var before, after := AddrsOf(RecordsOf(stores, cf), name), AddrsOf(RecordsOf(PassZone(t, targets, stores, z), cf), name);
            after == if Manages(t, targets, z, cf, name) then PassName(PlanFor(t, z, targets), name, before) else before
  {
    var targets := FleetTargets(machines, t);
    if z.cloudflareZone == cf {
      var plan, actual := PlanFor(t, z, targets), RecordsOf(stores, cf);
      PassAtName(plan, actual, SetList(plan, actual), Filter(actual, IsStale(plan)), name);
      if name in plan.want {
        WantedManaged(install, t, z, machines, name);
      }
    }
  }

  /** Closed form of the zone loop: a name is passed once, by the zone that manages it, or left alone. */
  lemma {:induction false} PassAllAt(install: Install, t: Tables, machines: seq<Machine>, stores: Stores, order: seq<Zone>,
                                     cf: string, name: string)
    requires Inv(install, t) && NoRepeats(order)
    requires forall z :: z in order ==> z in t.zones
    ensures var targets := FleetTargets(machines, t);
            var before, after := AddrsOf(RecordsOf(stores, cf), name), AddrsOf(RecordsOf(PassAll(t, targets, stores, order), cf), name);
            && (forall z :: z in order && Manages(t, targets, z, cf, name) ==> after == PassName(PlanFor(t, z, targets), name, before))
            && ((forall z :: z in order ==> !Manages(t, targets, z, cf, name)) ==> after == before)
    decreases |order|
  {
    if order != [] {
      var targets := FleetTargets(machines, t);
      var z, rest := order[0], order[1..];
      assert forall i :: 0 <= i < |rest| ==> rest[i] == order[i + 1] && order[i + 1] in order;
      PassZoneAt(install, t, machines, stores, z, cf, name);
      PassAllAt(install, t, machines, PassZone(t, targets, stores, z), rest, cf, name);
      forall y | y in rest && Manages(t, targets, y, cf, name) ensures !Manages(t, targets, z, cf, name) {
        if Manages(t, targets, z, cf, name) {
          ManagedDisjoint(install, t, y, z, targets, name);
        }
      }
      assert forall y :: y in order <==> y == z || y in rest;
    }
  }

  /** The per-zone passes reach the same records in any order. */
  lemma PassesAnyOrder(install: Install, t: Tables, machines: seq<Machine>, stores: Stores, a: seq<Zone>, b: seq<Zone>,
                       cf: string, name: string)
    requires Inv(install, t) && NoRepeats(a) && NoRepeats(b)
    requires forall z :: z in a ==> z in t.zones
    requires forall z :: z in a <==> z in b
    ensures var targets := FleetTargets(machines, t);
            AddrsOf(RecordsOf(PassAll(t, targets, stores, a), cf), name)
            == AddrsOf(RecordsOf(PassAll(t, targets, stores, b), cf), name)
  {
    var targets := FleetTargets(machines, t);
    PassAllAt(install, t, machines, stores, a, cf, name);
    PassAllAt(install, t, machines, stores, b, cf, name);
    if z :| z in a && Manages(t, targets, z, cf, name) {
      assert z in b;
    }
  }

  // ---------------------------------------------------------------- the fleet after the zone loop

  /** The loop passes a managed name once, by its zone. */
  lemma LoopAtManaged(install: Install, t: Tables, machines: seq<Machine>, stores: Stores, order: seq<Zone>, z: Zone, name: string)
    requires Inv(install, t) && NoRepeats(order) && z in order && forall y :: y in order ==> y in t.zones
    requires Managed(PlanFor(t, z, FleetTargets(machines, t)), name)
    ensures AddrsOf(RecordsOf(PassAll(t, FleetTargets(machines, t), stores, order), z.cloudflareZone), name)
            == PassName(PlanFor(t, z, FleetTargets(machines, t)), name, AddrsOf(RecordsOf(stores, z.cloudflareZone), name))
  {
    assert Manages(t, FleetTargets(machines, t), z, z.cloudflareZone, name);
    PassAllAt(install, t, machines, stores, order, z.cloudflareZone, name);
  }

  lemma PassNameWanted(plan: Plan, name: string, addrs: seq<int>)
    requires name in plan.want
    ensures LastIs(PassName(plan, name, addrs), plan.want[name])
  {}

  /** What the loop leaves at a wanted name of a zone it passed. */
  lemma LoopAtWanted(install: Install, t: Tables, machines: seq<Machine>, stores: Stores, order: seq<Zone>, z: Zone, name: string)
    requires Inv(install, t) && NoRepeats(order) && z in order && forall y :: y in order ==> y in t.zones
    requires name in PlanFor(t, z, FleetTargets(machines, t)).want
    ensures LastIs(AddrsOf(RecordsOf(PassAll(t, FleetTargets(machines, t), stores, order), z.cloudflareZone), name),
                   PlanFor(t, z, FleetTargets(machines, t)).want[name])
  {
    WantedManaged(install, t, z, machines, name);
    LoopAtManaged(install, t, machines, stores, order, z, name);
    PassNameWanted(PlanFor(t, z, FleetTargets(machines, t)), name, AddrsOf(RecordsOf(stores, z.cloudflareZone), name));
  }

  /** No record the loop leaves is stale for a zone it passed. */
  lemma LoopLeavesNoStale(install: Install, t: Tables, machines: seq<Machine>, stores: Stores, order: seq<Zone>, z: Zone, r: Record)
    requires Inv(install, t) && NoRepeats(order) && z in order && forall y :: y in order ==> y in t.zones
    requires r in RecordsOf(PassAll(t, FleetTargets(machines, t), stores, order), z.cloudflareZone)
    ensures !IsStale(PlanFor(t, z, FleetTargets(machines, t)))(r)
  {
    var targets := FleetTargets(machines, t);
    if r.A? && Managed(PlanFor(t, z, targets), r.name) {
      LoopAtManaged(install, t, machines, stores, order, z, r.name);
      AddrsOfMember(RecordsOf(PassAll(t, targets, stores, order), z.cloudflareZone), r.name, r.addr);
    }
  }

  /** After the whole zone loop every zone it passed is quiet on the shared records: a second loop writes nothing. */
  lemma FleetQuiet(install: Install, t: Tables, machines: seq<Machine>, stores: Stores, order: seq<Zone>, z: Zone)
    requires Inv(install, t) && NoRepeats(order) && z in order && forall y :: y in order ==> y in t.zones
    ensures Quiet(PlanFor(t, z, FleetTargets(machines, t)),
                  RecordsOf(PassAll(t, FleetTargets(machines, t), stores, order), z.cloudflareZone))
  {
    var plan := PlanFor(t, z, FleetTargets(machines, t));
    var after := RecordsOf(PassAll(t, FleetTargets(machines, t), stores, order), z.cloudflareZone);
    forall name | name in plan.want ensures LastIs(AddrsOf(after, name), plan.want[name]) {
      LoopAtWanted(install, t, machines, stores, order, z, name);
    }
    forall r | r in after ensures !IsStale(plan)(r) {
      LoopLeavesNoStale(install, t, machines, stores, order, z, r);
    }
  }

  /** The zones the loop takes up: every one a claim or a hostname records. */
  ghost predicate TakesUp(t: Tables, order: seq<Zone>) {
    && (forall z :: z in order ==> z in t.zones)
    && (forall z, c :: z in t.zones && c in t.claims && c.zone == z.name ==> z in order)
    && (forall z, h :: z in t.zones && h in t.hostnames && h.zone == z.name ==> z in order)
  }

  /** Every target's zone is one of them. */
  lemma TargetZone(install: Install, t: Tables, order: seq<Zone>, machines: seq<Machine>, x: Target) returns (z: Zone)
    requires Inv(install, t) && TakesUp(t, order) && x in FleetTargets(machines, t)
    ensures z in order && z.name == x.zone
  {
    FleetSourced(machines, t);
    if h :| h in t.hostnames && FromHostname(x, h) {
      assert HostnameRowOk(t.zones, h);
      z :| z in t.zones && z.name == h.zone;
    } else {
      var c :| c in t.claims && FromClaim(x, c);
      assert ClaimRowOk(t.zones, c);
      z :| z in t.zones && z.name == c.zone;
    }
  }

  /** Two rows of the zone table with one name are the same row. */
  lemma ZoneByName(zones: seq<Zone>, a: Zone, b: Zone)
    requires ZonesOk(zones) && a in zones && b in zones && a.name == b.name
    ensures a == b
  {
    KeyUnique(zones, ZoneKey, a, b);
  }

  /**
   After the zone loop a name a running target asks for, its own or its wildcard, lists the target's address last
   exactly when the last target to ask for that name has the same address.
   */
  lemma FleetServes(install: Install, t: Tables, machines: seq<Machine>, stores: Stores, order: seq<Zone>, z: Zone, x: Target, name: string)
    requires Inv(install, t) && NoRepeats(order) && TakesUp(t, order) && z in t.zones && z.name == x.zone
    requires x in FleetTargets(machines, t) && AskedBy(LibdnsZone(z.cloudflareZone), x, name)
    ensures var targets, lz := FleetTargets(machines, t), LibdnsZone(z.cloudflareZone);
            LastIs(AddrsOf(RecordsOf(PassAll(t, targets, stores, order), z.cloudflareZone), name), x.addr.value) <==>
            LastAsker(lz, Filter(targets, InZone(z.name)), name) == x.addr
  {
    var zx := TargetZone(install, t, order, machines, x);
    ZoneByName(t.zones, z, zx);
    var lz := LibdnsZone(z.cloudflareZone);
    var inZone := InZone(z.name);
    var mine := Filter(FleetTargets(machines, t), inZone);
    assert inZone(x) && x in mine;
    AskedIsWanted(lz, mine, x, name);
    WantIsLastAsker(lz, mine, name);
    LoopAtWanted(install, t, machines, stores, order, z, name);
  }

  // ---------------------------------------------------------------- two machines asking for one name

  /** Every target of a machine has the machine's address. */
  lemma ClassifiedAddresses(t: Tables, m: Machine)
    ensures forall x :: x in Classify(m, t).targets ==> x.addr == m.addr
  {
    var explicit := Explicit(Filter(t.hostnames, OnMachine(m.tenant + "/" + m.project + "/" + m.name)), m.addr);
    SortMembers(explicit, ByHostname);
    var claim := ClaimByKey(t.claims, m.tenant + "/" + m.project);
    if claim.Some? {
      var derived := Target(Lower(m.name) + "." + claim.value.domain, claim.value.zone, "", true, m.addr);
      SortMembers(Stamped([derived] + explicit, claim.value.domain), ByHostname);
    }
  }

  lemma FleetSnoc(before: seq<Machine>, m: Machine, t: Tables)
    ensures FleetTargets(before + [m], t) == FleetTargets(before, t) + Classify(m, t).targets
  {
    assert (before + [m])[..|before|] == before;
  }

  /** A name the last machine asks for is served at that machine's address. */
  lemma LastMachineServed(t: Tables, before: seq<Machine>, m: Machine, z: Zone, x: Target, name: string)
    requires x in Classify(m, t).targets && x.zone == z.name && AskedBy(LibdnsZone(z.cloudflareZone), x, name)
    ensures LastAsker(LibdnsZone(z.cloudflareZone), Filter(FleetTargets(before + [m], t), InZone(z.name)), name) == m.addr
  {
    var lz, inZone, tail := LibdnsZone(z.cloudflareZone), InZone(z.name), Classify(m, t).targets;
    ClassifiedAddresses(t, m);
    FleetSnoc(before, m, t);
    FilterAppend(FleetTargets(before, t), tail, inZone);
    assert inZone(x);
    LastAskerOne(lz, Filter(tail, inZone), name, m.addr.value, x);
    LastAskerAppend(lz, Filter(FleetTargets(before, t), inZone), Filter(tail, inZone), name);
  }

  /** The failing family: a name two machines of different addresses ask for is not served at the earlier one's. */
  lemma EarlierMachineNotServed(install: Install, t: Tables, before: seq<Machine>, m: Machine, stores: Stores, order: seq<Zone>,
                                z: Zone, x: Target, y: Target, name: string)
    requires Inv(install, t) && NoRepeats(order) && TakesUp(t, order) && z in t.zones
    requires x in FleetTargets(before, t) && x.zone == z.name && AskedBy(LibdnsZone(z.cloudflareZone), x, name)
    requires y in Classify(m, t).targets && y.zone == z.name && AskedBy(LibdnsZone(z.cloudflareZone), y, name)
    requires x.addr != m.addr
    ensures var records := RecordsOf(PassAll(t, FleetTargets(before + [m], t), stores, order), z.cloudflareZone);
            !LastIs(AddrsOf(records, name), x.addr.value)
  {
    FleetSnoc(before, m, t);
    LastMachineServed(t, before, m, z, y, name);
    FleetServes(install, t, before + [m], stores, order, z, x, name);
  }

  // ---------------------------------------------------------------- where derived and explicit targets come from

  /** A machine whose project's claim and Incus key agree. */
  predicate Derives(t: Tables, m: Machine, c: Claim) {
    && ClaimByKey(t.claims, m.tenant + "/" + m.project) == Some(c)
    && (Lower(TrimSpace(m.projectDomain)) == "" || Lower(TrimSpace(m.projectDomain)) == c.domain)
  }

  /** Its derived name is one of the fleet's targets. */
  lemma {:induction false} DerivedTarget(machines: seq<Machine>, t: Tables, m: Machine, c: Claim) returns (x: Target)
    requires m in machines && Derives(t, m, c)
    ensures x in FleetTargets(machines, t)
    ensures x.hostname == Lower(m.name) + "." + c.domain && x.zone == c.zone && x.derived && x.addr == m.addr
  {
    var last := machines[|machines| - 1];
    if m == last {
      x := ClassifiedDerived(t, m, c);
    } else {
      assert m in machines[..|machines| - 1];
      x := DerivedTarget(machines[..|machines| - 1], t, m, c);
    }
  }

  lemma ClassifiedDerived(t: Tables, m: Machine, c: Claim) returns (x: Target)
    requires Derives(t, m, c)
    ensures x in Classify(m, t).targets
    ensures x.hostname == Lower(m.name) + "." + c.domain && x.zone == c.zone && x.derived && x.addr == m.addr
  {
    var explicit := Explicit(Filter(t.hostnames, OnMachine(m.tenant + "/" + m.project + "/" + m.name)), m.addr);
    var derived := Target(Lower(m.name) + "." + c.domain, c.zone, "", true, m.addr);
    var stamped := Stamped([derived] + explicit, c.domain);
    x := stamped[0];
    assert x in stamped;
    SortMembers(stamped, ByHostname);
  }

  /** An explicit hostname is a target of the machine that holds it. */
  lemma ClassifiedExplicit(t: Tables, m: Machine, h: Hostname) returns (x: Target)
    requires h in t.hostnames && MachineRef(h) == m.tenant + "/" + m.project + "/" + m.name
    ensures x in Classify(m, t).targets && x.hostname == h.hostname && x.zone == h.zone && x.addr == m.addr
  {
    var onMachine := OnMachine(m.tenant + "/" + m.project + "/" + m.name);
    var rows := Filter(t.hostnames, onMachine);
    assert onMachine(h) && h in rows;
    var i :| 0 <= i < |rows| && rows[i] == h;
    var explicit := Explicit(rows, m.addr);
    x := explicit[i];
    SortMembers(explicit, ByHostname);
    var claim := ClaimByKey(t.claims, m.tenant + "/" + m.project);
    var incusDomain := Lower(TrimSpace(m.projectDomain));
    if claim.Some? && (incusDomain == "" || claim.value.domain == incusDomain) {
      var derived := Target(Lower(m.name) + "." + claim.value.domain, claim.value.zone, "", true, m.addr);
      x := StampedAt(derived, explicit, i, claim.value.domain);
    }
  }

  lemma StampedAt(first: Target, rest: seq<Target>, i: nat, domain: string) returns (x: Target)
    requires i < |rest|
    ensures x in StableSort(Stamped([first] + rest, domain), ByHostname)
    ensures x.hostname == rest[i].hostname && x.zone == rest[i].zone && x.addr == rest[i].addr
  {
    var all := [first] + rest;
    var stamped := Stamped(all, domain);
    assert all[i + 1] == rest[i];
    x := stamped[i + 1];
    assert x in stamped;
    SortMembers(stamped, ByHostname);
  }
}
