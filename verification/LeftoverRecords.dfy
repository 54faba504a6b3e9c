/**
 Records of a released hostname that the provider failed to delete: when the next pass takes them for stale, and
 when they stay for good.
 */
module LeftoverRecords {
  import opened Text
  import opened Names
  import opened Registry
  import opened RegistryInvariant
  import opened ExampleRegistry
  import opened ZoneRecords
  import opened ZoneFleet
  import opened ReleasedRecords

  /** The tables after the hostname's row is gone. */
  function Without(t: Tables, h: Hostname): Tables {
    t.(hostnames := Filter(t.hostnames, NotHostname(h.hostname)))
  }

  lemma WithoutRows(t: Tables, h: Hostname, e: Hostname)
    ensures e in Without(t, h).hostnames <==> e in t.hostnames && e.hostname != h.hostname
  {
    var kept := NotHostname(h.hostname);
    assert kept(e) <==> e.hostname != h.hostname;
  }

  /** An A record the release was to delete. */
  ghost predicate Leftover(h: Hostname, z: Zone, r: Record) {
    r.A? && GoesWithHostname(h.hostname, LibdnsZone(z.cloudflareZone))(r)
  }

  /** A name of the zone lies strictly below some Project Domain. */
  ghost predicate Claimed(t: Tables, name: string) {
    exists c :: c in t.claims && StrictlyUnder(name, c.domain)
  }

  // ---------------------------------------------------------------- the two ways to be managed

  ghost predicate BehindClaim(t: Tables, z: Zone, r: Record) {
    exists c :: c in t.claims && c.zone == z.name && GoesWithDomain(c.domain, LibdnsZone(z.cloudflareZone))(r)
  }

  ghost predicate AtReserved(t: Tables, z: Zone, name: string) {
    exists e :: e in t.hostnames && e.zone == z.name
                && MachineRelativeName(name) == MachineRelativeName(RelativeName(e.hostname, LibdnsZone(z.cloudflareZone)))
  }

  lemma ManagedIs(t: Tables, z: Zone, targets: seq<Target>, r: Record)
    requires r.A?
    ensures Managed(PlanFor(t, z, targets), r.name) <==> BehindClaim(t, z, r) || AtReserved(t, z, r.name)
  {
    var lz, plan := LibdnsZone(z.cloudflareZone), PlanFor(t, z, targets);
    if BehindClaim(t, z, r) {
      var c :| c in t.claims && c.zone == z.name && GoesWithDomain(c.domain, lz)(r);
      assert "." + RelativeName(c.domain, lz) in plan.suffixes;
    }
    if s :| s in plan.suffixes && HasSuffix(r.name, s) {
      var c :| c in t.claims && c.zone == z.name && s == "." + RelativeName(c.domain, lz);
      assert GoesWithDomain(c.domain, lz)(r);
    }
    assert AtReserved(t, z, r.name) <==> MachineRelativeName(r.name) in plan.reserved;
  }

  /** Behind a claim means below it, and then the hostname's base is below it too. */
  lemma LeftoverBehindClaim(install: Install, t: Tables, h: Hostname, z: Zone, r: Record)
    requires Inv(install, t) && h in t.hostnames && z in t.zones && h.zone == z.name && Leftover(h, z, r)
    ensures BehindClaim(t, z, r) <==> Claimed(t, Base(h.hostname))
  {
    var full, b := Absolute(r.name, z.cloudflareZone), Base(h.hostname);
    assert HostnameRowOk(t.zones, h);
    HostnameReleaseNames(t.zones, z, h, r);
    if BehindClaim(t, z, r) {
      var c :| c in t.claims && c.zone == z.name && GoesWithDomain(c.domain, LibdnsZone(z.cloudflareZone))(r);
      assert ClaimRowOk(t.zones, c);
      DomainTakesBelow(t.zones, z, c, r);
      SuffixesComparable(full, c.domain, b);
      assert InsideOwnDomain(h, c);
    }
    if Claimed(t, b) {
      var c :| c in t.claims && StrictlyUnder(b, c.domain);
      assert ClaimRowOk(t.zones, c);
      var zc :| zc in t.zones && zc.name == c.zone;
      CoveringZoneOf(t.zones, z, zc, h, c);
      UnderTransitive(full, b, c.domain);
      DomainTakesBelow(t.zones, z, c, r);
    }
  }

  lemma CoveringZoneOf(zones: seq<Zone>, z: Zone, zc: Zone, h: Hostname, c: Claim)
    requires ZonesOk(zones) && z in zones && zc in zones && HostnameRowOk(zones, h) && ClaimRowOk(zones, c)
    requires h.zone == z.name && c.zone == zc.name && StrictlyUnder(Base(h.hostname), c.domain)
    ensures z == zc
  {
    ValidNameNoStar(z.name);
    BaseUnder(h.hostname, z.name);
    UnderTransitive(Base(h.hostname), c.domain, zc.name);
    OneCoveringZone(zones, Base(h.hostname), z, zc);
  }

  /** The record's managed name is that of the hostname's base. */
  lemma LeftoverName(zones: seq<Zone>, z: Zone, h: Hostname, r: Record)
    requires ZonesOk(zones) && z in zones && HostnameRowOk(zones, h) && h.zone == z.name && Leftover(h, z, r)
    ensures MachineRelativeName(r.name) == RelativeName(Base(h.hostname), LibdnsZone(z.cloudflareZone))
  {
    var cf, b := z.cloudflareZone, Base(h.hostname);
    CloudflareZoneShape(zones, z);
    BaseUnder(h.hostname, z.name);
    UnderTransitive(b, z.name, cf);
    UnderTransitive(h.hostname, z.name, cf);
    RelativeBase(h.hostname, cf);
    if r.name != RelativeName(h.hostname, cf + ".") {
      RelativeNotEmpty(h.hostname, cf + ".");
      WildcardRelative(RelativeName(h.hostname, cf + "."), cf);
    }
  }

  lemma ReservedName(zones: seq<Zone>, z: Zone, e: Hostname)
    requires ZonesOk(zones) && z in zones && HostnameRowOk(zones, e) && e.zone == z.name
    ensures var rel := MachineRelativeName(RelativeName(e.hostname, LibdnsZone(z.cloudflareZone)));
            rel == RelativeName(Base(e.hostname), LibdnsZone(z.cloudflareZone)) && Absolute(rel, z.cloudflareZone) == Base(e.hostname)
  {
    var cf := z.cloudflareZone;
    CloudflareZoneShape(zones, z);
    BaseUnder(e.hostname, z.name);
    UnderTransitive(Base(e.hostname), z.name, cf);
    UnderTransitive(e.hostname, z.name, cf);
    RelativeBase(e.hostname, cf);
    BaseRelative(e.hostname, cf);
  }

  /** No remaining hostname of the zone reserves the record's name. */
  lemma LeftoverNotReserved(install: Install, t: Tables, h: Hostname, z: Zone, r: Record)
    requires Inv(install, t) && h in t.hostnames && z in t.zones && h.zone == z.name && Leftover(h, z, r)
    ensures !AtReserved(Without(t, h), z, r.name)
  {
    var lz := LibdnsZone(z.cloudflareZone);
    assert HostnameRowOk(t.zones, h);
    LeftoverName(t.zones, z, h, r);
    ReservedName(t.zones, z, h);
    forall e | e in Without(t, h).hostnames && e.zone == z.name
      ensures MachineRelativeName(r.name) != MachineRelativeName(RelativeName(e.hostname, lz))
    {
      WithoutRows(t, h, e);
      assert HostnameRowOk(t.zones, e) && MayCoexist(e, h);
      ReservedName(t.zones, z, e);
    }
  }

  // ---------------------------------------------------------------- stale or there for good

  /** A leftover record is managed by the zone's next plan exactly when the released name lies below a Project Domain. */
  lemma LeftoverManagedIff(install: Install, t: Tables, h: Hostname, z: Zone, r: Record, targets: seq<Target>)
    requires Inv(install, t) && h in t.hostnames && z in t.zones && h.zone == z.name && Leftover(h, z, r)
    ensures Managed(PlanFor(Without(t, h), z, targets), r.name) <==> Claimed(t, Base(h.hostname))
  {
    ManagedIs(Without(t, h), z, targets, r);
    LeftoverNotReserved(install, t, h, z, r);
    LeftoverBehindClaim(install, t, h, z, r);
    assert Without(t, h).claims == t.claims;
  }

  /** So it is stale exactly when it lies there and no remaining target wants or keeps its name. */
  lemma LeftoverStaleIff(install: Install, t: Tables, h: Hostname, z: Zone, r: Record, machines: seq<Machine>)
    requires Inv(install, t) && h in t.hostnames && z in t.zones && h.zone == z.name && Leftover(h, z, r)
    ensures var plan := PlanFor(Without(t, h), z, FleetTargets(machines, Without(t, h)));
            IsStale(plan)(r) <==>
            Claimed(t, Base(h.hostname)) && r.name !in plan.want && MachineRelativeName(r.name) !in plan.keep
  {
    LeftoverManagedIff(install, t, h, z, r, FleetTargets(machines, Without(t, h)));
  }

  /** Outside every Project Domain no pass over the remaining tables touches the name again. */
  lemma LeftoverStays(install: Install, t: Tables, h: Hostname, z: Zone, r: Record, machines: seq<Machine>, addrs: seq<int>)
    requires Inv(install, t) && h in t.hostnames && z in t.zones && h.zone == z.name && Leftover(h, z, r)
    requires !Claimed(t, Base(h.hostname))
    ensures PassName(PlanFor(Without(t, h), z, FleetTargets(machines, Without(t, h))), r.name, addrs) == addrs
  {
    var after := Without(t, h);
    LeftoverManagedIff(install, t, h, z, r, FleetTargets(machines, after));
    DropHostnamesKeeps(install, t, NotHostname(h.hostname));
    if r.name in PlanFor(after, z, FleetTargets(machines, after)).want {
      WantedManaged(install, after, z, machines, r.name);
    }
  }

  // ---------------------------------------------------------------- a concrete record

  const DIRECT := Hostname("m.z.de", "t", "p", "m", "z.de", "", 0)

  lemma DirectOk()
    ensures Inv(Install("", ""), ONLY_ZONE.(hostnames := [DIRECT])) && !IsWildcard("m.z.de")
  {
    OnlyZoneOk();
    ExampleDomain("m");
    assert "m" + ".z.de" == "m.z.de";
    ValidNameFixed("m.z.de");
    assert Base("m.z.de") == "m.z.de";
    OnlyZoneFree(DIRECT);
    assert ZONE_ROW in ONLY_ZONE.zones;
    NewHostnameKeeps(Install("", ""), ONLY_ZONE, DIRECT);
    assert Insert([], DIRECT, HostnameKey) == [DIRECT];
  }

  lemma DirectName()
    ensures RelativeName("m.z.de", LibdnsZone("z.de")) == "m"
  {
    ZoneNameOk();
    ValidNameShape("z.de");
    CloudflareNameFixed("z.de");
    assert "m" + "." + "z.de" == "m.z.de";
    RelativeBelow("m", "z.de");
  }

  /** Concretely: m.z.de held outside every Project Domain; its record A("m", 1) survives every later pass. */
  lemma LeftoverExample(machines: seq<Machine>)
    ensures var t := ONLY_ZONE.(hostnames := [DIRECT]);
            && Inv(Install("", ""), t) && Leftover(DIRECT, ZONE_ROW, A("m", 1))
            && PassName(PlanFor(Without(t, DIRECT), ZONE_ROW, FleetTargets(machines, Without(t, DIRECT))), "m", [1]) == [1]
  {
    var t := ONLY_ZONE.(hostnames := [DIRECT]);
    DirectOk();
    DirectName();
    assert ZONE_ROW in t.zones && DIRECT in t.hostnames;
    LeftoverStays(Install("", ""), t, DIRECT, ZONE_ROW, A("m", 1), machines, [1]);
  }
}
