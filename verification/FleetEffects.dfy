/**
 Which names a machine goes by and what its targets are, stated on the rows' own fields, and the names the zone loop
 then serves: a name only one machine goes by lists that machine's address.
 */
module FleetEffects {
  import opened Text
  import opened Names
  import opened Registry
  import opened RegistryInvariant
  import opened ZoneRecords
  import opened ZoneFleet

  // ---------------------------------------------------------------- the rows of a machine

  /** The hostname is recorded for the machine: tenant, project and machine, joined by slashes, are the machine's. */
  predicate HeldBy(h: Hostname, m: Machine) {
    h.tenant + "/" + h.project + "/" + h.machine == m.tenant + "/" + m.project + "/" + m.name
  }

  /** The claim is recorded for the machine's project. */
  predicate ClaimedFor(c: Claim, m: Machine) {
    c.tenant + "/" + c.project == m.tenant + "/" + m.project
  }

  lemma {:induction false} SlashSplit(a: string, b: string, x: string, y: string)
    requires '/' !in a && '/' !in x && a + "/" + b == x + "/" + y
    ensures a == x && b == y
  {
    if a == "" || x == "" {
      assert (a + "/" + b)[0] == (x + "/" + y)[0];
      assert a == x == "";
      assert (a + "/" + b)[1..] == b && (x + "/" + y)[1..] == y;
    } else {
      assert (a + "/" + b)[0] == a[0] && (x + "/" + y)[0] == x[0];
      assert (a + "/" + b)[1..] == a[1..] + "/" + b && (x + "/" + y)[1..] == x[1..] + "/" + y;
      SlashSplit(a[1..], b, x[1..], y);
      assert a == [a[0]] + a[1..] && x == [x[0]] + x[1..];
    }
  }

  /** Names without a slash: the joined keys are equal only for the same tenant, project and machine. */
  lemma HeldByExactly(h: Hostname, m: Machine)
    requires '/' !in h.tenant && '/' !in m.tenant && '/' !in h.project && '/' !in m.project
    ensures HeldBy(h, m) <==> h.tenant == m.tenant && h.project == m.project && h.machine == m.name
  {
    if HeldBy(h, m) {
      Joined(h.tenant, h.project, h.machine);
      Joined(m.tenant, m.project, m.name);
      SlashSplit(h.tenant, h.project + "/" + h.machine, m.tenant, m.project + "/" + m.name);
      SlashSplit(h.project, h.machine, m.project, m.name);
    }
  }

  lemma Joined(a: string, b: string, c: string)
    ensures a + "/" + b + "/" + c == a + "/" + (b + "/" + c)
  {}

  lemma ClaimedForExactly(c: Claim, m: Machine)
    requires '/' !in c.tenant && '/' !in m.tenant
    ensures ClaimedFor(c, m) <==> c.tenant == m.tenant && c.project == m.project
  {
    if ClaimedFor(c, m) {
      SlashSplit(c.tenant, c.project, m.tenant, m.project);
    }
  }

  /** The last listed claim of the machine's project. */
  ghost predicate LastClaim(claims: seq<Claim>, m: Machine, c: Claim) {
    exists i :: 0 <= i < |claims| && claims[i] == c && ClaimedFor(c, m) && forall j :: i < j < |claims| ==> !ClaimedFor(claims[j], m)
  }

  /** The claim found by key is the last listed of the project's; none is found when the project has none. */
  lemma {:induction false} ClaimByKeyIs(claims: seq<Claim>, m: Machine)
    ensures match ClaimByKey(claims, m.tenant + "/" + m.project)
            case None => forall c :: c in claims ==> !ClaimedFor(c, m)
            case Some(c) => LastClaim(claims, m, c)
  {
    if claims != [] {
      var front, last := claims[..|claims| - 1], claims[|claims| - 1];
      ClaimByKeyIs(front, m);
      assert claims == front + [last];
      if !ClaimedFor(last, m) && ClaimByKey(front, m.tenant + "/" + m.project).Some? {
        LastClaimSnoc(front, last, m, ClaimByKey(front, m.tenant + "/" + m.project).value);
      }
    }
  }

  lemma LastClaimSnoc(front: seq<Claim>, last: Claim, m: Machine, c: Claim)
    requires LastClaim(front, m, c) && !ClaimedFor(last, m)
    ensures LastClaim(front + [last], m, c)
  {
    var i :| 0 <= i < |front| && front[i] == c && forall j :: i < j < |front| ==> !ClaimedFor(front[j], m);
    assert (front + [last])[i] == c;
  }

  // ---------------------------------------------------------------- one label directly below the domain

  function Folded(name: string): string {
    Lower(TrimDots(TrimSpace(name)))
  }

  predicate FreeLabel(part: string) {
    part != "" && '.' !in part && '*' !in part
  }

  ghost predicate OneLabelBelow(hostname: string, domain: string) {
    exists part :: FreeLabel(part) && hostname == part + "." + domain
  }

  /** The wildcard certificate of a Project Domain covers the names one label below it. */
  lemma CoveredIff(hostname: string, domain: string)
    ensures CoveredByProjectCertificate(hostname, domain) <==>
            Folded(domain) != "" && OneLabelBelow(Folded(hostname), Folded(domain))
  {
    CoveredSplit(Folded(hostname), Folded(domain));
  }

  lemma CoveredSplit(h: string, d: string)
    ensures HasSuffix(h, "." + d) && FreeLabel(TrimSuffix(h, "." + d)) <==> OneLabelBelow(h, d)
  {
    if HasSuffix(h, "." + d) {
      AboveSplit(h, d);
    }
    if OneLabelBelow(h, d) {
      var part :| FreeLabel(part) && h == part + "." + d;
      PartAbove(part, d);
    }
  }

  lemma AboveSplit(h: string, d: string)
    requires HasSuffix(h, "." + d)
    ensures h == TrimSuffix(h, "." + d) + "." + d
  {
    assert h == TrimSuffix(h, "." + d) + ("." + d);
  }

  lemma PartAbove(part: string, d: string)
    ensures HasSuffix(part + "." + d, "." + d) && TrimSuffix(part + "." + d, "." + d) == part
  {
    assert part + "." + d == part + ("." + d);
    TrimSuffixExact(part, "." + d);
    EndsIn(part, "." + d);
  }

  lemma FoldedFixed(name: string)
    requires name != "" && name[0] != '.' && name[|name| - 1] != '.' && TrimSpace(name) == name && Lower(name) == name
    ensures Folded(name) == name
  {
    TrimDotsFixed(name);
  }

  /** For names as they are stored no folding is left to do. */
  lemma StoredCoveredIff(hostname: string, domain: string)
    requires ValidName(Base(hostname)) && ValidName(domain)
    ensures CoveredByProjectCertificate(hostname, domain) <==> OneLabelBelow(hostname, domain)
  {
    ValidNameShape(domain);
    ValidNameFixed(domain);
    FoldedFixed(domain);
    StorableShape(hostname);
    HostnameTrimmed(hostname);
    LowerStored(hostname);
    FoldedFixed(hostname);
    CoveredIff(hostname, domain);
  }

  lemma LowerStored(h: string)
    requires ValidName(Base(h))
    ensures Lower(h) == h
  {
    ValidNameFixed(Base(h));
    StorableShape(h);
    LowerBehindWildcard(Base(h));
  }

  lemma LowerBehindWildcard(b: string)
    requires Lower(b) == b
    ensures Lower(WILDCARD + b) == WILDCARD + b
  {
    var h := WILDCARD + b;
    forall i | 0 <= i < |h| ensures LowerChar(h[i]) == h[i] {
      assert i >= 2 ==> h[i] == b[i - 2] == Lower(b)[i - 2];
    }
  }

  // ---------------------------------------------------------------- the targets of a machine

  /** The machine's project has a claim, and the domain the Incus project records is that claim's or none. */
  ghost predicate Agrees(t: Tables, m: Machine, c: Claim) {
    LastClaim(t.claims, m, c) && (Lower(TrimSpace(m.projectDomain)) == "" || Lower(TrimSpace(m.projectDomain)) == c.domain)
  }

  lemma AgreesIff(t: Tables, m: Machine, c: Claim)
    ensures Derives(t, m, c) <==> Agrees(t, m, c)
  {
    ClaimByKeyIs(t.claims, m);
    if ClaimByKey(t.claims, m.tenant + "/" + m.project).Some? && Agrees(t, m, c) {
      LastClaimOne(t.claims, m, c, ClaimByKey(t.claims, m.tenant + "/" + m.project).value);
    }
  }

  lemma LastClaimOne(claims: seq<Claim>, m: Machine, a: Claim, b: Claim)
    requires LastClaim(claims, m, a) && LastClaim(claims, m, b)
    ensures a == b
  {}

  /** The domain whose wildcard certificate serves a name of the project, if any. */
  ghost function ServingDomain(hostname: string, domain: string): string {
    if Folded(domain) != "" && OneLabelBelow(Folded(hostname), Folded(domain)) then domain else ""
  }

  ghost predicate DerivedAs(x: Target, m: Machine, c: Claim) {
    x == Target(Lower(m.name) + "." + c.domain, c.zone, ServingDomain(Lower(m.name) + "." + c.domain, c.domain), true, m.addr)
  }

  /** An explicit hostname of the machine, served by its project's certificate when that covers it. */
  ghost predicate ExplicitAs(t: Tables, m: Machine, x: Target, domain: string) {
    exists h :: h in t.hostnames && HeldBy(h, m) && x == Target(h.hostname, h.zone, ServingDomain(h.hostname, domain), false, m.addr)
  }

  /** An explicit hostname of the machine before any certificate is chosen for it. */
  ghost predicate HeldTarget(t: Tables, m: Machine, x: Target) {
    exists h :: h in t.hostnames && HeldBy(h, m) && x == Target(h.hostname, h.zone, "", false, m.addr)
  }

  function ExplicitOf(t: Tables, m: Machine): seq<Target> {
    Explicit(Filter(t.hostnames, OnMachine(m.tenant + "/" + m.project + "/" + m.name)), m.addr)
  }

  function DerivedOf(m: Machine, c: Claim): Target {
    Target(Lower(m.name) + "." + c.domain, c.zone, "", true, m.addr)
  }

  lemma ClassifyAgreed(t: Tables, m: Machine, c: Claim)
    requires Derives(t, m, c)
    ensures Classify(m, t) == MachineTargets(StableSort(Stamped([DerivedOf(m, c)] + ExplicitOf(t, m), c.domain), ByHostname), true)
  {}

  lemma ExplicitAsIff(t: Tables, m: Machine, x: Target, domain: string)
    ensures ExplicitAs(t, m, x, domain) <==>
            HeldTarget(t, m, x.(projectDomain := "")) && x.projectDomain == ServingDomain(x.hostname, domain)
  {}

  lemma DerivedAsIff(m: Machine, c: Claim, x: Target)
    ensures DerivedAs(x, m, c) <==>
            x.(projectDomain := "") == DerivedOf(m, c) && x.projectDomain == ServingDomain(x.hostname, c.domain)
  {}

  lemma ServingDomainIs(hostname: string, domain: string)
    ensures ServingDomain(hostname, domain) == if CoveredByProjectCertificate(hostname, domain) then domain else ""
  {
    CoveredIff(hostname, domain);
  }

  lemma Unstamped(t: Tables, m: Machine, c: Claim)
    ensures forall y :: y in [DerivedOf(m, c)] + ExplicitOf(t, m) ==> y.projectDomain == ""
  {}

  lemma AgreedMember(t: Tables, m: Machine, c: Claim, x: Target)
    requires Derives(t, m, c)
    ensures x in Classify(m, t).targets <==>
            x.(projectDomain := "") in [DerivedOf(m, c)] + ExplicitOf(t, m) && x.projectDomain == ServingDomain(x.hostname, c.domain)
  {
    var all := [DerivedOf(m, c)] + ExplicitOf(t, m);
    ClassifyAgreed(t, m, c);
    SortMembers(Stamped(all, c.domain), ByHostname);
    Unstamped(t, m, c);
    StampedMember(all, c.domain, x);
    ServingDomainIs(x.hostname, c.domain);
  }

  /** An agreeing claim: the targets are the derived name and the machine's own hostnames, and nothing else. */
  lemma TargetsAgreed(t: Tables, m: Machine, c: Claim, x: Target)
    requires Agrees(t, m, c)
    ensures x in Classify(m, t).targets <==> DerivedAs(x, m, c) || ExplicitAs(t, m, x, c.domain)
    ensures Classify(m, t).converge
  {
    AgreesIff(t, m, c);
    AgreedMember(t, m, c, x);
    ExplicitMember(t, m, x.(projectDomain := ""));
    ExplicitAsIff(t, m, x, c.domain);
    DerivedAsIff(m, c, x);
    ClassifyAgreed(t, m, c);
  }

  lemma StampedMember(targets: seq<Target>, domain: string, x: Target)
    requires forall y :: y in targets ==> y.projectDomain == ""
    ensures x in Stamped(targets, domain) <==>
            x.(projectDomain := "") in targets
            && x.projectDomain == if CoveredByProjectCertificate(x.hostname, domain) then domain else ""
  {
    var stamped := Stamped(targets, domain);
    if x in stamped {
      var i :| 0 <= i < |stamped| && stamped[i] == x;
      assert targets[i] in targets && x.(projectDomain := "") == targets[i];
    }
    if x.(projectDomain := "") in targets {
      var i :| 0 <= i < |targets| && targets[i] == x.(projectDomain := "");
      assert stamped[i] in stamped;
    }
  }

  lemma ExplicitMember(t: Tables, m: Machine, x: Target)
    ensures x in ExplicitOf(t, m) <==> HeldTarget(t, m, x)
  {
    var onMachine := OnMachine(m.tenant + "/" + m.project + "/" + m.name);
    var rows := Filter(t.hostnames, onMachine);
    assert forall h :: h in rows <==> h in t.hostnames && HeldBy(h, m) by {
      assert forall h :: onMachine(h) <==> HeldBy(h, m);
    }
    ExplicitRow(rows, m.addr, x);
  }

  lemma ExplicitRow(rows: seq<Hostname>, addr: Option<int>, x: Target)
    ensures x in Explicit(rows, addr) <==> exists h :: h in rows && x == Target(h.hostname, h.zone, "", false, addr)
  {
    var explicit := Explicit(rows, addr);
    if x in explicit {
      var i :| 0 <= i < |explicit| && explicit[i] == x;
      assert rows[i] in rows;
    }
    if h :| h in rows && x == Target(h.hostname, h.zone, "", false, addr) {
      var i :| 0 <= i < |rows| && rows[i] == h;
      assert explicit[i] in explicit;
    }
  }

  /** No claim, or one the Incus project contradicts: only the explicit hostnames, each with its own certificate. */
  lemma TargetsUnagreed(t: Tables, m: Machine, x: Target)
    requires forall c :: !Agrees(t, m, c)
    ensures x in Classify(m, t).targets <==> HeldTarget(t, m, x)
    ensures Classify(m, t).converge <==> Lower(TrimSpace(m.projectDomain)) == ""
  {
    ClassifyUnagreed(t, m);
    SortMembers(ExplicitOf(t, m), ByHostname);
    ExplicitMember(t, m, x);
  }

  lemma ClassifyUnagreed(t: Tables, m: Machine)
    requires forall c :: !Agrees(t, m, c)
    ensures Classify(m, t) == MachineTargets(StableSort(ExplicitOf(t, m), ByHostname), Lower(TrimSpace(m.projectDomain)) == "")
  {
    var claim := ClaimByKey(t.claims, m.tenant + "/" + m.project);
    if claim.Some? {
      AgreesIff(t, m, claim.value);
    }
  }

  function TargetName(x: Target): string { x.hostname }

  lemma SortedByName(targets: seq<Target>)
    ensures var sorted := StableSort(targets, ByHostname);
            forall i, j :: 0 <= i < j < |sorted| ==> LessEq(sorted[i].hostname, sorted[j].hostname)
  {
    assert ComparesKeys(ByHostname, TargetName);
    KeyPreorder(ByHostname, TargetName);
    StableSortSorted(targets, ByHostname);
  }

  /** The targets are listed by hostname. */
  lemma TargetsSorted(t: Tables, m: Machine)
    ensures var targets := Classify(m, t).targets;
            forall i, j :: 0 <= i < j < |targets| ==> LessEq(targets[i].hostname, targets[j].hostname)
  {
    if c :| Derives(t, m, c) {
      ClassifyAgreed(t, m, c);
      SortedByName(Stamped([DerivedOf(m, c)] + ExplicitOf(t, m), c.domain));
    } else {
      forall c ensures !Agrees(t, m, c) {
        AgreesIff(t, m, c);
      }
      ClassifyUnagreed(t, m);
      SortedByName(ExplicitOf(t, m));
    }
  }

  // ---------------------------------------------------------------- the names a machine goes by

  /** The machine holds the name, or derives it below a domain of its own project. */
  ghost predicate GoesBy(t: Tables, m: Machine, name: string) {
    || (exists h :: h in t.hostnames && HeldBy(h, m) && h.hostname == name)
    || (exists c :: c in t.claims && ClaimedFor(c, m) && Lower(m.name) + "." + c.domain == name)
  }

  /** A machine's targets bear its own names only. */
  lemma ServesOwnNames(t: Tables, m: Machine)
    ensures forall x :: x in Classify(m, t).targets ==> GoesBy(t, m, x.hostname) && x.addr == m.addr
  {
    forall x | x in Classify(m, t).targets ensures GoesBy(t, m, x.hostname) && x.addr == m.addr {
      if c :| Agrees(t, m, c) {
        TargetsAgreed(t, m, c, x);
      } else {
        TargetsUnagreed(t, m, x);
      }
    }
  }

  lemma {:induction false} FleetMember(machines: seq<Machine>, t: Tables, x: Target) returns (m: Machine)
    requires x in FleetTargets(machines, t)
    ensures m in machines && x in Classify(m, t).targets
  {
    m := machines[|machines| - 1];
    if x !in Classify(m, t).targets {
      m := FleetMember(machines[..|machines| - 1], t, x);
    }
  }

  lemma {:induction false} MemberFleet(machines: seq<Machine>, t: Tables, m: Machine, x: Target)
    requires m in machines && x in Classify(m, t).targets
    ensures x in FleetTargets(machines, t)
  {
    if m != machines[|machines| - 1] {
      assert m in machines[..|machines| - 1];
      MemberFleet(machines[..|machines| - 1], t, m, x);
    }
  }

  // ---------------------------------------------------------------- full names of what a target asks for

  lemma AskedBelow(rel: string, cf: string)
    requires rel != "@" && rel != ""
    ensures Absolute(rel, cf) == rel + "." + cf && Absolute(RelativeWildcard(rel), cf) == WILDCARD + (rel + "." + cf)
  {
    assert (WILDCARD + rel) + "." + cf == WILDCARD + (rel + "." + cf);
    assert |WILDCARD + rel| >= 2;
  }

  lemma AskedApex(cf: string)
    ensures Absolute("@", cf) == cf && Absolute(RelativeWildcard("@"), cf) == WILDCARD + cf
  {
    assert "*" + "." + cf == WILDCARD + cf;
  }

  lemma HeldAsked(zones: seq<Zone>, z: Zone, h: Hostname)
    requires ZonesOk(zones) && z in zones && HostnameRowOk(zones, h) && h.zone == z.name
    ensures var rel := RelativeName(h.hostname, LibdnsZone(z.cloudflareZone));
            && Absolute(rel, z.cloudflareZone) == h.hostname
            && Absolute(RelativeWildcard(rel), z.cloudflareZone) == WILDCARD + h.hostname
  {
    var cf := z.cloudflareZone;
    CloudflareZoneShape(zones, z);
    UnderTransitive(h.hostname, z.name, cf);
    RelativeExact(h.hostname, cf);
    var rel := RelativeName(h.hostname, cf + ".");
    if rel == "@" {
      AskedApex(cf);
    } else {
      AskedBelow(rel, cf);
    }
  }

  lemma DerivedAsked(zones: seq<Zone>, z: Zone, c: Claim, above: string)
    requires ZonesOk(zones) && z in zones && ClaimRowOk(zones, c) && c.zone == z.name
    ensures var rel := RelativeName(above + "." + c.domain, LibdnsZone(z.cloudflareZone));
            && Absolute(rel, z.cloudflareZone) == above + "." + c.domain
            && Absolute(RelativeWildcard(rel), z.cloudflareZone) == WILDCARD + (above + "." + c.domain)
  {
    var cf := z.cloudflareZone;
    CloudflareZoneShape(zones, z);
    var rd := ClaimShape(zones, z, c);
    DerivedRelative(rd, cf, above);
    Reassociate(above, rd, cf);
    var rel := above + ("." + rd);
    assert |rel| >= 2;
    AskedBelow(rel, cf);
  }

  /** A target asks for its own full name or for its wildcard. */
  lemma AskedInFull(install: Install, t: Tables, z: Zone, x: Target, name: string)
    requires Inv(install, t) && z in t.zones && Sourced(x, t) && x.zone == z.name
    requires AskedBy(LibdnsZone(z.cloudflareZone), x, name)
    ensures Absolute(name, z.cloudflareZone) in {x.hostname, WILDCARD + x.hostname}
  {
    if h :| h in t.hostnames && FromHostname(x, h) {
      assert HostnameRowOk(t.zones, h);
      HeldAsked(t.zones, z, h);
    } else {
      var c :| c in t.claims && FromClaim(x, c);
      var above :| x.hostname == above + "." + c.domain;
      assert ClaimRowOk(t.zones, c);
      DerivedAsked(t.zones, z, c, above);
    }
  }

  // ---------------------------------------------------------------- what the zone loop serves

  /** Another machine goes by the full name, or by the name it is the wildcard of. */
  ghost predicate Rival(t: Tables, machines: seq<Machine>, m: Machine, full: string) {
    exists o, n :: o in machines && o != m && GoesBy(t, o, n) && full in {n, WILDCARD + n}
  }

  lemma {:induction false} LastAskerAgrees(lz: string, targets: seq<Target>, name: string, x: Target)
    requires x in targets && AskedBy(lz, x, name)
    requires forall y :: y in targets && AskedBy(lz, y, name) ==> y.addr == x.addr
    ensures LastAsker(lz, targets, name) == x.addr
  {
    var front, last := targets[..|targets| - 1], targets[|targets| - 1];
    if !AskedBy(lz, last, name) {
      assert targets == front + [last];
      LastAskerAgrees(lz, front, name, x);
    }
  }

  /** A running machine's own name, or its wildcard, that no other machine goes by lists that machine's address. */
  lemma ServedAlone(install: Install, t: Tables, machines: seq<Machine>, stores: Stores, order: seq<Zone>, z: Zone, m: Machine,
                    x: Target, name: string)
    requires Inv(install, t) && NoRepeats(order) && TakesUp(t, order) && z in t.zones
    requires m in machines && x in Classify(m, t).targets && x.zone == z.name && AskedBy(LibdnsZone(z.cloudflareZone), x, name)
    requires !Rival(t, machines, m, Absolute(name, z.cloudflareZone))
    ensures m.addr.Some?
    ensures LastIs(AddrsOf(RecordsOf(PassAll(t, FleetTargets(machines, t), stores, order), z.cloudflareZone), name), m.addr.value)
  {
    var lz, inZone := LibdnsZone(z.cloudflareZone), InZone(z.name);
    var targets := FleetTargets(machines, t);
    var mine := Filter(targets, inZone);
    ServesOwnNames(t, m);
    MemberFleet(machines, t, m, x);
    assert inZone(x) && x in mine;
    forall y | y in mine && AskedBy(lz, y, name) ensures y.addr == m.addr {
      assert y in targets && inZone(y);
      FleetSourced(machines, t);
      AskedInFull(install, t, z, y, name);
      var o := FleetMember(machines, t, y);
      ServesOwnNames(t, o);
    }
    LastAskerAgrees(lz, mine, name, x);
    FleetServes(install, t, machines, stores, order, z, x, name);
  }

  /** The fleet lists every machine once, under its own name. */
  ghost predicate DistinctMachines(machines: seq<Machine>) {
    forall a, b :: a in machines && b in machines && a.tenant + "/" + a.project + "/" + a.name == b.tenant + "/" + b.project + "/" + b.name
      ==> a == b
  }

  /** Some other machine derives the name, or the name it is the wildcard of, below its project's domain. */
  ghost predicate DerivedElsewhere(t: Tables, machines: seq<Machine>, m: Machine, full: string) {
    exists o, c :: o in machines && o != m && c in t.claims && ClaimedFor(c, o)
                   && full in {Lower(o.name) + "." + c.domain, WILDCARD + (Lower(o.name) + "." + c.domain)}
  }

  /** The registry leaves no second holder of a hostname, and none of the name it is the wildcard of. */
  lemma OneHolder(install: Install, t: Tables, h: Hostname, k: Hostname)
    requires Inv(install, t) && h in t.hostnames && k in t.hostnames && h.hostname in {k.hostname, WILDCARD + k.hostname}
    ensures k == h
  {
    if k != h {
      assert MayCoexist(h, k);
      BaseOfWildcard(k.hostname);
      assert HostnameRowOk(t.zones, h);
      if h.hostname != k.hostname {
        ValidNameFixed(Base(h.hostname));
      }
    }
  }

  lemma NoHeldRival(install: Install, t: Tables, machines: seq<Machine>, m: Machine, h: Hostname)
    requires Inv(install, t) && DistinctMachines(machines) && m in machines && h in t.hostnames && HeldBy(h, m)
    requires !DerivedElsewhere(t, machines, m, h.hostname)
    ensures !Rival(t, machines, m, h.hostname)
  {
    forall k | k in t.hostnames && h.hostname in {k.hostname, WILDCARD + k.hostname} ensures k == h {
      OneHolder(install, t, h, k);
    }
  }

  /** After the zone loop a hostname of a running machine lists that machine's address, unless another machine derives it. */
  lemma HeldHostnameServed(install: Install, t: Tables, machines: seq<Machine>, stores: Stores, order: seq<Zone>, z: Zone,
                           m: Machine, h: Hostname, addr: int)
    requires Inv(install, t) && NoRepeats(order) && TakesUp(t, order) && DistinctMachines(machines)
    requires m in machines && m.addr == Some(addr) && h in t.hostnames && HeldBy(h, m) && z in t.zones && z.name == h.zone
    requires !DerivedElsewhere(t, machines, m, h.hostname)
    ensures var name := RelativeName(h.hostname, LibdnsZone(z.cloudflareZone));
            LastIs(AddrsOf(RecordsOf(PassAll(t, FleetTargets(machines, t), stores, order), z.cloudflareZone), name), addr)
  {
    var name := RelativeName(h.hostname, LibdnsZone(z.cloudflareZone));
    var x := ClassifiedExplicit(t, m, h);
    assert HostnameRowOk(t.zones, h);
    HeldAsked(t.zones, z, h);
    NoHeldRival(install, t, machines, m, h);
    ServedAlone(install, t, machines, stores, order, z, m, x, name);
  }

  // ---------------------------------------------------------------- what the pass may delete

  /** Some target's name or wildcard has that relative name. */
  ghost predicate NamesTarget(lz: string, targets: seq<Target>, name: string) {
    exists x :: x in targets && MachineRelativeName(RelativeName(x.hostname, lz)) == name
  }

  lemma {:induction false} KeptTarget(lz: string, targets: seq<Target>, name: string) returns (x: Target)
    requires name in Keep(lz, targets)
    ensures x in targets && MachineRelativeName(RelativeName(x.hostname, lz)) == name
  {
    x := targets[|targets| - 1];
    if name in Keep(lz, targets[..|targets| - 1]) {
      x := KeptTarget(lz, targets[..|targets| - 1], name);
    }
  }

  /** The kept names are those of the targets, running or not, and no others. */
  lemma KeepIff(lz: string, targets: seq<Target>, name: string)
    ensures name in Keep(lz, targets) <==> NamesTarget(lz, targets, name)
  {
    if name in Keep(lz, targets) {
      var x := KeptTarget(lz, targets, name);
    }
  }

  /** A record is deleted iff it is a managed A record no target asks for and no target's name or wildcard. */
  lemma DeletedIff(t: Tables, z: Zone, targets: seq<Target>, r: Record)
    ensures var lz, mine := LibdnsZone(z.cloudflareZone), Filter(targets, InZone(z.name));
            IsStale(PlanFor(t, z, targets))(r) <==>
            && r.A? && Managed(PlanFor(t, z, targets), r.name)
            && LastAsker(lz, mine, r.name).None? && !NamesTarget(lz, mine, MachineRelativeName(r.name))
  {
    var lz, mine := LibdnsZone(z.cloudflareZone), Filter(targets, InZone(z.name));
    WantIsLastAsker(lz, mine, r.name);
    KeepIff(lz, mine, MachineRelativeName(r.name));
  }
}
