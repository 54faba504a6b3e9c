/**
 The records that go when a Project Domain or an explicit hostname is released: A records and
 `_acme-challenge` TXT records, named as in section 8.4 of RFC 8555.
 */
module ReleasedRecords {
  import opened Text
  import opened Names
  import opened Registry
  import opened RegistryInvariant
  import opened RegistryTheorems
  import opened ExampleRegistry
  import opened ProjectCreation
  import opened ZoneRecords
  import opened ZoneFleet

  const CHALLENGE := "_acme-challenge"

  /** `relativeChallengeName`: a wildcard shares the challenge of its base. */
  function ChallengeName(hostname: string, lz: string): string {
    var rel := RelativeName(Base(hostname), lz);
    if rel == "@" then CHALLENGE else CHALLENGE + "." + rel
  }

  /** The challenge record of a hostname stands directly below its base. */
  lemma ChallengeExact(h: string, cf: string)
    requires Storable(h) && Under(Base(h), cf) && cf != ""
    ensures Absolute(ChallengeName(h, cf + "."), cf) == CHALLENGE + "." + Base(h)
  {
    BaseRelative(h, cf);
    LabelAbove(CHALLENGE, RelativeName(Base(h), cf + "."), cf);
  }

  lemma BaseRelative(h: string, cf: string)
    requires Storable(h) && Under(Base(h), cf) && cf != ""
    ensures Absolute(RelativeName(Base(h), cf + "."), cf) == Base(h)
  {
    ValidNameFixed(Base(h));
    assert Base(Base(h)) == Base(h);
    RelativeExact(Base(h), cf);
  }

  /** A label in front of a relative name is that label in front of the full name. */
  lemma LabelAbove(first: string, rel: string, cf: string)
    requires first != "" && first != "@"
    ensures Absolute(if rel == "@" then first else first + "." + rel, cf) == first + "." + Absolute(rel, cf)
  {
    assert first + "." + rel + "." + cf == first + "." + (rel + "." + cf);
    assert |first + "." + rel| > 1;
  }

  predicate IsChallenge(r: Record) {
    r.Other? && r.kind == "TXT" && (r.name == CHALLENGE || HasPrefix(r.name, CHALLENGE + "."))
  }

  /** `releaseProjectDomainRecords`: everything behind the domain's suffix. */
  function GoesWithDomain(domain: string, lz: string): Record -> bool {
    (r: Record) => (r.A? || IsChallenge(r)) && HasSuffix(r.name, "." + RelativeName(domain, lz))
  }

  /** `releaseMachineHostnameRecords`: base, wildcard and challenge of one hostname. */
  function GoesWithHostname(hostname: string, lz: string): Record -> bool {
    (r: Record) =>
      if r.A? then
        var rel := RelativeName(hostname, lz);
        r.name == rel || (!IsWildcard(hostname) && r.name == RelativeWildcard(rel))
      else IsChallenge(r) && r.name == ChallengeName(hostname, lz)
  }

  /** The delete list of `deleteZoneRecords`. */
  method ReleaseList(records: seq<Record>, hits: Record -> bool) returns (stale: seq<Record>)
    ensures stale == Filter(records, hits)
  {
    stale := [];
    for i := 0 to |records|
      invariant stale == Filter(records[..i], hits)
    {
      FilterAt(records, i, hits);
      if hits(records[i]) {
        stale := stale + [records[i]];
      }
    }
    assert records[..|records|] == records;
  }

  /** A challenge record is a TXT record whose first label is `_acme-challenge`. */
  lemma ChallengeIff(r: Record)
    ensures IsChallenge(r) <==> r.Other? && r.kind == "TXT" && Split(r.name, '.')[0] == "_acme-challenge"
  {
    ChallengeLabel(r.name, CHALLENGE);
  }

  lemma ChallengeLabel(name: string, first: string)
    requires '.' !in first
    ensures name == first || HasPrefix(name, first + ".") <==> Split(name, '.')[0] == first
  {
    var rest := SplitHead(name, '.');
    if name == first {
      SplitPart(first, '.');
    } else if HasPrefix(name, first + ".") {
      assert name == name[..|first| + 1] + name[|first| + 1..] == first + ['.'] + name[|first| + 1..];
      SplitFirst(first, name[|first| + 1..], '.');
    }
  }

  // ---------------------------------------------------------------- what a released domain takes

  /** A name strictly below a domain has the domain's relative name as its dotted suffix. */
  lemma BelowMeansSuffix(rd: string, cf: string, name: string)
    requires StrictlyUnder(Absolute(name, cf), rd + "." + cf)
    ensures HasSuffix(name, "." + rd)
  {
    var p := BelowSplit(Absolute(name, cf), rd + "." + cf);
    assert |Absolute(name, cf)| > |cf| + 1;
    assert name + "." + cf == p + "." + (rd + "." + cf);
    Reassociate(p, rd, cf);
    assert name + ("." + cf) == name + "." + cf;
    assert p + ("." + rd) + ("." + cf) == p + ("." + rd) + "." + cf;
    SameFront(name, p + ("." + rd), "." + cf);
    EndsIn(p, "." + rd);
  }

  lemma SameFront(a: string, b: string, tail: string)
    requires a + tail == b + tail
    ensures a == b
  {
    assert (a + tail)[..|a|] == a && (b + tail)[..|b|] == b;
  }

  /** A released domain takes exactly the A and challenge records strictly below it. */
  lemma DomainTakesBelow(zones: seq<Zone>, z: Zone, c: Claim, r: Record)
    requires ZonesOk(zones) && z in zones && ClaimRowOk(zones, c) && c.zone == z.name
    ensures GoesWithDomain(c.domain, LibdnsZone(z.cloudflareZone))(r) <==>
            (r.A? || IsChallenge(r)) && StrictlyUnder(Absolute(r.name, z.cloudflareZone), c.domain)
  {
    CloudflareZoneShape(zones, z);
    var rd := ClaimShape(zones, z, c);
    if HasSuffix(r.name, "." + rd) {
      SuffixMeansBelow(rd, z.cloudflareZone, r.name);
    }
    if StrictlyUnder(Absolute(r.name, z.cloudflareZone), c.domain) {
      BelowMeansSuffix(rd, z.cloudflareZone, r.name);
    }
  }

  /** The release of one domain takes some record strictly below another name. */
  ghost predicate TakesBelow(c: Claim, z: Zone, name: string) {
    exists r :: Taken(c, z, name, r)
  }

  ghost predicate Taken(c: Claim, z: Zone, name: string, r: Record) {
    GoesWithDomain(c.domain, LibdnsZone(z.cloudflareZone))(r) && StrictlyUnder(Absolute(r.name, z.cloudflareZone), name)
  }

  /** It does exactly when the two names are related. */
  lemma TakesBelowIff(zones: seq<Zone>, z: Zone, c: Claim, name: string)
    requires ZonesOk(zones) && z in zones && ClaimRowOk(zones, c) && c.zone == z.name
    ensures TakesBelow(c, z, name) <==> Related(c.domain, name)
  {
    if TakesBelow(c, z, name) {
      var r :| Taken(c, z, name, r);
      DomainTakesBelow(zones, z, c, r);
      SuffixesComparable(Absolute(r.name, z.cloudflareZone), c.domain, name);
    }
    if Related(c.domain, name) {
      var lower := if Under(name, c.domain) then name else c.domain;
      var r := RecordBelow(zones, z, c, lower);
      UnderTransitive(Absolute(r.name, z.cloudflareZone), lower, name);
      assert Taken(c, z, name, r);
    }
  }

  /** Some A record strictly below a name at or below the domain goes with the domain. */
  lemma RecordBelow(zones: seq<Zone>, z: Zone, c: Claim, lower: string) returns (r: Record)
    requires ZonesOk(zones) && z in zones && ClaimRowOk(zones, c) && c.zone == z.name && Under(lower, c.domain)
    ensures GoesWithDomain(c.domain, LibdnsZone(z.cloudflareZone))(r)
    ensures StrictlyUnder(Absolute(r.name, z.cloudflareZone), lower)
  {
    var cf := z.cloudflareZone;
    UnderTransitive(c.domain, z.name, cf);
    UnderTransitive(lower, c.domain, cf);
    var p := BelowSplit(lower, cf);
    r := A("m." + p, 0);
    assert |r.name| > 1 && r.name + "." + cf == "m" + "." + (p + "." + cf);
    BelowIs("m", lower);
    UnderTransitive(Absolute(r.name, cf), lower, c.domain);
    DomainTakesBelow(zones, z, c, r);
  }

  /**
   After a plain release no remaining claim loses a record, and a remaining hostname loses one below it
   exactly when it lies below the released domain; then it is the same project's.
   */
  lemma DomainReleaseConfined(install: Install, t: Tables, tenant: string, project: string, z: Zone)
    requires Inv(install, t) && ReleaseDomain(t, tenant, project).1.Some?
    requires z in t.zones && z.name == ReleaseDomain(t, tenant, project).1.value.zone
    ensures var (after, c) := (ReleaseDomain(t, tenant, project).0, ReleaseDomain(t, tenant, project).1.value);
            && (forall d :: d in after.claims ==> !TakesBelow(c, z, d.domain))
            && (forall h :: h in after.hostnames ==>
                  (TakesBelow(c, z, Base(h.hostname)) <==> StrictlyUnder(Base(h.hostname), c.domain))
                  && (TakesBelow(c, z, Base(h.hostname)) ==> h.tenant == c.tenant && h.project == c.project))
  {
    var c := ReleaseDomain(t, tenant, project).1.value;
    assert ClaimRowOk(t.zones, c);
    forall d | d in ReleaseDomain(t, tenant, project).0.claims ensures !TakesBelow(c, z, d.domain) {
      TakesBelowIff(t.zones, z, c, d.domain);
      assert d in t.claims && d != c;
    }
    HostnamesTaken(install, t, z, c);
  }

  lemma HostnamesTaken(install: Install, t: Tables, z: Zone, c: Claim)
    requires Inv(install, t) && c in t.claims && z in t.zones && c.zone == z.name
    ensures forall h :: h in t.hostnames ==>
              (TakesBelow(c, z, Base(h.hostname)) <==> StrictlyUnder(Base(h.hostname), c.domain))
              && (TakesBelow(c, z, Base(h.hostname)) ==> h.tenant == c.tenant && h.project == c.project)
  {
    assert ClaimRowOk(t.zones, c);
    forall h | h in t.hostnames
      ensures TakesBelow(c, z, Base(h.hostname)) <==> StrictlyUnder(Base(h.hostname), c.domain)
      ensures TakesBelow(c, z, Base(h.hostname)) ==> h.tenant == c.tenant && h.project == c.project
    {
      TakesBelowIff(t.zones, z, c, Base(h.hostname));
      assert InsideOwnDomain(h, c);
    }
  }

  /**
   After a set-domain that replaced a claim, the cleanup of the replaced domain takes records below a current
   claim exactly when that claim is the new one and the two domains are related.
   */
  lemma ReplacementTakesIff(install: Install, t: Tables, req: DomainRequest, now: int, z: Zone, d: Claim)
    requires Inv(install, t) && !req.dryRun
    requires ClaimDomain(install, t, req, now).1.Claimed? && ClaimDomain(install, t, req, now).1.previous.Some?
    requires z in t.zones && z.name == ClaimDomain(install, t, req, now).1.previous.value.zone
    requires d in ClaimDomain(install, t, req, now).0.claims
    ensures var outcome := ClaimDomain(install, t, req, now).1;
            TakesBelow(outcome.previous.value, z, d.domain) <==>
            d == outcome.claim && Related(outcome.previous.value.domain, NormalizeName(req.domain).value)
  {
    ClaimedRow(install, t, req, now);
    var outcome := ClaimDomain(install, t, req, now).1;
    var others := ClaimedTables(install, t, outcome.claim);
    var owned := OwnedBy(outcome.claim.tenant, outcome.claim.project);
    var c := outcome.previous.value;
    assert c in t.claims && owned(c);
    assert ClaimRowOk(t.zones, c);
    TakesBelowIff(t.zones, z, c, d.domain);
    if d != outcome.claim {
      assert d in t.claims && d != c;
    }
  }

  /** The same cleanup takes records below a current hostname exactly when it lies below the replaced domain. */
  lemma ReplacementTakesHostnames(install: Install, t: Tables, req: DomainRequest, now: int, z: Zone, h: Hostname)
    requires Inv(install, t) && !req.dryRun
    requires ClaimDomain(install, t, req, now).1.Claimed? && ClaimDomain(install, t, req, now).1.previous.Some?
    requires z in t.zones && z.name == ClaimDomain(install, t, req, now).1.previous.value.zone
    requires h in ClaimDomain(install, t, req, now).0.hostnames
    ensures var c := ClaimDomain(install, t, req, now).1.previous.value;
            && (TakesBelow(c, z, Base(h.hostname)) <==> StrictlyUnder(Base(h.hostname), c.domain))
            && (TakesBelow(c, z, Base(h.hostname)) ==> h.tenant == c.tenant && h.project == c.project)
  {
    ClaimedRow(install, t, req, now);
    var outcome := ClaimDomain(install, t, req, now).1;
    var others := ClaimedTables(install, t, outcome.claim);
    HostnamesTaken(install, t, z, outcome.previous.value);
  }

  /** A domain replaced by one below it takes every record of the new domain along. */
  lemma ReplacedByChildTakesAll(zones: seq<Zone>, z: Zone, before: Claim, after: Claim, r: Record)
    requires ZonesOk(zones) && z in zones && ClaimRowOk(zones, before) && ClaimRowOk(zones, after)
    requires before.zone == z.name && after.zone == z.name && StrictlyUnder(after.domain, before.domain)
    requires GoesWithDomain(after.domain, LibdnsZone(z.cloudflareZone))(r)
    ensures GoesWithDomain(before.domain, LibdnsZone(z.cloudflareZone))(r)
  {
    DomainTakesBelow(zones, z, before, r);
    DomainTakesBelow(zones, z, after, r);
    UnderTransitive(Absolute(r.name, z.cloudflareZone), after.domain, before.domain);
  }

  /** Concretely: a.z.de is replaced by x.a.z.de, and its cleanup takes the address of m.x.a.z.de. */
  lemma ReplacedByChildExample()
    ensures Inv(Install("", ""), OneClaim("a.z.de"))
    ensures var (after, outcome) := ClaimDomain(Install("", ""), OneClaim("a.z.de"), Asks("x.a.z.de"), 0);
            && outcome.Claimed? && outcome.previous == Some(Held("a.z.de"))
            && after.claims == [outcome.claim] && outcome.claim.domain == "x.a.z.de"
            && StrictlyUnder(Absolute("m.x.a", "z.de"), outcome.claim.domain)
    ensures GoesWithDomain("a.z.de", LibdnsZone("z.de"))(A("m.x.a", 1))
  {
    ChildNames();
    OneClaimOk("a.z.de");
    ReplacementAccepted("a.z.de", "x.a.z.de");
    assert ZONE_ROW in OneClaim("a.z.de").zones;
    DomainTakesBelow([ZONE_ROW], ZONE_ROW, Held("a.z.de"), A("m.x.a", 1));
  }

  lemma ChildNames()
    ensures Claimable("a.z.de") && Claimable("x.a.z.de")
    ensures Absolute("m.x.a", "z.de") == "m.x.a.z.de"
    ensures StrictlyUnder("m.x.a.z.de", "x.a.z.de") && StrictlyUnder("m.x.a.z.de", "a.z.de")
  {
    ChildClaimable();
    ChildBelow();
  }

  lemma ChildBelow()
    ensures Absolute("m.x.a", "z.de") == "m.x.a.z.de"
    ensures StrictlyUnder("m.x.a.z.de", "x.a.z.de") && StrictlyUnder("m.x.a.z.de", "a.z.de")
  {
    assert "m.x.a" + "." + "z.de" == "m.x.a.z.de";
    assert "." + "x.a.z.de" == ".x.a.z.de" && "m.x.a.z.de"[1..] == ".x.a.z.de";
    assert "." + "a.z.de" == ".a.z.de" && "m.x.a.z.de"[3..] == ".a.z.de";
  }

  // ---------------------------------------------------------------- what a released hostname takes

  /** A released hostname's records are its base, the base's wildcard and the base's challenge. */
  lemma HostnameReleaseNames(zones: seq<Zone>, z: Zone, h: Hostname, r: Record)
    requires ZonesOk(zones) && z in zones && HostnameRowOk(zones, h) && h.zone == z.name
    requires GoesWithHostname(h.hostname, LibdnsZone(z.cloudflareZone))(r)
    ensures Under(Absolute(r.name, z.cloudflareZone), Base(h.hostname))
  {
    var cf, b := z.cloudflareZone, Base(h.hostname);
    CloudflareZoneShape(zones, z);
    BaseUnder(h.hostname, z.name);
    UnderTransitive(b, z.name, cf);
    UnderTransitive(h.hostname, z.name, cf);
    if !r.A? {
      ChallengeExact(h.hostname, cf);
      BelowIs(CHALLENGE, b);
    } else {
      AddressNames(h.hostname, cf, r.name);
    }
  }

  lemma AbsoluteInjective(a: string, b: string, cf: string)
    requires Absolute(a, cf) == Absolute(b, cf)
    ensures a == b
  {
    if a != "@" && b != "@" {
      assert a + "." + cf == a + ("." + cf) && b + "." + cf == b + ("." + cf);
      SameFront(a, b, "." + cf);
    }
  }

  /** A released hostname takes exactly its address, its wildcard's unless it is one, and its base's challenge. */
  lemma HostnameTakesIff(zones: seq<Zone>, z: Zone, h: Hostname, r: Record)
    requires ZonesOk(zones) && z in zones && HostnameRowOk(zones, h) && h.zone == z.name
    ensures var full := Absolute(r.name, z.cloudflareZone);
            GoesWithHostname(h.hostname, LibdnsZone(z.cloudflareZone))(r) <==>
            if r.A? then full == h.hostname || (!IsWildcard(h.hostname) && full == "*" + "." + h.hostname)
            else r.kind == "TXT" && full == "_acme-challenge" + "." + Base(h.hostname)
  {
    var cf := z.cloudflareZone;
    CloudflareZoneShape(zones, z);
    BaseUnder(h.hostname, z.name);
    UnderTransitive(Base(h.hostname), z.name, cf);
    UnderTransitive(h.hostname, z.name, cf);
    RelativeExact(h.hostname, cf);
    var rel := RelativeName(h.hostname, cf + ".");
    WildcardAbove(rel, cf);
    if r.A? {
      SameAbsolute(r.name, rel, cf);
      SameAbsolute(r.name, RelativeWildcard(rel), cf);
    } else {
      ChallengeExact(h.hostname, cf);
      SameAbsolute(r.name, ChallengeName(h.hostname, cf + "."), cf);
      ChallengeNamed(h.hostname, cf + ".");
    }
  }

  lemma SameAbsolute(a: string, b: string, cf: string)
    ensures Absolute(a, cf) == Absolute(b, cf) <==> a == b
  {
    if Absolute(a, cf) == Absolute(b, cf) {
      AbsoluteInjective(a, b, cf);
    }
  }

  lemma ChallengeNamed(hostname: string, lz: string)
    ensures ChallengeName(hostname, lz) == CHALLENGE || HasPrefix(ChallengeName(hostname, lz), CHALLENGE + ".")
  {
    var rel := RelativeName(Base(hostname), lz);
    assert (CHALLENGE + "." + rel)[..|CHALLENGE| + 1] == CHALLENGE + ".";
  }

  lemma AddressNames(h: string, cf: string, name: string)
    requires Storable(h) && Under(h, cf) && cf != ""
    requires name == RelativeName(h, cf + ".") || (!IsWildcard(h) && name == RelativeWildcard(RelativeName(h, cf + ".")))
    ensures Under(Absolute(name, cf), Base(h))
  {
    RelativeExact(h, cf);
    if name == RelativeName(h, cf + ".") {
      HostUnderBase(h);
    } else {
      WildcardAbove(RelativeName(h, cf + "."), cf);
      BelowIs("*", h);
    }
  }

  lemma WildcardAbove(rel: string, cf: string)
    ensures Absolute(RelativeWildcard(rel), cf) == "*" + "." + Absolute(rel, cf)
  {
    assert WILDCARD + rel == "*" + "." + rel;
    LabelAbove("*", rel, cf);
  }

  /** Every record a hostname's release takes is named after the hostname's base. */
  lemma HostnameTakesBase(zones: seq<Zone>, z: Zone, h: Hostname, r: Record)
    requires ZonesOk(zones) && z in zones && HostnameRowOk(zones, h)
    requires Under(h.hostname, z.name) && GoesWithHostname(h.hostname, LibdnsZone(z.cloudflareZone))(r)
    ensures var full := Absolute(r.name, z.cloudflareZone);
            if r.A? then Base(full) == Base(h.hostname) else full == CHALLENGE + "." + Base(h.hostname)
  {
    var cf := z.cloudflareZone;
    CloudflareZoneShape(zones, z);
    BaseUnder(h.hostname, z.name);
    UnderTransitive(Base(h.hostname), z.name, cf);
    UnderTransitive(h.hostname, z.name, cf);
    if r.A? {
      AddressBase(h.hostname, cf, r.name);
    } else {
      ChallengeExact(h.hostname, cf);
    }
  }

  lemma AddressBase(h: string, cf: string, name: string)
    requires Storable(h) && Under(h, cf) && cf != ""
    requires name == RelativeName(h, cf + ".") || (!IsWildcard(h) && name == RelativeWildcard(RelativeName(h, cf + ".")))
    ensures Base(Absolute(name, cf)) == Base(h)
  {
    RelativeExact(h, cf);
    if name != RelativeName(h, cf + ".") {
      WildcardAbove(RelativeName(h, cf + "."), cf);
      BaseOfWildcard(h);
    }
  }

  lemma ChallengeInjective(a: string, b: string)
    requires CHALLENGE + "." + a == CHALLENGE + "." + b
    ensures a == b
  {
    var n := |CHALLENGE| + 1;
    assert (CHALLENGE + "." + a)[n..] == a && (CHALLENGE + "." + b)[n..] == b;
  }

  /** Two zones that share a Cloudflare zone address the same records. */
  predicate SameRecords(a: Zone, b: Zone) {
    a.cloudflareZone == b.cloudflareZone
  }

  /**
   After a release, no record the released hostname took belongs to a hostname that remains, and one at or
   below a remaining hostname's base belonged to the same machine.
   */
  lemma HostnameReleaseConfined(install: Install, t: Tables, tenant: string, project: string, machine: string, hostname: string,
                                z: Zone, zo: Zone, other: Hostname, r: Record)
    requires Inv(install, t) && ReleaseHostname(t, tenant, project, machine, hostname).1.Some?
    requires z in t.zones && z.name == ReleaseHostname(t, tenant, project, machine, hostname).1.value.zone
    requires other in ReleaseHostname(t, tenant, project, machine, hostname).0.hostnames
    requires zo in t.zones && zo.name == other.zone && SameRecords(z, zo)
    requires GoesWithHostname(ReleaseHostname(t, tenant, project, machine, hostname).1.value.hostname, LibdnsZone(z.cloudflareZone))(r)
    ensures !GoesWithHostname(other.hostname, LibdnsZone(zo.cloudflareZone))(r)
    ensures Under(Absolute(r.name, z.cloudflareZone), Base(other.hostname)) ==>
              SameMachine(other, TrimSpace(tenant), TrimSpace(project), TrimSpace(machine))
  {
    var h := ReleaseHostname(t, tenant, project, machine, hostname).1.value;
    ReleasedRow(t, tenant, project, machine, hostname, other);
    OthersKeepRecords(install, t, h, other, z, zo, r);
  }

  lemma ReleasedRow(t: Tables, tenant: string, project: string, machine: string, hostname: string, other: Hostname)
    requires ReleaseHostname(t, tenant, project, machine, hostname).1.Some?
    requires other in ReleaseHostname(t, tenant, project, machine, hostname).0.hostnames
    ensures var h := ReleaseHostname(t, tenant, project, machine, hostname).1.value;
            && h in t.hostnames && other in t.hostnames && other != h
            && SameMachine(h, TrimSpace(tenant), TrimSpace(project), TrimSpace(machine))
  {
    var kept := NotHostname(NormalizeMachineHostname(hostname).value);
    assert kept(other);
  }

  lemma OthersKeepRecords(install: Install, t: Tables, h: Hostname, other: Hostname, z: Zone, zo: Zone, r: Record)
    requires Inv(install, t) && h in t.hostnames && other in t.hostnames && h != other
    requires z in t.zones && h.zone == z.name && zo in t.zones && other.zone == zo.name && SameRecords(z, zo)
    requires GoesWithHostname(h.hostname, LibdnsZone(z.cloudflareZone))(r)
    ensures !GoesWithHostname(other.hostname, LibdnsZone(zo.cloudflareZone))(r)
    ensures Under(Absolute(r.name, z.cloudflareZone), Base(other.hostname)) ==>
              SameMachine(other, h.tenant, h.project, h.machine)
  {
    assert HostnameRowOk(t.zones, h) && HostnameRowOk(t.zones, other);
    assert MayCoexist(h, other);
    HostnameReleaseNames(t.zones, z, h, r);
    if Under(Absolute(r.name, z.cloudflareZone), Base(other.hostname)) {
      SuffixesComparable(Absolute(r.name, z.cloudflareZone), Base(h.hostname), Base(other.hostname));
    }
    if GoesWithHostname(other.hostname, LibdnsZone(zo.cloudflareZone))(r) {
      HostnameTakesBase(t.zones, z, h, r);
      HostnameTakesBase(t.zones, zo, other, r);
      if !r.A? {
        ChallengeInjective(Base(h.hostname), Base(other.hostname));
      }
      assert false;
    }
  }

  // ---------------------------------------------------------------- derived names

  /** The A records a machine's derived name wants. */
  predicate DerivedName(c: Claim, part: string, lz: string, name: string) {
    var rel := RelativeName(part + "." + c.domain, lz);
    name == rel || name == RelativeWildcard(rel)
  }

  /** The release of a hostname takes some A record of the derived name of machine `part`. */
  ghost predicate TakesDerived(h: Hostname, z: Zone, c: Claim, part: string) {
    exists r :: TakenDerived(h, z, c, part, r)
  }

  ghost predicate TakenDerived(h: Hostname, z: Zone, c: Claim, part: string, r: Record) {
    && r.A? && GoesWithHostname(h.hostname, LibdnsZone(z.cloudflareZone))(r)
    && DerivedName(c, part, LibdnsZone(z.cloudflareZone), r.name)
  }

  lemma DerivedBase(zones: seq<Zone>, z: Zone, c: Claim, part: string, name: string)
    requires ZonesOk(zones) && z in zones && ClaimRowOk(zones, c) && c.zone == z.name && ValidLabel(part)
    ensures Storable(part + "." + c.domain) && Under(part + "." + c.domain, z.cloudflareZone)
    ensures DerivedName(c, part, LibdnsZone(z.cloudflareZone), name) ==>
              Base(Absolute(name, z.cloudflareZone)) == part + "." + c.domain
  {
    var derived, cf := part + "." + c.domain, z.cloudflareZone;
    CloudflareZoneShape(zones, z);
    ValidNameBelow(part, c.domain);
    ValidNameFixed(derived);
    assert Base(derived) == derived;
    BelowIs(part, c.domain);
    UnderTransitive(derived, c.domain, z.name);
    UnderTransitive(derived, z.name, cf);
    if DerivedName(c, part, cf + ".", name) {
      AddressBase(derived, cf, name);
    }
  }

  /**
   Releasing an explicit hostname takes an A record of a machine's derived name exactly when its base is that
   name, whichever zones of the Cloudflare zone the two are recorded in; the machine belongs to the same
   project, and need not be the one that held the hostname.
   */
  lemma TakesDerivedIff(install: Install, t: Tables, h: Hostname, c: Claim, z: Zone, zc: Zone, part: string)
    requires Inv(install, t) && h in t.hostnames && c in t.claims
    requires z in t.zones && h.zone == z.name && zc in t.zones && c.zone == zc.name && SameRecords(z, zc)
    requires ValidLabel(part)
    ensures TakesDerived(h, z, c, part) <==> Base(h.hostname) == part + "." + c.domain
    ensures TakesDerived(h, z, c, part) ==> h.tenant == c.tenant && h.project == c.project && z == zc
  {
    assert ClaimRowOk(t.zones, c) && HostnameRowOk(t.zones, h);
    if TakesDerived(h, z, c, part) {
      var r :| TakenDerived(h, z, c, part, r);
      HostnameTakesBase(t.zones, z, h, r);
      DerivedBase(t.zones, zc, c, part, r.name);
    }
    if Base(h.hostname) == part + "." + c.domain {
      BelowIs(part, c.domain);
      assert InsideOwnDomain(h, c);
      SameZone(t.zones, z, zc, h, c, part);
      ExplicitAsDerived(t.zones, z, h, c, part);
    }
  }

  /** A hostname and a claim around one name record the one zone that covers it. */
  lemma SameZone(zones: seq<Zone>, z: Zone, zc: Zone, h: Hostname, c: Claim, part: string)
    requires ZonesOk(zones) && z in zones && zc in zones && HostnameRowOk(zones, h) && ClaimRowOk(zones, c)
    requires h.zone == z.name && c.zone == zc.name && Base(h.hostname) == part + "." + c.domain
    ensures z == zc
  {
    ValidNameNoStar(z.name);
    BaseUnder(h.hostname, z.name);
    BelowIs(part, c.domain);
    UnderTransitive(Base(h.hostname), c.domain, zc.name);
    OneCoveringZone(zones, Base(h.hostname), z, zc);
  }

  lemma ExplicitAsDerived(zones: seq<Zone>, z: Zone, h: Hostname, c: Claim, part: string)
    requires ZonesOk(zones) && z in zones && HostnameRowOk(zones, h) && h.zone == z.name
    requires ClaimRowOk(zones, c) && c.zone == z.name && ValidLabel(part) && Base(h.hostname) == part + "." + c.domain
    ensures TakesDerived(h, z, c, part)
  {
    var derived, cf := part + "." + c.domain, z.cloudflareZone;
    CloudflareZoneShape(zones, z);
    DerivedBase(zones, z, c, part, "");
    SpelledAs(h.hostname, derived, cf);
    var name := RelativeName(h.hostname, cf + ".");
    assert DerivedName(c, part, LibdnsZone(cf), name);
    assert GoesWithHostname(h.hostname, LibdnsZone(cf))(A(name, 0));
    assert TakenDerived(h, z, c, part, A(name, 0));
  }

  /** A hostname with a given base is that base or its wildcard. */
  lemma SpelledAs(h: string, b: string, cf: string)
    requires Storable(b) && Under(b, cf) && cf != "" && cf[|cf| - 1] != '.' && Base(h) == b
    ensures var rel, name := RelativeName(b, cf + "."), RelativeName(h, cf + ".");
            name == rel || name == RelativeWildcard(rel)
  {
    if h != b {
      assert h == WILDCARD + b;
      RelativeExact(b, cf);
      var rel := RelativeName(b, cf + ".");
      RelativeNotEmpty(b, cf + ".");
      WildcardRelative(rel, cf);
    }
  }

  lemma RelativeNotEmpty(fqdn: string, zone: string)
    ensures RelativeName(fqdn, zone) != ""
  {}

  /** A running machine's derived names are wanted by its zone's pass. */
  lemma DerivedWanted(t: Tables, z: Zone, machines: seq<Machine>, m: Machine, c: Claim, name: string)
    requires m in machines && Derives(t, m, c) && m.addr.Some? && c.zone == z.name
    requires DerivedName(c, Lower(m.name), LibdnsZone(z.cloudflareZone), name)
    requires !IsWildcard(Lower(m.name) + "." + c.domain)
    ensures name in PlanFor(t, z, FleetTargets(machines, t)).want
  {
    var x := DerivedTarget(machines, t, m, c);
    var inZone := InZone(z.name);
    assert inZone(x);
    AskedIsWanted(LibdnsZone(z.cloudflareZone), Filter(FleetTargets(machines, t), inZone), x, name);
  }

  /**
   The failing family: releasing an explicit hostname that is a running machine's derived name takes a record
   the next pass over the remaining tables wants again.
   */
  lemma ReleaseTakesWanted(install: Install, t: Tables, h: Hostname, c: Claim, z: Zone, machines: seq<Machine>, m: Machine) returns (r: Record)
    requires Inv(install, t) && h in t.hostnames && c in t.claims && z in t.zones && h.zone == z.name && c.zone == z.name
    requires m in machines && Derives(t, m, c) && m.addr.Some? && ValidLabel(Lower(m.name))
    requires Base(h.hostname) == Lower(m.name) + "." + c.domain
    ensures GoesWithHostname(h.hostname, LibdnsZone(z.cloudflareZone))(r) && r.A?
    ensures var after := t.(hostnames := Filter(t.hostnames, NotHostname(h.hostname)));
            r.name in PlanFor(after, z, FleetTargets(machines, after)).want
  {
    var after := t.(hostnames := Filter(t.hostnames, NotHostname(h.hostname)));
    TakesDerivedIff(install, t, h, c, z, z, Lower(m.name));
    r :| TakenDerived(h, z, c, Lower(m.name), r);
    assert ClaimRowOk(t.zones, c);
    ValidNameBelow(Lower(m.name), c.domain);
    ValidNameFixed(Lower(m.name) + "." + c.domain);
    DerivedWanted(after, z, machines, m, c, r.name);
  }

  /** Concretely: machine n holds m.a.z.de in a project with domain a.z.de, and its release takes machine m's record. */
  lemma OtherMachineExample()
    ensures Inv(Install("", ""), Borrowing()) && TakesDerived(BORROWED, ZONE_ROW, Held("a.z.de"), "m")
  {
    BorrowingOk();
    ExampleHostnameNames();
    ValidNameFixed("m.a.z.de");
    var t := Borrowing();
    assert ZONE_ROW in t.zones && Held("a.z.de") in t.claims && BORROWED in t.hostnames;
    TakesDerivedIff(Install("", ""), t, BORROWED, Held("a.z.de"), ZONE_ROW, ZONE_ROW, "m");
  }
}
