/** Small registries for concrete inputs: one zone, at most one claim, and names below it. */
module ExampleRegistry {
  import opened Text
  import opened Names
  import opened Registry
  import opened RegistryInvariant
  import opened RegistryTheorems

  const ZONE_ROW := Zone("z.de", "z.de")

  function Held(domain: string): Claim {
    Claim(domain, "t", "p", "z.de", "", 0)
  }

  function OneClaim(domain: string): Tables {
    Tables([ZONE_ROW], [Held(domain)], [], [])
  }

  predicate Claimable(domain: string) {
    ValidName(domain) && StrictlyUnder(domain, "z.de") && |domain| <= PROJECT_DOMAIN_MAX_LENGTH
  }

  lemma OneClaimOk(domain: string)
    requires Claimable(domain)
    ensures Inv(Install("", ""), OneClaim(domain))
  {
    ZoneNameOk();
    assert ZONE_ROW in OneClaim(domain).zones;
    assert Registered([ZONE_ROW], "z.de");
    assert ClaimRowOk([ZONE_ROW], Held(domain));
    assert NormalizeHostname("") == "";
  }

  lemma ZoneNameOk()
    ensures ValidName("z.de")
  {
    SplitPart("de", '.');
    ValidNameBelow("z", "de");
    assert "z" + "." + "de" == "z.de";
  }

  lemma OwnersFixed()
    ensures TrimSpace("t") == "t" && TrimSpace("p") == "p" && TrimSpace("") == ""
  {}

  lemma OtherDomainFree(before: string, after: string)
    ensures DomainFree(Install("", ""), OneClaim(before), after, "t", "p")
    ensures StrictlyUnder(after, "z.de") ==> StrictlyCovered(OneClaim(before).zones, after)
  {
    assert NormalizeHostname("") == "";
    assert ZONE_ROW in OneClaim(before).zones;
  }

  lemma ExampleDomain(part: string)
    requires ValidLabel(part) && |part| < 10
    ensures Claimable(part + ".z.de")
  {
    ZoneNameOk();
    ValidNameBelow(part, "z.de");
    assert part + "." + "z.de" == part + ".z.de";
    BelowIs(part, "z.de");
  }

  lemma ChildClaimable()
    ensures Claimable("a.z.de") && Claimable("x.a.z.de")
  {
    ExampleDomain("a");
    assert "a" + ".z.de" == "a.z.de" && "x" + "." + "a.z.de" == "x.a.z.de";
    ClaimableBelow("x", "a.z.de");
  }

  lemma ClaimableBelow(part: string, domain: string)
    requires ValidLabel(part) && Claimable(domain) && |part| + 1 + |domain| <= PROJECT_DOMAIN_MAX_LENGTH
    ensures Claimable(part + "." + domain)
  {
    ValidNameBelow(part, domain);
    BelowIs(part, domain);
    UnderTransitive(part + "." + domain, domain, "z.de");
  }

  /** A name below a project's own domain is free for every machine it is not derived from. */
  lemma BelowOwnDomainFree(domain: string, h: Hostname)
    requires Claimable(domain) && ValidName(h.hostname) && StrictlyUnder(h.hostname, domain)
    requires h.tenant == "t" && h.project == "p" && h.zone == "z.de" && h.hostname != h.machine + "." + domain
    ensures HostnameRowOk([ZONE_ROW], h) && HostnameFree(Install("", ""), OneClaim(domain), h)
    ensures Base(h.hostname) == h.hostname
  {
    ValidNameFixed(h.hostname);
    UnderTransitive(h.hostname, domain, "z.de");
    assert ZONE_ROW in [ZONE_ROW];
    assert NormalizeHostname("") == "";
  }

  lemma ExampleHostnameNames()
    ensures ValidName("m.a.z.de") && StrictlyUnder("m.a.z.de", "a.z.de")
    ensures "m" + "." + "a.z.de" == "m.a.z.de" && "m.a.z.de" != "n" + "." + "a.z.de"
  {
    ChildClaimable();
    assert "m" + "." + "a.z.de" == "m.a.z.de";
    ValidNameBelow("m", "a.z.de");
    BelowIs("m", "a.z.de");
    assert ("n" + "." + "a.z.de")[0] == 'n';
  }

  /** Machine n holds the name machine m derives in a project with domain a.z.de. */
  const BORROWED := Hostname("m.a.z.de", "t", "p", "n", "z.de", "", 0)

  function Borrowing(): Tables {
    OneClaim("a.z.de").(hostnames := [BORROWED])
  }

  lemma BorrowingOk()
    ensures Inv(Install("", ""), Borrowing())
  {
    ChildClaimable();
    OneClaimOk("a.z.de");
    ExampleHostnameNames();
    BelowOwnDomainFree("a.z.de", BORROWED);
    NewHostnameKeeps(Install("", ""), OneClaim("a.z.de"), BORROWED);
    assert Insert([], BORROWED, HostnameKey) == [BORROWED];
  }

  // ---------------------------------------------------------------- a failed coverage lookup

  const ONLY_ZONE := Tables([ZONE_ROW], [], [], [])

  function AsksHostname(name: string): HostnameRequest {
    HostnameRequest(name, "t", "p", "m", "", false)
  }

  /** The coverage lookup fails; nothing after it runs. */
  const LOOKUP_FAILS := AddWrites(false, false, true, false, true)

  lemma OnlyZoneOk()
    ensures Inv(Install("", ""), ONLY_ZONE)
  {
    ZoneNameOk();
    assert NormalizeHostname("") == "";
  }

  lemma OnlyZoneCovers(name: string)
    requires StrictlyUnder(name, "z.de")
    ensures CoveringZone(name, ONLY_ZONE.zones) == "z.de"
  {
    assert ONLY_ZONE.zones[..0] == [];
  }

  lemma OnlyZoneFree(row: Hostname)
    ensures HostnameFree(Install("", ""), ONLY_ZONE, row)
  {
    assert NormalizeHostname("") == "";
  }

  /** Every well-formed name below the zone is accepted there. */
  lemma OnlyZoneAccepts(name: string)
    requires ValidName(name) && StrictlyUnder(name, "z.de") && |name| <= MACHINE_HOSTNAME_MAX_LENGTH
    ensures ClaimHostname(Install("", ""), ONLY_ZONE, AsksHostname(name), None, 0).1.HostnameClaimed?
  {
    OnlyZoneOk();
    ValidNameFixed(name);
    assert Base(name) == name;
    NormalizeMachineHostnameFixed(name);
    OwnersFixed();
    assert TrimSpace("m") == "m";
    OnlyZoneCovers(name);
    OnlyZoneFree(HostnameRow(ONLY_ZONE, AsksHostname(name), 0));
    HostnameVerdict(Install("", ""), ONLY_ZONE, AsksHostname(name), None, 0);
  }

  /** The failing family: the add answers an error and keeps the reservation it made. */
  lemma LookupErrorKeepsReservation(name: string)
    requires ValidName(name) && StrictlyUnder(name, "z.de") && |name| <= MACHINE_HOSTNAME_MAX_LENGTH
    ensures AddHostname(Install("", ""), ONLY_ZONE, AsksHostname(name), None, 0, LOOKUP_FAILS).0 != ONLY_ZONE
  {
    OnlyZoneOk();
    OnlyZoneAccepts(name);
    AddHostnameRollsBack(Install("", ""), ONLY_ZONE, AsksHostname(name), None, 0, LOOKUP_FAILS);
  }

  /** Concretely: m.z.de stays reserved. */
  lemma LookupErrorExample()
    ensures AddHostname(Install("", ""), ONLY_ZONE, AsksHostname("m.z.de"), None, 0, LOOKUP_FAILS).0 != ONLY_ZONE
  {
    ExampleDomain("m");
    assert "m" + ".z.de" == "m.z.de";
    LookupErrorKeepsReservation("m.z.de");
  }
}
