/** Which certificate rows a released or replaced Project Domain drops, in terms of the claim and hostname tables. */
module CertificateReleases {
  import opened Text
  import opened Names
  import opened Registry
  import opened RegistryInvariant
  import opened RegistryTheorems
  import opened ProjectCreation
  import opened ExampleRegistry
  import Certificates

  /** A release takes exactly the rows at or below the domain. */
  lemma ReleaseDropsIff(rows: Certificates.Rows, domain: string, h: string)
    requires ValidName(domain)
    ensures h in Certificates.Released(rows, domain) <==> h in rows && !Under(h, domain)
  {
    ValidNameShape(domain);
    ValidNameFixed(domain);
    TrimDotsFixed(domain);
  }

  /** A hostname lies under a well-formed domain exactly when its base does. */
  lemma BaseUnderIff(h: string, domain: string)
    requires '*' !in domain
    ensures Under(h, domain) <==> Under(Base(h), domain)
  {
    HostUnderBase(h);
    if Under(h, domain) {
      BaseUnder(h, domain);
    }
    if Under(Base(h), domain) {
      UnderTransitive(h, Base(h), domain);
    }
  }

  /** The row of a remaining hostname is dropped exactly when the hostname lies below the released domain. */
  lemma HostnameRowDroppedIff(install: Install, t: Tables, c: Claim, h: Hostname, rows: Certificates.Rows)
    requires Inv(install, t) && c in t.claims && h in t.hostnames && h.hostname in rows
    ensures h.hostname !in Certificates.Released(rows, c.domain) <==> StrictlyUnder(Base(h.hostname), c.domain)
    ensures h.hostname !in Certificates.Released(rows, c.domain) ==> h.tenant == c.tenant && h.project == c.project
  {
    assert ClaimRowOk(t.zones, c);
    assert InsideOwnDomain(h, c);
    ValidNameFixed(c.domain);
    ReleaseDropsIff(rows, c.domain, h.hostname);
    BaseUnderIff(h.hostname, c.domain);
  }

  /** After a plain release the remaining hostnames lose exactly the rows below the released domain. */
  lemma ReleaseDropsHostnameRows(install: Install, t: Tables, tenant: string, project: string, h: Hostname, rows: Certificates.Rows)
    requires Inv(install, t) && ReleaseDomain(t, tenant, project).1.Some?
    requires h in ReleaseDomain(t, tenant, project).0.hostnames && h.hostname in rows
    ensures var c := ReleaseDomain(t, tenant, project).1.value;
            h.hostname !in Certificates.Released(rows, c.domain) <==> StrictlyUnder(Base(h.hostname), c.domain)
  {
    HostnameRowDroppedIff(install, t, ReleaseDomain(t, tenant, project).1.value, h, rows);
  }

  /**
   After a set-domain, the cleanup of the replaced domain drops a row at or below the new domain exactly when it is
   also at or below the replaced one: every such row if the new domain lies below the old, none if they are unrelated.
   */
  lemma ReplacementDropsRows(install: Install, t: Tables, req: DomainRequest, now: int, rows: Certificates.Rows, k: string)
    requires Inv(install, t) && !req.dryRun
    requires ClaimDomain(install, t, req, now).1.Claimed? && ClaimDomain(install, t, req, now).1.previous.Some?
    requires k in rows && Under(k, ClaimDomain(install, t, req, now).1.claim.domain)
    ensures var outcome := ClaimDomain(install, t, req, now).1;
            var before, after := outcome.previous.value.domain, outcome.claim.domain;
            && (k !in Certificates.Released(rows, before) <==> Under(k, before))
            && (StrictlyUnder(after, before) ==> k !in Certificates.Released(rows, before))
            && (!Related(after, before) ==> k in Certificates.Released(rows, before))
  {
    ClaimedRow(install, t, req, now);
    var outcome := ClaimDomain(install, t, req, now).1;
    var others := ClaimedTables(install, t, outcome.claim);
    var owned := OwnedBy(outcome.claim.tenant, outcome.claim.project);
    assert outcome.previous.value in t.claims;
    assert ClaimRowOk(t.zones, outcome.previous.value);
    ReleaseDropsIff(rows, outcome.previous.value.domain, k);
    if StrictlyUnder(outcome.claim.domain, outcome.previous.value.domain) {
      UnderTransitive(k, outcome.claim.domain, outcome.previous.value.domain);
    }
    if Under(k, outcome.previous.value.domain) {
      SuffixesComparable(k, outcome.claim.domain, outcome.previous.value.domain);
    }
  }

  /** The failing family: a project moves to a domain below its own, and the new domain's own row goes. */
  lemma MovedBelowDropsOwnRow(before: string, after: string, rows: Certificates.Rows)
    requires Claimable(before) && Claimable(after) && StrictlyUnder(after, before) && after in rows
    ensures ClaimDomain(Install("", ""), OneClaim(before), Asks(after), 0).1.Claimed?
    ensures after !in Certificates.Released(rows, before)
  {
    ReplacementClaimed(before, after);
    ReleaseDropsIff(rows, before, after);
  }

  lemma BelowExample()
    ensures Claimable("a.z.de") && Claimable("x.a.z.de") && StrictlyUnder("x.a.z.de", "a.z.de")
  {
    ChildClaimable();
    ExampleNames();
  }

  /** Concretely: a.z.de is replaced by x.a.z.de. */
  lemma ReplacementDropsExample(rows: Certificates.Rows)
    requires "x.a.z.de" in rows
    ensures ClaimDomain(Install("", ""), OneClaim("a.z.de"), Asks("x.a.z.de"), 0).1.Claimed?
    ensures "x.a.z.de" !in Certificates.Released(rows, "a.z.de")
  {
    BelowExample();
    MovedBelowDropsOwnRow("a.z.de", "x.a.z.de", rows);
  }
}
