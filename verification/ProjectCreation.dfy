/**
 Creating a project with a domain: claim, create in Incus, and on a failed creation release the claim.
 Unlike set-domain, a replaced claim is not put back.
 */
module ProjectCreation {
  import opened Text
  import opened Names
  import opened Registry
  import opened RegistryInvariant
  import opened RegistryTheorems
  import opened ExampleRegistry

  /** `projectCreateWithDomain`, as far as the tables go. */
  function CreateProject(install: Install, t: Tables, req: DomainRequest, now: int, incusOk: bool): (Tables, DomainOutcome) {
    var (t1, outcome) := ClaimDomain(install, t, req, now);
    if !outcome.Claimed? || req.dryRun || incusOk then (t1, outcome)
    else (ReleaseDomain(t1, req.tenant, req.project).0, outcome)
  }

  /** With the project created, the claim stands as it was made; the answer is the claim's either way. */
  lemma CreateProjectStands(install: Install, t: Tables, req: DomainRequest, now: int, incusOk: bool)
    ensures CreateProject(install, t, req, now, incusOk).1 == ClaimDomain(install, t, req, now).1
    ensures incusOk ==> CreateProject(install, t, req, now, incusOk).0 == ClaimDomain(install, t, req, now).0
  {}

  /** The project has no claim yet. */
  ghost predicate Unclaimed(t: Tables, tenant: string, project: string) {
    forall c :: c in t.claims ==> !(c.tenant == tenant && c.project == project)
  }

  /** A failed creation leaves every claim but the project's own. */
  lemma FailedCreationLeaves(install: Install, t: Tables, req: DomainRequest, now: int) returns (others: seq<Claim>)
    requires Inv(install, t) && ClaimDomain(install, t, req, now).1.Claimed? && !req.dryRun
    ensures CreateProject(install, t, req, now, false).0 == t.(claims := others)
    ensures forall c :: c in others <==> c in t.claims && !(c.tenant == TrimSpace(req.tenant) && c.project == TrimSpace(req.project))
    ensures Unclaimed(t, TrimSpace(req.tenant), TrimSpace(req.project)) ==> others == t.claims
  {
    ClaimedRow(install, t, req, now);
    var claim := ClaimDomain(install, t, req, now).1.claim;
    others := ClaimedTables(install, t, claim);
    ReleaseUndoesInsert(t.(claims := Insert(others, claim, ClaimKey)), others, claim, req.tenant, req.project);
  }

  /** The tables after an accepted claim: every other project's claims and the new one. */
  lemma ClaimedTables(install: Install, t: Tables, claim: Claim) returns (others: seq<Claim>)
    requires Inv(install, t) && ClaimRowOk(t.zones, claim) && AdmitDomain(install, t, claim, false).1.Claimed?
    ensures AdmitDomain(install, t, claim, false).0 == t.(claims := Insert(others, claim, ClaimKey))
    ensures AdmitDomain(install, t, claim, false).1.previous == First(t.claims, OwnedBy(claim.tenant, claim.project))
    ensures KeyOrdered(others, ClaimKey) && KeyOrdered(Insert(others, claim, ClaimKey), ClaimKey)
    ensures forall c :: c in others <==> c in t.claims && !(c.tenant == claim.tenant && c.project == claim.project)
    ensures Unclaimed(t, claim.tenant, claim.project) ==> others == t.claims
  {
    AdmittedClaimIs(install, t, claim, false);
    DomainScanExact(install, t, claim.domain, claim.tenant, claim.project);
    others := OtherClaims(install, t, claim);
    NewClaimKeeps(install, t, others, claim);
    AdmittedDomain(install, t, claim, others, false);
  }

  /**
   A creation that fails in Incus leaves the tables exactly as they were iff the claim was not made or the
   project had no claim before it.
   */
  lemma CreateProjectRollsBackIff(install: Install, t: Tables, req: DomainRequest, now: int)
    requires Inv(install, t)
    ensures CreateProject(install, t, req, now, false).0 == t <==>
            || !ClaimDomain(install, t, req, now).1.Claimed? || req.dryRun
            || Unclaimed(t, TrimSpace(req.tenant), TrimSpace(req.project))
  {
    if ClaimDomain(install, t, req, now).1.Claimed? && !req.dryRun {
      var others := FailedCreationLeaves(install, t, req, now);
    }
  }

  // ---------------------------------------------------------------- concrete failures

  /** A request of project p of tenant t. */
  function Asks(domain: string): DomainRequest {
    DomainRequest(domain, "t", "p", "", false)
  }

  lemma ReplacementClaimed(before: string, after: string)
    requires Claimable(before) && Claimable(after) && before != after
    ensures ClaimDomain(Install("", ""), OneClaim(before), Asks(after), 0).1.Claimed?
  {
    OneClaimOk(before);
    NormalizeNameFixed(after);
    OwnersFixed();
    OtherDomainFree(before, after);
    DomainVerdict(Install("", ""), OneClaim(before), Asks(after), 0);
  }

  /** The project that holds one domain may replace it by any other. */
  lemma ReplacementAccepted(before: string, after: string)
    requires Claimable(before) && Claimable(after) && before != after
    ensures var (t', outcome) := ClaimDomain(Install("", ""), OneClaim(before), Asks(after), 0);
            && outcome.Claimed? && outcome.claim.domain == after && outcome.claim.zone == "z.de"
            && outcome.previous == Some(Held(before))
            && t' == OneClaim(before).(claims := [outcome.claim])
  {
    OneClaimOk(before);
    ReplacementClaimed(before, after);
    ClaimedRow(Install("", ""), OneClaim(before), Asks(after), 0);
    OwnersFixed();
    NormalizeNameFixed(after);
    ReplacedTables(before, after, ClaimDomain(Install("", ""), OneClaim(before), Asks(after), 0).1.claim);
  }

  lemma ReplacedTables(before: string, after: string, claim: Claim)
    requires Claimable(before) && claim.domain == after && claim.tenant == "t" && claim.project == "p"
    requires ClaimRowOk([ZONE_ROW], claim) && AdmitDomain(Install("", ""), OneClaim(before), claim, false).1.Claimed?
    ensures claim.zone == "z.de"
    ensures AdmitDomain(Install("", ""), OneClaim(before), claim, false).0 == OneClaim(before).(claims := [claim])
    ensures AdmitDomain(Install("", ""), OneClaim(before), claim, false).1.previous == Some(Held(before))
  {
    OneClaimOk(before);
    var others := ClaimedTables(Install("", ""), OneClaim(before), claim);
    HasMember(others);
    var owned := OwnedBy("t", "p");
    assert owned(Held(before)) && Held(before) in OneClaim(before).claims;
  }

  /** The failing family: a claim left over under the project's name is lost when the creation fails. */
  lemma CreateProjectLosesClaim(before: string, after: string)
    requires Claimable(before) && Claimable(after) && before != after
    ensures Inv(Install("", ""), OneClaim(before))
    ensures CreateProject(Install("", ""), OneClaim(before), Asks(after), 0, false).0 == OneClaim(before).(claims := [])
  {
    OneClaimOk(before);
    ReplacementClaimed(before, after);
    OwnersFixed();
    var others := FailedCreationLeaves(Install("", ""), OneClaim(before), Asks(after), 0);
    HasMember(others);
  }

  /** Concretely: b.z.de is left over, a.z.de is asked for, and neither remains. */
  lemma CreateProjectLosesOrphan()
    ensures Claimable("a.z.de") && Claimable("b.z.de")
    ensures CreateProject(Install("", ""), OneClaim("b.z.de"), Asks("a.z.de"), 0, false).0.claims == []
  {
    ExampleDomain("a");
    ExampleDomain("b");
    assert "a" + ".z.de" == "a.z.de" && "b" + ".z.de" == "b.z.de";
    CreateProjectLosesClaim("b.z.de", "a.z.de");
  }
}
