/**
 What the invariant buys: exact verdicts of the two claim calls, dry runs that agree with real claims,
 and compensations that put the tables back.
 */
module RegistryTheorems {
  import opened Text
  import opened Names
  import opened Registry
  import opened RegistryInvariant

  // ---------------------------------------------------------------- verdicts

  /** The one registered zone strictly above a name, if the name may be claimed below it. */
  ghost predicate StrictlyCovered(zones: seq<Zone>, name: string) {
    exists z :: z in zones && StrictlyUnder(name, z.name)
  }

  /** A Project Domain is accepted exactly when it is well formed, covered, short enough, free and new. */
  lemma DomainVerdict(install: Install, t: Tables, req: DomainRequest, now: int)
    requires Inv(install, t)
    ensures ClaimDomain(install, t, req, now).1.Claimed? <==>
            && NormalizeName(req.domain).Some?
            && TrimSpace(req.tenant) != "" && TrimSpace(req.project) != ""
            && StrictlyCovered(t.zones, NormalizeName(req.domain).value)
            && |NormalizeName(req.domain).value| <= PROJECT_DOMAIN_MAX_LENGTH
            && DomainFree(install, t, NormalizeName(req.domain).value, TrimSpace(req.tenant), TrimSpace(req.project))
            && forall c :: c in t.claims && c.tenant == TrimSpace(req.tenant) && c.project == TrimSpace(req.project)
                 ==> c.domain != NormalizeName(req.domain).value
  {
    if NormalizeName(req.domain).Some? {
      var norm := NormalizeName(req.domain).value;
      var tenant, project := TrimSpace(req.tenant), TrimSpace(req.project);
      DomainCovered(t.zones, norm);
      if tenant != "" && project != "" && ValidateProjectDomain(norm, t.zones).None? {
        ValidDomainRow(install, t, norm);
        AdmittedVerdict(install, t,
          Claim(norm, tenant, project, CoveringZone(norm, t.zones), TrimSpace(req.userKey), now), req.dryRun);
      }
    }
  }

  lemma DomainCovered(zones: seq<Zone>, norm: string)
    requires ZonesOk(zones) && ValidName(norm)
    ensures ValidateProjectDomain(norm, zones).None? <==>
            StrictlyCovered(zones, norm) && |norm| <= PROJECT_DOMAIN_MAX_LENGTH
  {
    ZoneNamesNonEmpty(zones);
    CoveringZoneAnyOrder(norm, zones, zones);
    CoveringZoneCovers(norm, zones);
    if StrictlyCovered(zones, norm) {
      var z :| z in zones && StrictlyUnder(norm, z.name);
      assert CoveringZone(norm, zones) == z.name;
    }
  }

  lemma AdmittedVerdict(install: Install, t: Tables, claim: Claim, dryRun: bool)
    requires Inv(install, t) && ClaimRowOk(t.zones, claim)
    ensures AdmitDomain(install, t, claim, dryRun).1.Claimed? <==>
            && DomainFree(install, t, claim.domain, claim.tenant, claim.project)
            && forall c :: c in t.claims && c.tenant == claim.tenant && c.project == claim.project ==> c.domain != claim.domain
  {
    DomainScanExact(install, t, claim.domain, claim.tenant, claim.project);
    var owned := OwnedBy(claim.tenant, claim.project);
    var previous := First(t.claims, owned);
    if previous.Some? {
      forall c | c in t.claims && owned(c) ensures c == previous.value {}
    } else {
      assert forall c :: c in t.claims ==> !owned(c);
    }
    if DomainFree(install, t, claim.domain, claim.tenant, claim.project) {
      var others := OtherClaims(install, t, claim);
      NewClaimKeeps(install, t, others, claim);
      AdmittedDomain(install, t, claim, others, dryRun);
    }
  }

  /** A machine hostname is accepted exactly when no tunnel publishes it and it is well formed, covered, free and not held yet. */
  lemma HostnameVerdict(install: Install, t: Tables, req: HostnameRequest, tunnel: Option<string>, now: int)
    requires Inv(install, t)
    ensures ClaimHostname(install, t, req, tunnel, now).1.HostnameClaimed? <==>
            && NormalizeMachineHostname(req.hostname).Some?
            && TrimSpace(req.tenant) != "" && TrimSpace(req.project) != "" && TrimSpace(req.machine) != ""
            && CoveringZone(NormalizeMachineHostname(req.hostname).value, t.zones) != ""
            && |NormalizeMachineHostname(req.hostname).value| <= MACHINE_HOSTNAME_MAX_LENGTH
            && tunnel.None?
            && HostnameFree(install, t, HostnameRow(t, req, now))
  {
    ClaimHostnameIs(install, t, req, tunnel, now);
    if NormalizeMachineHostname(req.hostname).Some? && tunnel.None? {
      AdmittedHostname(install, t, HostnameRow(t, req, now), req.dryRun);
    }
  }

  /** The checks before the lock, and the locked part. */
  lemma ClaimHostnameIs(install: Install, t: Tables, req: HostnameRequest, tunnel: Option<string>, now: int)
    ensures ClaimHostname(install, t, req, tunnel, now).1.HostnameClaimed? <==>
            && NormalizeMachineHostname(req.hostname).Some?
            && TrimSpace(req.tenant) != "" && TrimSpace(req.project) != "" && TrimSpace(req.machine) != ""
            && CoveringZone(NormalizeMachineHostname(req.hostname).value, t.zones) != ""
            && |NormalizeMachineHostname(req.hostname).value| <= MACHINE_HOSTNAME_MAX_LENGTH
            && AdmitHostname(install, t, HostnameRow(t, req, now), tunnel, req.dryRun).1.HostnameClaimed?
  {}

  lemma AdmittedHostname(install: Install, t: Tables, row: Hostname, dryRun: bool)
    requires Inv(install, t)
    ensures var (t', outcome) := AdmitHostname(install, t, row, None, dryRun);
            && (outcome.HostnameClaimed? <==> HostnameFree(install, t, row))
            && (outcome.HostnameClaimed? ==>
                  outcome.row == row &&
                  t' == if dryRun then t else t.(hostnames := Insert(t.hostnames, row, HostnameKey)))
  {
    var held := HeldAs(row.hostname, row.tenant, row.project, row.machine);
    var derives := DerivesName(row.hostname, row.tenant, row.project, row.machine);
    if First(t.hostnames, held).Some? {
      var h := First(t.hostnames, held).value;
      assert !MayCoexist(row, h);
    } else if First(t.claims, derives).Some? {
      var c := First(t.claims, derives).value;
      assert !InsideOwnDomain(row, c);
    } else {
      HostnameScanExact(install, t, row);
      if HostnameFree(install, t, row) {
        forall h | h in t.hostnames ensures h.hostname != row.hostname {
          assert MayCoexist(row, h);
        }
      }
    }
  }

  // ---------------------------------------------------------------- the containing Cloudflare zone

  ghost predicate ContainsZone(v: CloudflareZone, zone: string) {
    FoldName(v.name) != "" && Under(zone, FoldName(v.name))
  }

  /** `v` contains the zone and no visible zone that does has a longer name. */
  ghost predicate LongestFor(zone: string, visible: seq<CloudflareZone>, v: CloudflareZone) {
    v in visible && ContainsZone(v, zone)
    && forall u :: u in visible && ContainsZone(u, zone) ==> |FoldName(u.name)| <= |FoldName(v.name)|
  }

  ghost predicate FoldedFrom(c: CloudflareZone, zone: string, visible: seq<CloudflareZone>) {
    exists v :: LongestFor(zone, visible, v) && c == v.(name := FoldName(v.name))
  }

  lemma {:induction false} LongestNone(zone: string, visible: seq<CloudflareZone>)
    ensures LongestContaining(zone, visible) == [] <==> forall u :: u in visible ==> !ContainsZone(u, zone)
  {
    if visible != [] {
      var front, last := visible[..|visible| - 1], visible[|visible| - 1];
      assert visible == front + [last];
      LongestNone(zone, front);
      if ContainsZone(last, zone) {
        assert last in visible;
        LongestTakes(zone, front, last);
      } else {
        assert LongestContaining(zone, visible) == LongestContaining(zone, front);
      }
    }
  }

  lemma LongestTakes(zone: string, front: seq<CloudflareZone>, last: CloudflareZone)
    requires ContainsZone(last, zone)
    ensures LongestContaining(zone, front + [last]) != []
  {
    assert (front + [last])[..|front|] == front;
  }

  /** The candidates kept are exactly the longest containing zones, under their folded names. */
  lemma {:induction false} LongestExact(zone: string, visible: seq<CloudflareZone>, c: CloudflareZone)
    ensures c in LongestContaining(zone, visible) <==> FoldedFrom(c, zone, visible)
  {
    if visible != [] {
      var front, last := visible[..|visible| - 1], visible[|visible| - 1];
      assert visible == front + [last];
      var best := LongestContaining(zone, front);
      LongestNone(zone, front);
      if best == [] {
        LongestFirst(zone, front, last, c);
      } else {
        LongestExact(zone, front, c);
        LongestExact(zone, front, best[0]);
        var head :| LongestFor(zone, front, head) && best[0] == head.(name := FoldName(head.name));
        LongestStep(zone, front, last, head, c);
      }
    }
  }

  lemma LongestFirst(zone: string, front: seq<CloudflareZone>, last: CloudflareZone, c: CloudflareZone)
    requires forall u :: u in front ==> !ContainsZone(u, zone)
    ensures FoldedFrom(c, zone, front + [last]) <==> ContainsZone(last, zone) && c == last.(name := FoldName(last.name))
  {
    assert forall u :: u in front + [last] <==> u in front || u == last;
    assert ContainsZone(last, zone) ==> LongestFor(zone, front + [last], last);
  }

  /** What one more visible zone changes, by how its name compares with the longest so far. */
  lemma LongestStep(zone: string, front: seq<CloudflareZone>, last: CloudflareZone, head: CloudflareZone, c: CloudflareZone)
    requires LongestFor(zone, front, head)
    ensures var n, m := |FoldName(last.name)|, |FoldName(head.name)|;
            FoldedFrom(c, zone, front + [last]) <==>
            if !ContainsZone(last, zone) || n < m then FoldedFrom(c, zone, front)
            else if n > m then c == last.(name := FoldName(last.name))
            else FoldedFrom(c, zone, front) || c == last.(name := FoldName(last.name))
  {
    var all := front + [last];
    assert forall u :: u in all <==> u in front || u == last;
    forall v ensures LongestFor(zone, all, v) <==>
      if !ContainsZone(last, zone) || |FoldName(last.name)| < |FoldName(head.name)| then LongestFor(zone, front, v)
      else if |FoldName(last.name)| > |FoldName(head.name)| then v == last
      else LongestFor(zone, front, v) || v == last {}
  }

  /** Position `i` holds a visible zone that contains the new one, and none that does has a longer name. */
  ghost predicate LongestAt(zone: string, visible: seq<CloudflareZone>, i: int) {
    0 <= i < |visible| && LongestFor(zone, visible, visible[i])
  }

  lemma LongestAtFirst(zone: string, front: seq<CloudflareZone>, last: CloudflareZone, i: int)
    requires forall u :: u in front ==> !ContainsZone(u, zone)
    ensures LongestAt(zone, front + [last], i) <==> i == |front| && ContainsZone(last, zone)
  {
    assert forall u :: u in front + [last] <==> u in front || u == last;
    assert 0 <= i < |front| ==> (front + [last])[i] == front[i] && front[i] in front;
  }

  lemma LongestAtSnoc(zone: string, front: seq<CloudflareZone>, last: CloudflareZone, head: CloudflareZone, i: int)
    requires LongestFor(zone, front, head)
    ensures var n, m := |FoldName(last.name)|, |FoldName(head.name)|;
            LongestAt(zone, front + [last], i) <==>
            if !ContainsZone(last, zone) || n < m then LongestAt(zone, front, i)
            else if n > m then i == |front|
            else LongestAt(zone, front, i) || i == |front|
  {
    var all := front + [last];
    assert forall u :: u in all <==> u in front || u == last;
    assert 0 <= i < |front| ==> all[i] == front[i] && front[i] in front;
  }

  /** As many candidates are kept as positions hold a longest containing zone: none, one, or several. */
  lemma {:induction false} LongestPositions(zone: string, visible: seq<CloudflareZone>)
    ensures LongestContaining(zone, visible) != [] <==> exists i :: LongestAt(zone, visible, i)
    ensures |LongestContaining(zone, visible)| > 1 <==>
            exists i, j :: i < j && LongestAt(zone, visible, i) && LongestAt(zone, visible, j)
  {
    if visible != [] {
      var front, last := visible[..|visible| - 1], visible[|visible| - 1];
      assert visible == front + [last];
      var best := LongestContaining(zone, front);
      LongestNone(zone, front);
      LongestPositions(zone, front);
      if best == [] {
        PositionsFirst(zone, front, last);
      } else {
        LongestExact(zone, front, best[0]);
        var head :| LongestFor(zone, front, head) && best[0] == head.(name := FoldName(head.name));
        PositionsStep(zone, front, last, head);
      }
    }
  }

  lemma PositionsFirst(zone: string, front: seq<CloudflareZone>, last: CloudflareZone)
    requires LongestContaining(zone, front) == [] && forall u :: u in front ==> !ContainsZone(u, zone)
    ensures LongestContaining(zone, front + [last]) != [] <==> exists i :: LongestAt(zone, front + [last], i)
    ensures |LongestContaining(zone, front + [last])| <= 1
    ensures forall i, j :: i < j ==> !(LongestAt(zone, front + [last], i) && LongestAt(zone, front + [last], j))
  {
    assert (front + [last])[..|front|] == front;
    forall i ensures LongestAt(zone, front + [last], i) <==> i == |front| && ContainsZone(last, zone) {
      LongestAtFirst(zone, front, last, i);
    }
    assert LongestAt(zone, front + [last], |front|) <==> ContainsZone(last, zone);
  }

  lemma PositionsStep(zone: string, front: seq<CloudflareZone>, last: CloudflareZone, head: CloudflareZone)
    requires LongestFor(zone, front, head)
    requires var best := LongestContaining(zone, front); best != [] && best[0].name == FoldName(head.name)
    requires LongestContaining(zone, front) != [] <==> exists i :: LongestAt(zone, front, i)
    requires |LongestContaining(zone, front)| > 1 <==>
             exists i, j :: i < j && LongestAt(zone, front, i) && LongestAt(zone, front, j)
    ensures LongestContaining(zone, front + [last]) != [] <==> exists i :: LongestAt(zone, front + [last], i)
    ensures |LongestContaining(zone, front + [last])| > 1 <==>
            exists i, j :: i < j && LongestAt(zone, front + [last], i) && LongestAt(zone, front + [last], j)
  {
    var all := front + [last];
    assert all[..|front|] == front;
    forall i ensures LongestAt(zone, all, i) <==>
      if !ContainsZone(last, zone) || |FoldName(last.name)| < |FoldName(head.name)| then LongestAt(zone, front, i)
      else if |FoldName(last.name)| > |FoldName(head.name)| then i == |front|
      else LongestAt(zone, front, i) || i == |front| {
      LongestAtSnoc(zone, front, last, head, i);
    }
    assert LongestAt(zone, all, |front|) ==> ContainsZone(last, zone);
  }

  /** The new zone's Cloudflare zone is found iff one visible zone alone is the longest containing it, and is that one. */
  lemma ContainingIff(zone: string, visible: seq<CloudflareZone>)
    ensures ContainingCloudflareZone(zone, visible).Some? <==>
            exists i :: LongestAt(zone, visible, i) && forall j :: LongestAt(zone, visible, j) ==> j == i
    ensures ContainingCloudflareZone(zone, visible).Some? ==>
              FoldedFrom(ContainingCloudflareZone(zone, visible).value, zone, visible)
  {
    LongestPositions(zone, visible);
    if ContainingCloudflareZone(zone, visible).Some? {
      var i :| LongestAt(zone, visible, i);
      forall j | LongestAt(zone, visible, j) ensures j == i {
        assert !(j < i) && !(i < j);
      }
      LongestExact(zone, visible, ContainingCloudflareZone(zone, visible).value);
    }
  }

  // ---------------------------------------------------------------- dry runs

  /** A dry run changes nothing and answers what the real claim would answer. */
  lemma DomainDryRun(install: Install, t: Tables, req: DomainRequest, now: int)
    requires Inv(install, t)
    ensures ClaimDomain(install, t, req.(dryRun := true), now).0 == t
    ensures ClaimDomain(install, t, req.(dryRun := true), now).1 == ClaimDomain(install, t, req.(dryRun := false), now).1
  {
    ClaimDomainKeeps(install, t, req.(dryRun := false), now);
    DomainVerdictSame(install, t, req, now);
  }

  lemma DomainVerdictSame(install: Install, t: Tables, req: DomainRequest, now: int)
    requires ClaimDomain(install, t, req.(dryRun := false), now).1 != DomainRefused(InsertConflict)
    ensures ClaimDomain(install, t, req.(dryRun := true), now).1 == ClaimDomain(install, t, req.(dryRun := false), now).1
  {
    if NormalizeName(req.domain).Some? {
      var norm := NormalizeName(req.domain).value;
      AdmitDomainSame(install, t, Claim(norm, TrimSpace(req.tenant), TrimSpace(req.project), CoveringZone(norm, t.zones),
                                        TrimSpace(req.userKey), now));
    }
  }

  /** Without an insert conflict the dry run of the locked part answers the same. */
  lemma AdmitDomainSame(install: Install, t: Tables, claim: Claim)
    ensures AdmitDomain(install, t, claim, false).1 != DomainRefused(InsertConflict) ==>
              AdmitDomain(install, t, claim, true).1 == AdmitDomain(install, t, claim, false).1
  {}

  lemma HostnameDryRun(install: Install, t: Tables, req: HostnameRequest, tunnel: Option<string>, now: int)
    requires Inv(install, t)
    ensures ClaimHostname(install, t, req.(dryRun := true), tunnel, now).0 == t
    ensures ClaimHostname(install, t, req.(dryRun := true), tunnel, now).1
            == ClaimHostname(install, t, req.(dryRun := false), tunnel, now).1
  {
    ClaimHostnameKeeps(install, t, req.(dryRun := false), tunnel, now);
    HostnameVerdictSame(install, t, req, tunnel, now);
  }

  lemma HostnameVerdictSame(install: Install, t: Tables, req: HostnameRequest, tunnel: Option<string>, now: int)
    requires ClaimHostname(install, t, req.(dryRun := false), tunnel, now).1 != HostnameRefused(InsertConflict)
    ensures ClaimHostname(install, t, req.(dryRun := true), tunnel, now).1
            == ClaimHostname(install, t, req.(dryRun := false), tunnel, now).1
  {
    if CheckHostname(req.hostname, req.tenant, req.project, req.machine, t.zones).None? {
      var row := HostnameRow(t, req, now);
      assert HostnameRow(t, req.(dryRun := true), now) == row && HostnameRow(t, req.(dryRun := false), now) == row;
      AdmitHostnameSame(install, t, row, tunnel);
    }
  }

  lemma AdmitHostnameSame(install: Install, t: Tables, row: Hostname, tunnel: Option<string>)
    ensures AdmitHostname(install, t, row, tunnel, false).1 != HostnameRefused(InsertConflict) ==>
              AdmitHostname(install, t, row, tunnel, true).1 == AdmitHostname(install, t, row, tunnel, false).1
  {}

  // ---------------------------------------------------------------- the restore step

  /** The restored claim fits: what the missing scan would have to check. */
  ghost predicate RestoreFits(install: Install, t: Tables, claim: Claim) {
    && ClaimRowOk(t.zones, claim)
    && InstallClear(install, claim.domain)
    && RoutesClear(t.routes, claim.domain)
    && (forall c :: c in t.claims ==> !Related(c.domain, claim.domain))
    && (forall h :: h in t.hostnames ==> InsideOwnDomain(h, claim))
  }

  /** `INSERT OR IGNORE` skips a claim whose domain or whose project is taken. */
  ghost predicate RestoreIgnored(t: Tables, claim: Claim) {
    exists c :: c in t.claims && (c.domain == claim.domain || (c.tenant == claim.tenant && c.project == claim.project))
  }

  /** The unscanned restore keeps the invariant exactly when it is ignored, refused for its zone, or the claim still fits. */
  lemma RestoreKeepsIff(install: Install, t: Tables, claim: Claim)
    requires Inv(install, t)
    ensures Inv(install, RestoreDomain(t, claim)) <==>
            RestoreIgnored(t, claim) || !Registered(t.zones, claim.zone) || RestoreFits(install, t, claim)
  {
    if !RestoreIgnored(t, claim) && Registered(t.zones, claim.zone) {
      var t' := RestoreDomain(t, claim);
      assert t'.claims == Insert(t.claims, claim, ClaimKey);
      if RestoreFits(install, t, claim) {
        InsertOrdered(t.claims, claim, ClaimKey);
        assert ClaimsOk(t.zones, t'.claims);
      } else if Inv(install, t') {
        assert claim in t'.claims;
        forall c | c in t.claims ensures !Related(c.domain, claim.domain) {
          assert c in t'.claims;
        }
        assert RestoreFits(install, t, claim);
      }
    }
  }

  /** A claim whose zone was removed in the meantime is not put back. */
  lemma RestoreNeedsZone(t: Tables, claim: Claim)
    ensures RestoreDomain(t, claim) != t <==> Registered(t.zones, claim.zone) && !RestoreIgnored(t, claim)
  {
    if Registered(t.zones, claim.zone) && !RestoreIgnored(t, claim) {
      assert |RestoreDomain(t, claim).claims| == |t.claims| + 1;
    }
  }

  /** The family of failures: another project has claimed a name related to the one being restored. */
  lemma RestoreBreaks(install: Install, t: Tables, claim: Claim, taken: Claim)
    requires Inv(install, t) && taken in t.claims && Registered(t.zones, claim.zone)
    requires !RestoreIgnored(t, claim) && Related(taken.domain, claim.domain)
    ensures !Inv(install, RestoreDomain(t, claim))
  {
    RestoreKeepsIff(install, t, claim);
  }

  /** A concrete registry: project q holds x.a.z.de while project p's replaced a.z.de is put back. */
  lemma RestoreBreaksExample()
    ensures var zone := Zone("z.de", "z.de");
            var t := Tables([zone], [Claim("x.a.z.de", "t", "q", "z.de", "", 0)], [], []);
            && Inv(Install("", ""), t)
            && !Inv(Install("", ""), RestoreDomain(t, Claim("a.z.de", "t", "p", "z.de", "", 0)))
  {
    var zone := Zone("z.de", "z.de");
    var taken, back := Claim("x.a.z.de", "t", "q", "z.de", "", 0), Claim("a.z.de", "t", "p", "z.de", "", 0);
    var t := Tables([zone], [taken], [], []);
    ExampleNames();
    assert zone in t.zones && zone.name == "z.de";
    assert ClaimRowOk(t.zones, taken);
    assert NormalizeHostname("") == "";
    assert Inv(Install("", ""), t);
    assert taken in t.claims;
    RestoreBreaks(Install("", ""), t, back, taken);
  }

  lemma ExampleNames()
    ensures ValidName("z.de") && ValidName("x.a.z.de")
    ensures StrictlyUnder("x.a.z.de", "z.de") && StrictlyUnder("x.a.z.de", "a.z.de")
  {
    ExampleValid();
    assert "." + "z.de" == ".z.de" && "x.a.z.de"[3..] == ".z.de";
    assert "." + "a.z.de" == ".a.z.de" && "x.a.z.de"[1..] == ".a.z.de";
  }

  lemma ExampleValid()
    ensures ValidName("z.de") && ValidName("x.a.z.de")
  {
    SplitPart("de", '.');
    assert "z" + "." + "de" == "z.de" && "a" + "." + "z.de" == "a.z.de" && "x" + "." + "a.z.de" == "x.a.z.de";
    ValidNameBelow("z", "de");
    ValidNameBelow("a", "z.de");
    ValidNameBelow("x", "a.z.de");
  }

  // ---------------------------------------------------------------- set-domain with compensation

  /** `projectDomainSet`: claim, write to Incus, and on a failed write release and restore. */
  function SetDomain(install: Install, t: Tables, req: DomainRequest, now: int, incusOk: bool): (Tables, DomainOutcome) {
    var (t1, outcome) := ClaimDomain(install, t, req, now);
    if !outcome.Claimed? || req.dryRun || incusOk then (t1, outcome)
    else (Compensate(t1, outcome.previous, req.tenant, req.project), outcome)
  }

  /** Release the new claim, then put the replaced one back. */
  function Compensate(t1: Tables, previous: Option<Claim>, tenant: string, project: string): Tables {
    var t2 := ReleaseDomain(t1, tenant, project).0;
    if previous.Some? then RestoreDomain(t2, previous.value) else t2
  }

  /** A set-domain whose Incus write fails leaves the tables exactly as they were. */
  lemma SetDomainRollsBack(install: Install, t: Tables, req: DomainRequest, now: int)
    requires Inv(install, t)
    ensures SetDomain(install, t, req, now, false).0 == t
  {
    var (t1, outcome) := ClaimDomain(install, t, req, now);
    if outcome.Claimed? && !req.dryRun {
      ClaimedRow(install, t, req, now);
      CompensationRestores(install, t, outcome.claim, req.tenant, req.project);
      assert SetDomain(install, t, req, now, false).0 == Compensate(t1, outcome.previous, req.tenant, req.project);
    }
  }

  /** With the Incus write done, the claim stands as it was made; the answer is the claim's either way. */
  lemma SetDomainStands(install: Install, t: Tables, req: DomainRequest, now: int, incusOk: bool)
    ensures SetDomain(install, t, req, now, incusOk).1 == ClaimDomain(install, t, req, now).1
    ensures incusOk ==> SetDomain(install, t, req, now, incusOk).0 == ClaimDomain(install, t, req, now).0
  {}

  /** The row of an accepted claim: normalized name, trimmed owner, covering zone. */
  lemma ClaimedRow(install: Install, t: Tables, req: DomainRequest, now: int)
    requires Inv(install, t) && ClaimDomain(install, t, req, now).1.Claimed?
    ensures var claim := ClaimDomain(install, t, req, now).1.claim;
            && ClaimRowOk(t.zones, claim)
            && claim.tenant == TrimSpace(req.tenant) && claim.project == TrimSpace(req.project)
            && Some(claim.domain) == NormalizeName(req.domain)
            && ClaimDomain(install, t, req, now) == AdmitDomain(install, t, claim, req.dryRun)
  {
    var norm := NormalizeName(req.domain).value;
    ValidDomainRow(install, t, norm);
    var claim := Claim(norm, TrimSpace(req.tenant), TrimSpace(req.project), CoveringZone(norm, t.zones),
                       TrimSpace(req.userKey), now);
    assert ClaimDomain(install, t, req, now) == AdmitDomain(install, t, claim, req.dryRun);
    AdmittedClaimIs(install, t, claim, req.dryRun);
  }

  lemma AdmittedClaimIs(install: Install, t: Tables, claim: Claim, dryRun: bool)
    requires AdmitDomain(install, t, claim, dryRun).1.Claimed?
    ensures AdmitDomain(install, t, claim, dryRun).1.claim == claim
    ensures AdmitDomain(install, t, claim, dryRun).1.previous == First(t.claims, OwnedBy(claim.tenant, claim.project))
    ensures DomainScan(install, t, claim.domain, claim.tenant, claim.project).None?
  {}

  /** Insert, release, restore: the claim table returns to its listing, replaced claim included. */
  lemma CompensationRestores(install: Install, t: Tables, claim: Claim, rawTenant: string, rawProject: string)
    requires Inv(install, t) && ClaimRowOk(t.zones, claim)
    requires claim.tenant == TrimSpace(rawTenant) && claim.project == TrimSpace(rawProject)
    requires AdmitDomain(install, t, claim, false).1.Claimed?
    ensures var (t1, outcome) := AdmitDomain(install, t, claim, false);
            Compensate(t1, outcome.previous, rawTenant, rawProject) == t
  {
    AdmittedClaimIs(install, t, claim, false);
    DomainScanExact(install, t, claim.domain, claim.tenant, claim.project);
    var others := OtherClaims(install, t, claim);
    NewClaimKeeps(install, t, others, claim);
    AdmittedDomain(install, t, claim, others, false);
    var t1 := t.(claims := Insert(others, claim, ClaimKey));
    assert AdmitDomain(install, t, claim, false).0 == t1;
    ReleaseUndoesInsert(t1, others, claim, rawTenant, rawProject);
    RestorePrevious(install, t, others, claim);
  }

  lemma ReleaseUndoesInsert(t1: Tables, others: seq<Claim>, claim: Claim, rawTenant: string, rawProject: string)
    requires t1.claims == Insert(others, claim, ClaimKey) && KeyOrdered(t1.claims, ClaimKey) && KeyOrdered(others, ClaimKey)
    requires forall c :: c in others ==> !(c.tenant == claim.tenant && c.project == claim.project)
    requires claim.tenant == TrimSpace(rawTenant) && claim.project == TrimSpace(rawProject)
    ensures ReleaseDomain(t1, rawTenant, rawProject).0 == t1.(claims := others)
  {
    var owned, kept := OwnedBy(claim.tenant, claim.project), NotOwnedBy(claim.tenant, claim.project);
    assert owned(claim) && claim in t1.claims;
    FilterOrdered(t1.claims, kept, ClaimKey);
    OrderedListingUnique(Filter(t1.claims, kept), others, ClaimKey);
  }

  lemma RestorePrevious(install: Install, t: Tables, others: seq<Claim>, claim: Claim)
    requires Inv(install, t) && KeyOrdered(others, ClaimKey)
    requires forall c :: c in others <==> c in t.claims && !(c.tenant == claim.tenant && c.project == claim.project)
    ensures var previous := First(t.claims, OwnedBy(claim.tenant, claim.project));
            t.claims == if previous.Some? then RestoreDomain(t.(claims := others), previous.value).claims else others
  {
    var owned := OwnedBy(claim.tenant, claim.project);
    var previous := First(t.claims, owned);
    if previous.Some? {
      assert ClaimRowOk(t.zones, previous.value);
      var back := Insert(others, previous.value, ClaimKey);
      forall c | c in t.claims ensures c in back {
        if owned(c) {
          assert c == previous.value;
        }
      }
      forall c | c in others ensures c.domain != previous.value.domain {
        if c.domain == previous.value.domain {
          KeyUnique(t.claims, ClaimKey, c, previous.value);
          assert false;
        }
      }
      InsertOrdered(others, previous.value, ClaimKey);
      OrderedListingUnique(back, t.claims, ClaimKey);
      assert InsertClaim(others, previous.value) == Some(back);
    } else {
      assert forall c :: c in t.claims ==> !owned(c);
      OrderedListingUnique(others, t.claims, ClaimKey);
    }
  }

  // ---------------------------------------------------------------- hostname add with compensation

  /** What the steps after a hostname claim answered: the coverage lookup, the certificate row, the instance key. */
  datatype AddWrites = AddWrites(lookupOk: bool, covered: bool, certificateOk: bool, beforeCreate: bool, stampOk: bool)

  /** A write failed that the handler compensates; a failed lookup returns before any write. */
  predicate WritesFail(w: AddWrites) {
    w.lookupOk && ((!w.covered && !w.certificateOk) || (!w.beforeCreate && !w.stampOk))
  }

  /** `machineHostnameAdd`: claim, lookup, certificate row, instance key; a failed write releases a new reservation. */
  function AddHostname(install: Install, t: Tables, req: HostnameRequest, tunnel: Option<string>, now: int, w: AddWrites)
    : (Tables, HostnameOutcome)
  {
    var (t1, outcome) := ClaimHostname(install, t, req, tunnel, now);
    if outcome.HostnameRefused? || req.dryRun || !WritesFail(w) || outcome.AlreadyHeld? then (t1, outcome)
    else (ReleaseHostname(t1, req.tenant, req.project, req.machine, outcome.row.hostname).0, outcome)
  }

  lemma ClaimIsAdmit(install: Install, t: Tables, req: HostnameRequest, tunnel: Option<string>, now: int)
    requires ClaimHostname(install, t, req, tunnel, now).1.HostnameClaimed?
    ensures NormalizeMachineHostname(req.hostname).Some? && tunnel == None
    ensures ClaimHostname(install, t, req, tunnel, now) == AdmitHostname(install, t, HostnameRow(t, req, now), None, req.dryRun)
  {}

  /** An accepted claim inserted the requested row, which was free. */
  lemma ClaimedHostname(install: Install, t: Tables, req: HostnameRequest, tunnel: Option<string>, now: int)
    requires Inv(install, t) && ClaimHostname(install, t, req, tunnel, now).1.HostnameClaimed?
    ensures NormalizeMachineHostname(req.hostname).Some?
    ensures var row := HostnameRow(t, req, now);
            && HostnameFree(install, t, row)
            && ClaimHostname(install, t, req, tunnel, now).1 == HostnameClaimed(row)
            && (!req.dryRun ==>
                  ClaimHostname(install, t, req, tunnel, now).0 == t.(hostnames := Insert(t.hostnames, row, HostnameKey)))
  {
    ClaimIsAdmit(install, t, req, tunnel, now);
    AdmittedHostname(install, t, HostnameRow(t, req, now), req.dryRun);
  }

  /**
   A hostname add leaves the tables exactly as they were iff it reserved nothing new or a compensated write
   failed: after a failed coverage lookup a new reservation stays.
   */
  lemma AddHostnameRollsBack(install: Install, t: Tables, req: HostnameRequest, tunnel: Option<string>, now: int, w: AddWrites)
    requires Inv(install, t)
    ensures AddHostname(install, t, req, tunnel, now, w).0 == t <==>
            || !ClaimHostname(install, t, req, tunnel, now).1.HostnameClaimed? || req.dryRun
            || (w.lookupOk && ((!w.covered && !w.certificateOk) || (!w.beforeCreate && !w.stampOk)))
  {
    if ClaimHostname(install, t, req, tunnel, now).1.HostnameClaimed? && !req.dryRun {
      ClaimedHostname(install, t, req, tunnel, now);
      if WritesFail(w) {
        ReleaseHostnameUndoesInsert(install, t, HostnameRow(t, req, now), req);
      } else {
        assert |ClaimHostname(install, t, req, tunnel, now).0.hostnames| == |t.hostnames| + 1;
      }
    }
  }

  lemma AddHostnameUndone(install: Install, t: Tables, req: HostnameRequest, tunnel: Option<string>, now: int, w: AddWrites)
    requires Inv(install, t) && WritesFail(w)
    ensures AddHostname(install, t, req, tunnel, now, w).0 == t
  {
    AddHostnameRollsBack(install, t, req, tunnel, now, w);
  }

  /** The answer is the claim's, and the tables are those of the claim or, rolled back, those before it. */
  lemma AddHostnameStands(install: Install, t: Tables, req: HostnameRequest, tunnel: Option<string>, now: int, w: AddWrites)
    requires Inv(install, t)
    ensures AddHostname(install, t, req, tunnel, now, w).0 in {t, ClaimHostname(install, t, req, tunnel, now).0}
    ensures AddHostname(install, t, req, tunnel, now, w).1 == ClaimHostname(install, t, req, tunnel, now).1
  {
    if WritesFail(w) {
      AddHostnameUndone(install, t, req, tunnel, now, w);
    }
  }

  lemma ReleaseHostnameUndoesInsert(install: Install, t: Tables, row: Hostname, req: HostnameRequest)
    requires Inv(install, t) && HostnameFree(install, t, row)
    requires ValidName(Base(row.hostname))
    requires row.tenant == TrimSpace(req.tenant) && row.project == TrimSpace(req.project) && row.machine == TrimSpace(req.machine)
    ensures var t1 := t.(hostnames := Insert(t.hostnames, row, HostnameKey));
            ReleaseHostname(t1, req.tenant, req.project, req.machine, row.hostname).0 == t
  {
    forall h | h in t.hostnames ensures h.hostname != row.hostname {
      assert MayCoexist(row, h);
    }
    var inserted := Insert(t.hostnames, row, HostnameKey);
    InsertOrdered(t.hostnames, row, HostnameKey);
    NormalizeMachineHostnameFixed(row.hostname);
    var held, kept := HeldAs(row.hostname, row.tenant, row.project, row.machine), NotHostname(row.hostname);
    assert row in inserted && held(row);
    FilterOrdered(inserted, kept, HostnameKey);
    OrderedListingUnique(Filter(inserted, kept), t.hostnames, HostnameKey);
  }
}
