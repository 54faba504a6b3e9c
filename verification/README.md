# Sandcastle Auth App: reservations, zone reconciling, certificates, storage, routes and CIDR pools

A Dafny model of the state-keeping core of the Sandcastle Auth App and of its CIDR allocator, with proofs
about every run of that state.

- **Reservations.** Public DNS Zones, Project Domain claims, explicit Machine Public Hostnames and Public
  Routes are four tables changed by claim, replace, release, garbage-collection, zone and route steps. Names
  are strings and the conflict rules use the dotted-suffix order on them (`Names`). `Registry` gives the new
  tables of every call, `ReservationDbs` the loops and statements that compute it, `RegistryInvariant` the
  cross-table invariant of every run, `RegistryTheorems` exact verdicts, dry runs and compensations, and
  `RegistryEffects` the answer to every request and the rows that come and go.
- **Project creation** with a domain is `ProjectCreation`.
- **Zone passes.** Machines, claims and hostnames become wanted A records, which are diffed against a
  provider's listing (`ZoneRecords`, `ZoneFleet`); which names a machine goes by and which of them are served at
  its address is in `FleetEffects`. What a release deletes is in `ReleasedRecords`,
  what stays when a delete fails in `LeftoverRecords`, and `FleetExample` is a fleet with one name asked for twice.
- **Certificates.** Row states, updates, renewal arithmetic and passes (`Certificates`, `CertificateDbs`),
  retention and backoff over whole runs (`CertificateRuns`), what each request, pass, push and order does to a row's
  columns (`CertificateEffects`), and which rows a released domain drops (`CertificateReleases`).
- **Order scheduling, file cache, named lock.** State machines over every interleaving (`Scheduler`,
  `FileCache`, `NamedLock`).
- **ACME storage keys.** `LIKE` selection and directory listings (`StorageKeys`, `AcmeStorage`).
- **Public Routes.** Ports, proxy devices and the Caddyfile (`Caddyfile`, `RouteManagers`, `RouteManagerDbs`,
  `RouteRuns`), what the file says (`CaddyfileText`), what is wired and how file and devices meet (`RouteEffects`),
  which hostnames reach them (`RouteHostnames`), and the in-place sort of hostname views (`HostnameViews`).
- **CIDR pools.** Prefix arithmetic and the block search in 32-bit arithmetic (`Cidr`, `CidrAllocator`).

Concrete inputs use the small registries of `ExampleRegistry`.

## How to read it

A table is the sequence of its rows in primary-key order. Code that changes state step by step is a class or
a method with loops; its `ensures` equates the new state with a function of the old one, and the lemmas are
about that function. The modules named `...Effects` and `CaddyfileText` say what such a function answers in terms of
the fields of rows, devices and records, without the filters and scans its body is built from. Times are whole
seconds, as stored. Case folding and white space are ASCII.

Where the code does less than its comments or names suggest, the code is kept and the exact condition is
proved:

| what | condition |
|---|---|
| putting a replaced Project Domain back (no conflict scan) | keeps the invariant iff the insert is ignored, its zone is gone, or the claim still fits (`RestoreKeepsIff`, `RestoreNeedsZone`, `RestoreBreaksExample`) |
| a project creation that fails in Incus | leaves the tables as before iff the project had no claim (`CreateProjectRollsBackIff`, `CreateProjectLosesOrphan`) |
| a hostname add that fails | leaves the tables as before iff nothing new was reserved or a compensated write failed, not the coverage lookup (`AddHostnameRollsBack`, `LookupErrorExample`) |
| the cleanup of a replaced domain | takes records of the new claim iff the two domains are related (`ReplacementTakesIff`, `ReplacedByChildExample`), and of the project's own hostnames below the old domain (`ReplacementTakesHostnames`); it drops the new domain's certificate rows iff they lie below the old one (`ReplacementDropsRows`, `ReplacementDropsExample`) |
| the release of an explicit hostname | takes a wanted record of a machine's derived name iff its base is that name (`TakesDerivedIff`, `ReleaseTakesWanted`, `OtherMachineExample`) |
| a record left over when the provider failed to delete it | is stale for the next pass iff the released name lies below a Project Domain and nothing wants or keeps it; elsewhere it stays for good (`LeftoverStaleIff`, `LeftoverStays`, `LeftoverExample`) |
| a wanted name with several A records whose last listed one is right | the other address stays, and a relisting may cause a second write (`PassConverges`, `SecondPassQuietAnyOrder`, `ShadowedExample`) |
| of two targets of one name | the name is served at the address of the last target to ask (`FleetServes`, `EarlierMachineNotServed`, `FleetServesExample`) |
| fallback renewal time inside the validity | iff the lifetime is 0 to 4611686018 s, or at least 9223372037 s (`RenewalInsideIff`) |
| an order placed after a change of directory | its certificate survives the next pass iff the row held one before or already named the running directory (`OrderKeptIff`, `RestartWastesOrder`); a project's always survives (`ProjectOrderKept`) |
| a dirty mark drops a cached read | unless it falls between that read and its store (`MarkLostIff`, `MarkLostReachable`) |
| `Unlock` by a caller that does not hold the name | harmless iff nobody holds it (`StrayUnlockIff`, `StrayUnlockReachable`) |
| a pool whose last address is the last IPv4 address | never allocates (`AllocatesIff`, `LastPoolExample`) |
| a listing of the ACME storage is the key tree | iff every name that keys differing from the prefix in case contribute is in the tree anyway (`ListingIsTreeIff`, `ClashExample`) |
| a running machine's route has its device after an error-free pass | iff no later listed route of the same normalized hostname is running or absent (`SweptDevicesIff`); always so after validated publishes (`ValidatedRunWires`), not when a name and its dotted spelling are both published directly (`SpellingsShareDevice`) |
| a reconcile pass removes exactly the routes of absent machines | iff their stored hostnames are in normal form (`PrunesExactlyIff`); always so after publishes the handler validated (`ValidatedRunPrunesExactly`), not after a direct `Publish` of a name with two trailing dots (`DottedRouteSurvives`) |
| a failed reconcile pass leaves the Caddyfile current | iff no absent route it got to names a stored row (`FailedPassAgreesIff`, `FailedPassExample`); later passes that prune nothing do not repair it (`StaleStays`), a publish, a delete, a pruning pass or the sync at start does (`OpAgrees`, `ReconcileAgreesIff`) |
| a failed publish or delete leaves the Caddyfile current | a publish iff the machine did not answer or the request is not a new, complete, allowed one; a delete iff it is refused or no row has the hostname (`FailedPublishAgreesIff`, `FailedPublishExample`, `FailedDeleteAgreesIff`, `FailedDeleteExample`) |

## Model

| member | source | states |
|---|---|---|
| Names.SuffixesComparable | internal/authapp/public_dns_zones.go:211-230 | two dotted suffixes of one name are always comparable, so scans over "equal, above or below" miss no overlap |
| Names.NormalizeMachineHostnameFixed | internal/authapp/machine_hostnames.go:466-486 | a stored hostname normalizes to itself, so a release finds the row a claim wrote |
| Names.ValidNameIff | internal/domain/validate.go:110-132 | a name is well formed iff it is spelled in letters, digits, hyphens and dots, with a letter or digit at both ends and on both sides of every dot |
| Names.SpellingsNormalize | internal/domain/validate.go:134-150 | a well-formed name in any letter case, between blanks, with or without a trailing dot, is stored as that name |
| Names.ZoneNeedsTwoLabels | internal/domain/validate.go:96-108 | a zone name needs at least two labels |
| RegistryInvariant.OneCoveringZone | internal/authapp/public_dns_zones.go:211-230 | at most one registered zone covers a name |
| RegistryInvariant.CoveringZoneCovers | internal/authapp/project_domain_claims.go:254-273 | the longest-match loop returns a registered zone covering the name, or none covers it |
| RegistryInvariant.CoveringZoneAnyOrder | internal/authapp/machine_hostnames.go:310-327 | the zone found does not depend on the order the zones are listed in |
| RegistryInvariant.AddZoneKeeps | internal/authapp/public_dns_zones.go:211-259 | adding a zone keeps the cross-table invariant: zones stay an antichain and every recorded zone stays the covering one |
| RegistryInvariant.SetZoneTokenKeeps | internal/authapp/public_dns_zones.go:263-283 | re-tokening a zone keeps the invariant, its Cloudflare zone still containing it |
| RegistryInvariant.RemoveZoneKeeps | internal/authapp/public_dns_zones.go:287-325 | a removable zone is recorded by no claim and no hostname, so the invariant holds after the delete |
| RegistryInvariant.DomainScanExact | internal/authapp/project_domain_claims.go:281-325 | the scan finds nothing iff no install name, route, foreign claim or hostname conflicts with the domain |
| RegistryInvariant.HostnameScanExact | internal/authapp/machine_hostnames.go:333-377 | over the claim's filtered snapshot the scan finds nothing iff the name is free on the unfiltered tables |
| RegistryInvariant.ClaimDomainKeeps | internal/authapp/project_domain_claims.go:172-250 | a domain claim keeps the invariant, and its uniqueness-conflict branch is unreachable |
| RegistryInvariant.ClaimHostnameKeeps | internal/authapp/machine_hostnames.go:206-304 | a hostname claim keeps the invariant, and its uniqueness-conflict branch is unreachable |
| RegistryInvariant.UpsertRouteKeeps | internal/authapp/routes.go:73-132 | a new route lies at or under no domain and no hostname base, with a port nobody holds |
| RegistryInvariant.RunKeeps | internal/authapp/machine_hostnames.go:206-304 | every run of zone, claim, release, garbage-collection and route steps keeps the invariant |
| RegistryInvariant.ReachableInv | internal/authapp/project_domain_claims.go:172-250 | every registry reached from empty tables satisfies the invariant |
| RegistryTheorems.DomainVerdict | internal/authapp/project_domain_claims.go:172-250 | a Project Domain is accepted iff well formed, owned, strictly covered, short enough, free and new |
| RegistryTheorems.HostnameVerdict | internal/authapp/machine_hostnames.go:206-304 | a machine hostname is accepted iff well formed, owned, covered, short enough, published by no tunnel, and free |
| RegistryEffects.AddZoneAnswers | internal/authapp/public_dns_zones.go:211-259 | a zone is accepted iff its name is well formed, not registered, nested with no registered zone, and the token sees one longest zone containing it; every other input gets the named refusal |
| RegistryEffects.AddZoneRows | internal/authapp/public_dns_zones.go:235-259 | an accepted zone joins the others under the Cloudflare zone its token resolved; a refusal changes nothing |
| RegistryEffects.SetTokenEffect | internal/authapp/public_dns_zones.go:263-283 | re-tokening changes the Cloudflare zone of the named zone alone, iff that zone is registered and the token resolves one |
| RegistryEffects.RemoveZoneEffect | internal/authapp/public_dns_zones.go:287-325 | the named row alone goes, iff it is registered and no claim and no hostname records it; otherwise it is unknown or claimed |
| RegistryEffects.DomainAnswers | internal/authapp/project_domain_claims.go:172-200 | a malformed domain, a missing owner and a failed check each get their own refusal |
| RegistryEffects.DomainChecks | internal/authapp/project_domain_claims.go:254-273 | the checks of a Project Domain before the lock: no zone covers it, it is a zone itself, it is too long |
| RegistryEffects.ClaimDomainRows | internal/authapp/project_domain_claims.go:172-250 | an accepted claim writes one row of the normalized name and trimmed owner under its covering zone, replaces the project's own and keeps every other; a dry run keeps all |
| RegistryEffects.AlreadyClaimedIff | internal/authapp/project_domain_claims.go:202-241 | a domain that passes its checks is already claimed iff the project holds that very domain |
| RegistryEffects.ReleaseDomainRows | internal/authapp/project_domain_claims.go:412-424 | a release drops the project's claim alone and returns it, or finds none |
| RegistryEffects.GcDomainsRows | internal/authapp/project_domain_claims.go:462-490 | with some tenant listed, a claim stays iff a listed project of its tenant trims to its project, and is returned iff it was there and none does |
| RegistryEffects.GcNeedsListing | internal/authapp/machine_hostnames.go:515-530 | an empty listing drops no claim and no hostname |
| RegistryEffects.HostnameChecks | internal/authapp/machine_hostnames.go:310-327 | the checks of a hostname before the lock, each with the input it refuses |
| RegistryEffects.AlreadyHeldIff | internal/authapp/machine_hostnames.go:206-304 | a hostname is already held iff it passes its checks, no tunnel publishes it and this same machine holds it |
| RegistryEffects.ClaimHostnameRows | internal/authapp/machine_hostnames.go:206-304 | an accepted hostname adds one row of the normalized name and trimmed owner under its covering zone and keeps every other |
| RegistryEffects.ReleaseHostnameRows | internal/authapp/machine_hostnames.go:466-486 | a release drops and returns the named row iff this machine holds it; every other row stays |
| RegistryEffects.ReleaseProjectRows | internal/authapp/machine_hostnames.go:489-506 | deleting a project drops and returns exactly its machines' hostnames |
| RegistryEffects.GcHostnamesRows | internal/authapp/machine_hostnames.go:515-553 | a hostname stays iff its project is listed and, when machines could be listed, its machine is too; the others are returned |
| RegistryEffects.UpsertStored | internal/authapp/routes.go:73-132 | publishing a stored hostname changes nothing: the same backend gets the row back, another one or another tenant is refused |
| RegistryEffects.DeleteRouteRows | internal/authapp/routes.go:225-243 | a delete drops the row of the hostname iff it is found and its tenant may remove it; every other row stays |
| RegistryEffects.DomainConflictIsReal | internal/authapp/project_domain_claims.go:281-325 | a refused Project Domain names an install name, route, foreign claim or hostname that is in the way, and how it stands to it |
| RegistryEffects.HostnameConflictIsReal | internal/authapp/machine_hostnames.go:333-377 | so does a refused hostname |
| RegistryEffects.RouteInsideIsReal | internal/authapp/project_domain_claims.go:440-458 | a route refused for a reservation lies at or under the one it names |
| RegistryTheorems.LongestExact | internal/authapp/public_dns_zones.go:411-434 | the candidates kept are exactly the longest visible zones containing the new one, under folded names |
| RegistryTheorems.ContainingIff | internal/authapp/public_dns_zones.go:411-434 | the Cloudflare zone of a new zone is found iff one visible zone alone is the longest containing it, and is that zone |
| RegistryTheorems.DomainDryRun | internal/authapp/project_domain_claims.go:202-241 | a dry-run domain claim changes nothing and answers what the real claim answers |
| RegistryTheorems.HostnameDryRun | internal/authapp/machine_hostnames.go:234-295 | a dry-run hostname claim changes nothing and answers what the real claim answers |
| RegistryTheorems.RestoreKeepsIff | internal/authapp/project_domain_claims.go:426-435 | the unscanned restore keeps the invariant iff it is ignored, refused because its zone is gone, or the claim still fits |
| RegistryTheorems.RestoreNeedsZone | internal/authapp/app.go:758-766 | it puts the claim back iff the claim's zone is still registered and neither its domain nor its project is taken |
| RegistryTheorems.RestoreBreaks | internal/authapp/project_domain_claims.go:426-435 | with its zone registered, it breaks the invariant whenever another project meanwhile claimed a related name |
| RegistryTheorems.RestoreBreaksExample | internal/authapp/project_domain_claims.go:426-435 | a concrete registry where it does |
| RegistryTheorems.SetDomainRollsBack | internal/authapp/projects_api.go:300-348 | a set-domain whose Incus write fails leaves all tables exactly as before, replaced claim included |
| RegistryTheorems.SetDomainStands | internal/authapp/projects_api.go:300-348 | a set-domain whose Incus write succeeds stands as claimed; its answer is the claim's either way |
| RegistryTheorems.AddHostnameRollsBack | internal/authapp/machine_hostnames_api.go:225-322 | a hostname add leaves all tables exactly as before iff it reserved nothing new or its certificate-row or Incus write failed; a failed coverage lookup keeps a new reservation |
| ExampleRegistry.LookupErrorKeepsReservation | internal/authapp/machine_hostnames_api.go:247-251 | for every free name below the only zone, a failed coverage lookup keeps the new reservation |
| ExampleRegistry.LookupErrorExample | internal/authapp/machine_hostnames_api.go:247-251 | concretely, m.z.de stays reserved |
| ProjectCreation.CreateProjectRollsBackIff | internal/authapp/projects_api.go:105-163 | a creation that fails in Incus leaves all tables exactly as before iff no claim was made or the project had none before |
| ProjectCreation.CreateProjectLosesClaim | internal/authapp/projects_api.go:122-163 | otherwise the claim it replaced is gone |
| ProjectCreation.CreateProjectLosesOrphan | internal/authapp/projects_api.go:122-163 | concretely, b.z.de left over and a.z.de asked for leave neither |
| ProjectCreation.CreateProjectStands | internal/authapp/projects_api.go:105-163 | a creation that succeeds keeps its claim; its answer is the claim's either way |
| ReservationDbs.FindContaining | internal/authapp/public_dns_zones.go:411-434 | the loop picks the single longest visible zone equal to or above the new one |
| ReservationDbs.FindZone | internal/authapp/project_domain_claims.go:254-273 | the lookup loop computes the covering zone |
| ReservationDbs.ScanDomain | internal/authapp/project_domain_claims.go:281-325 | the scan loops report the first conflict in the source's order: install names, routes, claims, hostnames |
| ReservationDbs.ScanHostname | internal/authapp/machine_hostnames.go:333-377 | the same for a machine hostname without its wildcard |
| ReservationDbs.AllocateLocalPort | internal/authapp/routes.go:136-161 | the lowest port in [20000, 30000) that no route holds, or none |
| ReservationDbs.ReservationDb.AddPublicDNSZone | internal/authapp/public_dns_zones.go:211-259 | pre-flight, Cloudflare lookup and insert make exactly the step of the registry |
| ReservationDbs.ReservationDb.RemovePublicDNSZone | internal/authapp/public_dns_zones.go:287-325 | removal is refused while a claim or hostname records the zone |
| ReservationDbs.ReservationDb.ClaimProjectDomain | internal/authapp/project_domain_claims.go:172-250 | the claim with its locked section makes exactly the step of the registry |
| ReservationDbs.ReservationDb.ReleaseProjectDomainClaim | internal/authapp/project_domain_claims.go:412-424 | deletes the project's claim and returns it |
| ReservationDbs.ReservationDb.ProjectDomainSet | internal/authapp/projects_api.go:300-348 | claim, Incus write, then release and restore on failure |
| ReservationDbs.ReservationDb.ProjectCreateWithDomain | internal/authapp/projects_api.go:105-163 | claim, creation in Incus, then release without restore on failure |
| ReservationDbs.ReservationDb.ReconcileProjectDomainClaims | internal/authapp/project_domain_claims.go:462-490 | the loops make exactly the collection that `GcDomainsRows` describes row by row, and nothing for an empty live set |
| ReservationDbs.ReservationDb.ClaimMachineHostname | internal/authapp/machine_hostnames.go:206-304 | the claim with its filtered snapshot makes exactly the step of the registry |
| ReservationDbs.ReservationDb.ReleaseMachineHostname | internal/authapp/machine_hostnames.go:466-486 | deletes the machine's own row only |
| ReservationDbs.ReservationDb.MachineHostnameAdd | internal/authapp/machine_hostnames_api.go:225-322 | claim, coverage lookup, certificate row, instance key, then release when a write failed |
| ReservationDbs.ReservationDb.ReconcileMachineHostnames | internal/authapp/machine_hostnames.go:515-553 | the loops make exactly the collection that `GcHostnamesRows` describes row by row |
| ReservationDbs.ReservationDb.UpsertRouteRow | internal/authapp/routes.go:73-132 | normalization, ownership, reverse checks, port and insert make exactly the step of the registry |
| ZoneRecords.RelativeExact | internal/authapp/zone_reconcile.go:576-600 | relative names lose nothing: every storable name inside the Cloudflare zone comes back from its relative name |
| ZoneRecords.WildcardRelative | internal/authapp/zone_reconcile.go:605-610 | base and wildcard records of a hostname share one managed name |
| ZoneRecords.DesiredZoneRecords | internal/authapp/zone_reconcile.go:585-601 | the loop computes wanted addresses, later targets winning, and the kept names of every target |
| ZoneRecords.DiffZone | internal/authapp/zone_reconcile.go:620-685 | the writes are, by name order, one record per wanted name whose last listed address differs; the deletes are exactly the stale records |
| ZoneRecords.PassAtName | internal/authapp/zone_reconcile.go:645-704 | the provider calls of a pass, seen at one name, replace it, clear it or leave it |
| ZoneRecords.OthersUntouched | internal/authapp/zone_reconcile.go:645-655 | records of other types pass through unchanged and in order |
| ZoneRecords.PassConverges | internal/authapp/zone_reconcile.go:620-704 | every wanted name gets its address (and only it iff not shadowed), managed names without live target are cleared, kept and unmanaged names unchanged |
| ZoneRecords.QuietMeansNoWrites | internal/authapp/zone_reconcile.go:676-704 | a pass issues no call iff every wanted name lists its address last and nothing is stale |
| ZoneRecords.SecondPassQuiet | internal/authapp/zone_reconcile.go:620-704 | an immediate second pass issues no writes |
| ZoneRecords.SecondPassQuietAnyOrder | internal/authapp/zone_reconcile.go:645-685 | whatever order the provider lists in, the second pass is quiet iff no wanted name is shadowed |
| ZoneRecords.ShadowedExample | internal/authapp/zone_reconcile.go:645-685 | a two-record listing where the wrong address stays and the reversed listing makes the next pass write |
| ZoneRecords.WantIsLastAsker | internal/authapp/zone_reconcile.go:585-601 | a name is wanted iff some target with an address asks for it, at the address of the last one that does |
| ZoneFleet.ClassifyMachine | internal/authapp/zone_reconcile.go:475-508 | the appending, stamping and sorting make exactly the targets that `TargetsAgreed`, `TargetsUnagreed` and `TargetsSorted` describe |
| ZoneFleet.FleetSourced | internal/authapp/zone_reconcile.go:475-508 | every target lies directly in a claim's domain or is an explicit hostname, with that row's zone |
| FleetEffects.TargetsAgreed | internal/authapp/zone_reconcile.go:475-508 | when the project's last listed claim and the Incus key agree, the targets are the derived name and the hostnames recorded for this machine, and nothing else |
| FleetEffects.TargetsUnagreed | internal/authapp/zone_reconcile.go:475-508 | otherwise they are its hostnames alone, and its files are left as they are iff Incus records a domain |
| FleetEffects.TargetsSorted | internal/authapp/zone_reconcile.go:501-507 | the targets are listed by hostname |
| FleetEffects.ServesOwnNames | internal/authapp/zone_reconcile.go:475-508 | every target of a machine bears a name recorded for that machine, or its own name below a domain its project claimed, and the machine's address |
| FleetEffects.HeldByExactly | internal/authapp/zone_reconcile.go:366-368 | without slashes in tenant and project names, a hostname is recorded for a machine iff tenant, project and machine are equal |
| FleetEffects.ClaimByKeyIs | internal/authapp/zone_reconcile.go:356-365 | the claim looked up by project key is the last listed of that project, or there is none |
| FleetEffects.CoveredIff | internal/domain/project_certificate.go:7-15 | a hostname is covered by the wildcard certificate iff, folded, it is one label without a wildcard directly below the domain |
| FleetEffects.StoredCoveredIff | internal/domain/project_certificate.go:7-15 | for names as stored, without any folding |
| FleetEffects.DeletedIff | internal/authapp/zone_reconcile.go:645-685 | a pass deletes exactly the managed A records no target asks for and no target, running or not, bears the name of |
| ZoneFleet.PlanZone | internal/authapp/zone_reconcile.go:630-643 | the loops before the diff compute the zone's plan |
| ZoneFleet.ManagedUnderZone | internal/authapp/zone_reconcile.go:631-655 | every managed name of a zone lies at or under that zone |
| ZoneFleet.ManagedDisjoint | internal/authapp/zone_reconcile.go:396-417 | managed names of different zones inside one Cloudflare zone are disjoint |
| ZoneFleet.WantedManaged | internal/authapp/zone_reconcile.go:585-601 | every name a zone's pass wants is one of its managed names |
| ZoneFleet.WritesConfined | internal/authapp/zone_reconcile.go:620-704 | every record a zone's pass sets or deletes is one of its managed names |
| ZoneFleet.PassAllAt | internal/authapp/zone_reconcile.go:396-417 | the zone loop passes each name once, by the one zone managing it, or leaves it alone |
| ZoneFleet.PassesAnyOrder | internal/authapp/zone_reconcile.go:396-417 | the zone passes reach the same records in any order |
| ZoneFleet.FleetQuiet | internal/authapp/zone_reconcile.go:396-417 | after the whole zone loop every zone it passed is quiet on the shared records |
| ZoneFleet.FleetServes | internal/authapp/zone_reconcile.go:396-417 | after it a name a running target asks for, its own or its wildcard, lists that target's address last iff the last target to ask for the name has the same address |
| FleetEffects.ServedAlone | internal/authapp/zone_reconcile.go:396-417 | after the loop a running machine's own name, or its wildcard, lists that machine's address last when no other machine goes by it |
| FleetEffects.HeldHostnameServed | internal/authapp/zone_reconcile.go:396-417 | over a valid registry a hostname of a running machine does, unless another machine derives it or the name it is the wildcard of |
| ZoneFleet.EarlierMachineNotServed | internal/authapp/zone_reconcile.go:396-417 | a name two machines of different addresses ask for is not served at the earlier one's |
| FleetExample.FleetServesExample | internal/authapp/zone_reconcile.go:396-417 | concretely, machine n at another address holds m.a.z.de, and machine m's derived name is not served at m |
| ReleasedRecords.ChallengeExact | internal/authapp/zone_reconcile.go:1307-1313 | the challenge record stands at `_acme-challenge.` and the hostname's base, shared with its wildcard |
| ReleasedRecords.ReleaseList | internal/authapp/zone_reconcile.go:1262-1298 | the delete loop collects exactly the matching records, in listing order |
| ReleasedRecords.DomainTakesBelow | internal/authapp/zone_reconcile.go:1236-1241 | a released domain takes exactly the A and challenge records strictly below it |
| ReleasedRecords.HostnameTakesIff | internal/authapp/zone_reconcile.go:1247-1258 | a released hostname takes exactly its address, its wildcard's unless it is one, and the challenge at its base |
| ReleasedRecords.ChallengeIff | internal/authapp/zone_reconcile.go:1282-1285 | a challenge record is a TXT record whose first label is `_acme-challenge` |
| ReleasedRecords.TakesBelowIff | internal/authapp/zone_reconcile.go:1236-1241 | it takes some record strictly below another name iff the two names are related |
| ReleasedRecords.DomainReleaseConfined | internal/authapp/projects_api.go:380-391 | in the tables after a plain release no remaining claim loses a record, and a remaining hostname does iff it lies below the released domain, in the same project |
| ReleasedRecords.ReplacementTakesIff | internal/authapp/projects_api.go:349-356 | in the tables after a set-domain, the cleanup of the replaced domain takes records below a current claim iff that is the new claim and the domains are related |
| ReleasedRecords.ReplacementTakesHostnames | internal/authapp/projects_api.go:349-356 | the same cleanup takes records below a current hostname iff it lies below the replaced domain, in the same project |
| ReleasedRecords.ReplacedByChildTakesAll | internal/authapp/projects_api.go:349-356 | a domain replaced by one below it takes every record of the new domain along |
| ReleasedRecords.ReplacedByChildExample | internal/authapp/projects_api.go:349-356 | a.z.de replaced by x.a.z.de: the claim is accepted and the cleanup takes the record of m.x.a.z.de |
| ReleasedRecords.HostnameReleaseConfined | internal/authapp/machine_hostnames_api.go:386-394 | in the tables after a release, no record taken belongs to a remaining hostname, and one at or below a remaining hostname was the same machine's |
| ReleasedRecords.TakesDerivedIff | internal/authapp/zone_reconcile.go:1247-1258 | a released hostname takes an A record of a machine's derived name iff its base is that name, in the same project |
| ReleasedRecords.ReleaseTakesWanted | internal/authapp/zone_reconcile.go:1247-1258 | then the record is one the next pass over the remaining tables wants |
| ReleasedRecords.OtherMachineExample | internal/authapp/zone_reconcile.go:1247-1258 | machine n holds m.a.z.de in a valid registry; its release takes machine m's record |
| LeftoverRecords.LeftoverManagedIff | internal/authapp/machine_hostnames.go:552-565 | a record left over from a released hostname is managed by the next plan iff the name lies below a Project Domain |
| LeftoverRecords.LeftoverStaleIff | internal/authapp/machine_hostnames.go:552-565 | it is stale iff it lies there and no remaining target wants or keeps its name |
| LeftoverRecords.LeftoverStays | internal/authapp/machine_hostnames.go:552-565 | elsewhere no pass over the remaining tables touches the name again |
| LeftoverRecords.LeftoverExample | internal/authapp/machine_hostnames.go:552-565 | concretely, the record of m.z.de, held outside every domain, survives every later pass |
| Certificates.StateMovesOn | internal/authapp/machine_certificates.go:136-156 | with the row fixed and the clock advancing, the state never moves back |
| Certificates.ServesIffUsable | internal/authapp/machine_certificates.go:129-156 | a row is issued, installed or renewing iff it is usable |
| Certificates.UnusableDueIff | internal/authapp/zone_reconcile.go:920-932 | without a usable certificate an order is due iff the next attempt is unset or reached |
| CertificateEffects.StateTable | internal/authapp/machine_certificates.go:136-156 | each state by the row's columns |
| CertificateEffects.TargetOrder | internal/authapp/zone_reconcile.go:912-932 | on the row a target pass leaves, a serving certificate is ordered again iff it is in place and its renewal time is set and reached, any other row iff its next attempt is unset or reached |
| CertificateEffects.ProjectOrder | internal/authapp/project_certificates.go:34-60 | on the row a project pass leaves, a serving certificate is ordered again iff its renewal time is set and reached; a foreign row and a failed renewal-window query order nothing |
| CertificateEffects.ServingPass | internal/authapp/zone_reconcile.go:868-902 | a target pass keeps a serving certificate; it refreshes the renewal window when the check is due, and records a push or a drift |
| CertificateEffects.PushedState | internal/authapp/zone_reconcile.go:896-904 | on a running machine a serving certificate ends installed or renewing iff it was pushed or in place, else issued |
| CertificateEffects.ForeignDirectoryPass | internal/authapp/zone_reconcile.go:868-875 | a certificate of another directory is dropped and ordered again at once |
| CertificateEffects.WaitingPass | internal/authapp/zone_reconcile.go:868-902 | any other row without a serving certificate is left alone, but for the drift of an expired one |
| CertificateEffects.MissingRowPass | internal/authapp/zone_reconcile.go:850-867 | a missing row is created for a machine that carries the marker and ordered at once; a refused request changes nothing |
| CertificateEffects.ReportedExpiry | internal/authapp/zone_reconcile.go:905-911 | the expiry reported is that of the certificate in place, or of the mirrored one while a renewed one waits for its push |
| CertificateEffects.ReasonOf | internal/authapp/machine_certificates.go:159-177 | which words in a failure message, in any letter case, give which reason |
| Certificates.RenewalExact | internal/authapp/machine_certificates.go:318-319 | for lifetimes whose doubling fits 64 bits, the fallback renewal is exactly two thirds in |
| Certificates.RenewalInsideIff | internal/authapp/machine_certificates.go:318-319 | the fallback renewal lies between not-before and not-after iff the lifetime avoids the wrapping range |
| Certificates.RenewalWraps | internal/authapp/machine_certificates.go:318-319 | in that range it falls before not-before |
| CertificateEffects.IssuedRow | internal/authapp/machine_certificates.go:305-335 | the row a successful order leaves: every column, with the stored renewal time exactly two thirds in while the doubling fits, and inside the validity iff the lifetime avoids the wrapping range |
| Certificates.BackoffGrows | internal/authapp/zone_reconcile.go:135-138 | delays never shrink with the count, and the rate-limit step is the longest |
| CertificateEffects.BackoffTable | internal/authapp/zone_reconcile.go:135-138 | the wait after each number of failures |
| CertificateEffects.FailedRow | internal/authapp/machine_certificates.go:454-479 | the row a failed order leaves: one more failure or the last step, its wait, the trimmed message, and nothing else |
| CertificateEffects.SpellingsNameRow | internal/authapp/machine_certificates.go:265-271 | any letter case of a well-formed name, between blanks, names the same row |
| CertificateEffects.RequestEffect | internal/authapp/machine_certificates.go:199-234 | a request is refused iff a column is empty or the project has a certificate row already; otherwise the row takes the owner, keeps a serving certificate to be pushed again, and is blank otherwise |
| CertificateEffects.CollectEffect | internal/authapp/zone_reconcile.go:1196-1216 | a collection keeps the reserved rows and the serving certificates, unchanged, and no others |
| CertificateEffects.ProjectRow | internal/authapp/project_certificates.go:39-58 | a project pass blanks its row on any change of directory, and refreshes the renewal window of a serving certificate when the check is unset or due |
| CertificateEffects.MissingProjectRow | internal/authapp/project_certificates.go:20-33 | a project without a row gets one under the project's own owner name, ordered at once |
| CertificateEffects.ServeEffect | internal/authapp/project_certificates.go:62-94 | a project certificate is recorded as pushed iff a running machine lacked it and took it |
| CertificateDbs.CertificateDb.Request | internal/authapp/machine_certificates.go:199-234 | insert, keep a usable row, or reset, as one step of the model |
| CertificateDbs.CertificateDb.StoreIssued | internal/authapp/machine_certificates.go:305-335 | stores the certificate and clears the failures; the directory stays; a missing row is an error |
| CertificateDbs.CertificateDb.UpdateAri | internal/authapp/machine_certificates.go:425-438 | both statements together set the window when known and the next check always |
| CertificateDbs.CertificateDb.RecordFailure | internal/authapp/machine_certificates.go:454-479 | attempts, next attempt and error of one failure, rate limits jumping to the last step |
| CertificateDbs.CertificateDb.Collect | internal/authapp/zone_reconcile.go:1196-1216 | the loop leaves exactly the rows that are live or usable |
| CertificateDbs.CertificateDb.ReleaseDomain | internal/authapp/project_domain_claims.go:526-536 | a released domain takes its own row and every row below it |
| CertificateReleases.ReleaseDropsIff | internal/authapp/machine_certificates.go:499-520 | a release drops exactly the rows at or below the domain |
| CertificateReleases.ReleaseDropsHostnameRows | internal/authapp/project_domain_claims.go:526-536 | in the tables after a release, a remaining hostname's row is dropped iff the hostname lies below the released domain |
| CertificateReleases.ReplacementDropsRows | internal/authapp/projects_api.go:349-356 | in the tables after a set-domain, the cleanup drops every row of the new domain if that lies below the old one, and none if they are unrelated |
| CertificateReleases.MovedBelowDropsOwnRow | internal/authapp/projects_api.go:349-356 | a project that moves to a domain below its own loses the new domain's own row |
| CertificateReleases.ReplacementDropsExample | internal/authapp/projects_api.go:349-356 | concretely, a.z.de replaced by x.a.z.de |
| CertificateDbs.CertificateDb.ReconcileTarget | internal/authapp/zone_reconcile.go:841-916 | the statements make exactly the pass whose order `TargetOrder` and whose row `ServingPass`, `ForeignDirectoryPass`, `WaitingPass` and `MissingRowPass` describe |
| CertificateDbs.CertificateDb.ReconcileProject | internal/authapp/project_certificates.go:20-60 | the statements make exactly the pass whose order `ProjectOrder` and whose row `ProjectRow` and `MissingProjectRow` describe |
| CertificateDbs.CertificateDb.ServeProjectCertificate | internal/authapp/project_certificates.go:62-94 | only a usable project certificate is pushed, to a running machine that lacks it |
| CertificateRuns.RunRowsOk | internal/authapp/machine_certificates.go:51-51 | over every run rows stay under their own names, certificates have serials, and a project has at most one certificate |
| CertificateRuns.RunRetains | internal/authapp/zone_reconcile.go:841-916 | a certificate usable to the end of a run stays in its row through every step but a newly stored one or its domain's release |
| CertificateRuns.RunBacksOff | internal/authapp/machine_certificates.go:454-479 | over every run attempts is zero iff no next attempt is set; otherwise it is the last failure plus its delay, and delays never shrink |
| CertificateRuns.FailureBacksOff | internal/authapp/machine_certificates.go:454-479 | a failure extends the streak, and a rate limit waits six hours |
| CertificateRuns.OrderWaits | internal/authapp/zone_reconcile.go:912-932 | over every run no pass asks for an order of an unusable row before the last failure's wait is over |
| CertificateRuns.ProjectOrderWaits | internal/authapp/project_certificates.go:50-58 | the same for the order decision of a project pass |
| CertificateRuns.RerequestIsIssued | internal/authapp/machine_certificates.go:214-218 | re-requesting a usable row keeps the certificate, gives issued and makes no order due |
| CertificateRuns.RequestIsPending | internal/authapp/machine_certificates.go:206-228 | requesting any other row gives pending with an order due at once |
| CertificateRuns.StoredUsableIff | internal/authapp/machine_certificates.go:320-327 | a stored certificate is usable iff the row names the running directory and it is not expired |
| CertificateRuns.OrderKeptIff | internal/authapp/zone_reconcile.go:868-916 | pass, order, pass: the certificate is kept iff the row held one before or already named the running directory; otherwise the second pass clears it and asks for another order |
| CertificateRuns.RestartWastesOrder | internal/authapp/zone_reconcile.go:868-916 | every row requested under one directory and first passed under another wastes its order |
| CertificateRuns.ProjectOrderKept | internal/authapp/project_certificates.go:39-44 | a project pass resets on any change of directory, so its order is always kept |
| Scheduler.OrderScheduler.Schedule | internal/authapp/zone_reconcile.go:1101-1121 | starts exactly the picked candidates and adds their hostnames to the set |
| Scheduler.CallPromises | internal/authapp/zone_reconcile.go:1099-1121 | a call starts new, distinct hostnames in order of their due times, keeps the limit of 4, and passes a candidate over only when 4 are in flight and nothing started is due later |
| Scheduler.RunBounded | internal/authapp/zone_reconcile.go:1101-1142 | in every interleaving at most 4 orders are live, no hostname has two, and the set is exactly the live hostnames |
| FileCache.ReadCache.ReadFile | internal/authapp/zone_reconcile.go:213-240 | a young entry answers; otherwise the live answer is returned and, unless unreachable, remembered |
| FileCache.ReadCache.MarkProjectDirty | internal/authapp/zone_reconcile.go:194-202 | the loop drops exactly the project's machines |
| FileCache.RememberedIsGiven | internal/authapp/zone_reconcile.go:213-240 | a found or not-found answer is given again while younger than the TTL, an unreachable one never, and no other entry changes |
| FileCache.CleanDrops | internal/authapp/zone_reconcile.go:194-202 | a mark drops the machines of the marked project whole and keeps every other machine's entries |
| FileCache.SerialRead | internal/authapp/zone_reconcile.go:213-240 | an undisturbed read is lookup, live read and store in a row |
| FileCache.AnswersAreLive | internal/authapp/zone_reconcile.go:192-240 | when only pushes write, every answer of every run is the file's current content, not-found, or that the instance is unreachable |
| FileCache.AnswersAreFresh | internal/authapp/zone_reconcile.go:192-240 | with outside writers a remembered answer is younger than the TTL, read after the last push, and stored after the last dirty mark |
| FileCache.MarkLostIff | internal/authapp/zone_reconcile.go:192-202 | a dirty mark leaves an entry of its project behind iff it falls inside that entry's read |
| FileCache.MarkLostServesOld | internal/authapp/zone_reconcile.go:226-238 | then the old content is served within the TTL although the file changed |
| FileCache.MarkLostReachable | internal/authapp/zone_reconcile.go:192-240 | such a run exists from an empty cache: lookup, live read, write, dirty mark, store |
| NamedLock.LockTable.TryLock | internal/authapp/acme_storage.go:59-75 | the locked section takes a free name with a fresh channel, or returns the holder's channel |
| NamedLock.LockTable.Unlock | internal/authapp/acme_storage.go:79-89 | removes the name and closes its channel; an unheld name is an error |
| NamedLock.EnterAnswers | internal/authapp/acme_storage.go:59-75 | a free name is taken alone; a held one answers its holder's channel and changes nothing |
| NamedLock.LeaveAnswers | internal/authapp/acme_storage.go:79-89 | a held name is freed alone and its channel closed; any other is refused and changes nothing |
| NamedLock.RunKeeps | internal/authapp/acme_storage.go:59-89 | in every interleaving a name has at most one holder and every waiter's channel is the holder's or closed |
| NamedLock.FreeNameServesWaiters | internal/authapp/acme_storage.go:59-75 | a waiter of a free name can be woken and take it |
| NamedLock.ReleaseWakesAll | internal/authapp/acme_storage.go:79-89 | a release enables every waiter of the name |
| NamedLock.StrayUnlockIff | internal/authapp/acme_storage.go:77-89 | an unlock by a non-holder keeps the invariant iff the name is not held |
| NamedLock.StrayUnlockTwoHolders | internal/authapp/acme_storage.go:77-89 | otherwise the next caller holds the name too |
| NamedLock.StrayUnlockReachable | internal/authapp/acme_storage.go:59-89 | from an empty table, lock, stray unlock and a second lock lead there |
| StorageKeys.LikePrefixExact | internal/authapp/acme_storage.go:230-234 | the escaped pattern matches exactly the strings whose folded form starts with the folded prefix |
| StorageKeys.LeadingIsPathPrefix | internal/authapp/acme_storage.go:177-184 | joining the leading segments of a key gives exactly its path prefixes |
| AcmeStorage.Storage.List | internal/authapp/acme_storage.go:149-194 | the listing is sorted, duplicate-free, exactly the selected keys' contributions, and not-exist iff nothing is there |
| AcmeStorage.NotExistIff | internal/authapp/acme_storage.go:149-194 | a listing is refused iff its prefix is not empty, nothing below it is stored, and the prefix, cleaned once more, is not stored |
| AcmeStorage.CleanPrefixNotExist | internal/authapp/acme_storage.go:149-194 | without blanks at the ends of the prefix, iff neither it nor anything below it is stored |
| AcmeStorage.CleanKeyOf | internal/authapp/acme_storage.go:219-221 | a key between blanks and slashes is stored without them |
| AcmeStorage.ListingIsTree | internal/authapp/acme_storage.go:149-194 | without case-only clashes the listing is the immediate children, or all descendants and directories when recursive |
| AcmeStorage.ListingIsTreeIff | internal/authapp/acme_storage.go:149-194 | a listing is that tree iff every name contributed by a key that differs from the prefix in case is in the tree anyway |
| AcmeStorage.ClashIsListed | internal/authapp/acme_storage.go:173-184 | a key differing from the prefix in case only is listed below it although it is not there, recursive or not |
| AcmeStorage.ClashExample | internal/authapp/acme_storage.go:173-184 | concretely, with only "A/b" stored, listing "a" answers "a/A" |
| AcmeStorage.ExistsIff | internal/authapp/acme_storage.go:134-143 | a key exists iff it or something below its folded name is stored |
| AcmeStorage.DeleteExact | internal/authapp/acme_storage.go:124-132 | a delete removes exactly the key and what is below its folded name, after which it does not exist |
| HostnameViews.SortViews | internal/authapp/machine_hostnames_api.go:179-185 | the in-place insertion sort is the stable sort: the same views, listed by hostname |
| Caddyfile.RenderCaddyfile | internal/authapp/routes_caddy.go:88-138 | the builder loop produces the file that `HeadShows`, `LastRouteShows` and `EveryRouteShows` describe |
| Caddyfile.RenderAnyOrder | internal/authapp/routes_caddy.go:117-119 | the file depends on which routes there are, not on their order |
| CaddyfileText.EveryRouteShows | internal/authapp/routes_caddy.go:117-135 | every route with a hostname has its block in the file, proxying to its own local port, with the TLS line its mode calls for |
| CaddyfileText.LastRouteShows | internal/authapp/routes_caddy.go:117-135 | the last route in hostname order adds its block at the end, one without a hostname nothing |
| CaddyfileText.HeadShows | internal/authapp/routes_caddy.go:94-115 | without routes the file is the global block, with the e-mail and the ask endpoint when set, and the login site |
| CaddyfileText.NumberReadsBack | internal/authapp/routes_caddy.go:133-133 | the printed port reads back to the port |
| CaddyfileText.UsesDns01Iff | internal/authapp/routes_caddy.go:140-151 | the DNS challenge is used iff the provider is Cloudflare and the operator listed this wildcard host |
| Caddyfile.NormalizeWildcards | internal/authapp/routes_caddy.go:153-165 | every folded non-empty hostname, each once |
| RouteManagerDbs.RouteManager.PublishRoute | internal/authapp/route_manager.go:100-130 | the statements stop at the first failure and make exactly the step that `PublishAnswers`, `PublishWires` and `FailedPublishWires` describe |
| RouteManagerDbs.RouteManager.DeletePublished | internal/authapp/route_manager.go:133-142 | row, device, Caddyfile, stopping at the first failure |
| RouteManagerDbs.RouteManager.ReconcileRoutes | internal/authapp/route_manager.go:153-188 | the loop prunes, refreshes or keeps each route as `ReconcileSettles` describes, and re-renders only when something was pruned |
| RouteEffects.PublishAnswers | internal/authapp/route_manager.go:100-130 | the answers of a publish, each with the machine state and step it is given to |
| RouteEffects.PublishWires | internal/authapp/route_manager.go:100-130 | after an error-free publish the route's device listens on its local port and connects to its backend port at the machine's address, and the other devices are as before |
| RouteEffects.FailedPublishWires | internal/authapp/route_manager.go:121-129 | a publish that fails at the device leaves every device, one that fails at Caddy has wired its own |
| RouteEffects.NewRouteAnswers | internal/authapp/routes.go:73-132 | the answers to a complete request for a new hostname: inside a named domain or hostname, no port of the range free, the row exists, or published |
| RouteEffects.InsertedRow | internal/authapp/routes.go:73-132 | a new route adds one row with the trimmed request under the lowest free port, and keeps the others |
| RouteEffects.DeleteUnwires | internal/authapp/route_manager.go:133-142 | a delete takes the row, then its device, then the block, each only after the step before it succeeded |
| RouteEffects.ReconcileSettles | internal/authapp/route_manager.go:153-188 | after an error-free pass each device is decided by the last listed running or absent route of its name, and the count is that of the absent machines' routes |
| RouteEffects.PublishedRouteReached | internal/authapp/route_manager.go:100-130 | after an error-free publish of a well-formed hostname its block proxies to the port its device listens on |
| RouteEffects.WiredRouteReached | internal/authapp/route_manager.go:153-188 | so does the block of every wired route while Caddyfile and registry agree |
| RouteEffects.RouteNameOf | internal/authapp/routes.go:64-69 | a stored well-formed route is compared by its name without the wildcard label |
| RouteManagers.SweptDevicesIff | internal/authapp/route_manager.go:166-180 | after an error-free pass a running machine's route has a device listening on its local port and connecting to its backend port at the current address, iff no later listed route of the same normalized hostname is running or absent |
| RouteManagers.SweptDevices | internal/authapp/route_manager.go:166-180 | with stored hostnames in normal form every running machine's route has such a device |
| RouteManagers.PrunesExactlyIff | internal/authapp/route_manager.go:166-173 | an error-free pass removes exactly the routes of absent machines iff their hostnames are in normal form |
| RouteRuns.PortFreeIff | internal/authapp/routes.go:136-161 | with distinct ports in range, a free one is found iff fewer than 10000 routes exist |
| RouteRuns.PublishFindsPort | internal/authapp/routes.go:116-119 | a publish runs out of ports only with all 10000 taken |
| RouteRuns.ReconcileAgreesIff | internal/authapp/route_manager.go:182-187 | an error-free pass ends with Caddyfile and registry in agreement iff it began so or pruned something |
| RouteRuns.PassFailsIff | internal/authapp/route_manager.go:153-188 | a pass fails iff a needed device call fails or a needed Caddy reload does |
| RouteRuns.FailedPassAgreesIff | internal/authapp/route_manager.go:166-187 | a failed pass leaves agreement iff no absent route, up to and including the one that ended it, names a stored row |
| RouteRuns.FailedPassExample | internal/authapp/route_manager.go:166-187 | one absent machine whose device removal fails leaves a stale Caddyfile that no later error-free pass repairs |
| RouteRuns.FailedPublishAgreesIff | internal/authapp/route_manager.go:100-130 | a failed publish leaves agreement iff it inserted no row |
| RouteRuns.FailedPublishExample | internal/authapp/route_manager.go:123-125 | concretely, a first publish whose device call fails |
| RouteRuns.FailedDeleteAgreesIff | internal/authapp/route_manager.go:133-142 | a failed delete leaves agreement iff it was refused or its statement hit no row |
| RouteRuns.FailedDeleteExample | internal/authapp/route_manager.go:138-140 | concretely, a delete whose device removal fails |
| RouteRuns.StaleStays | internal/authapp/route_manager.go:182-187 | a stale Caddyfile stays stale through later passes that find all machines present |
| RouteRuns.RunKeepsRoutes | internal/authapp/route_manager.go:100-188 | over every run ports are distinct and in range, and error-free runs keep the Caddyfile the render of the registry |
| RouteHostnames.HandlerValidates | internal/authapp/routes_api.go:372-396 | every hostname the publish handler accepts is well formed, given well-formed tenant and base names |
| RouteHostnames.HandlerAnswers | internal/authapp/routes_api.go:372-396 | the hostname a publish gets: a custom one iff its base is well spelled, of at least two labels of at most 63 and 253 characters in all; else label or machine below tenant and base |
| RouteHostnames.RunKeepsNormalForm | internal/authapp/routes.go:64-132 | over every run of validated publishes the stored hostnames are in normal form |
| RouteHostnames.ValidatedRunPrunesExactly | internal/authapp/route_manager.go:153-188 | after such a run an error-free pass prunes exactly the routes of absent machines |
| RouteHostnames.ValidatedRunWires | internal/authapp/route_manager.go:153-188 | and every running machine's route has a device listening on its local port and connecting to its backend port at the current address |
| RouteHostnames.DottedRouteSurvives | internal/authapp/route_manager.go:100-130 | a direct publish of a name with two trailing dots stores a row that no pass removes |
| RouteHostnames.SpellingsShareDevice | internal/authapp/route_manager.go:297-300 | a name and its dotted spelling, both published directly, share one device, and the plain route is not wired |
| Cidr.OverlapExact | internal/cidr/allocator.go:83-85 | on masked prefixes the two-address check is true iff they share an address |
| Cidr.WordRoundTrip | internal/cidr/allocator.go:92-104 | a word survives the conversion to an address and back |
| Cidr.AddressRoundTrip | internal/cidr/allocator.go:92-104 | an address survives the conversion to a word and back |
| CidrAllocator.Allocate | internal/cidr/allocator.go:10-48 | checks in order, then the search, in 32-bit arithmetic |
| CidrAllocator.BlockAdmitted | internal/cidr/allocator.go:87-90 | masking and the containment check never reject a block of the pool |
| CidrAllocator.LowestAvailable | internal/cidr/allocator.go:37-46 | the block is aligned, inside the pool, shares no address with anything occupied, and is the lowest such |
| CidrAllocator.AllocatesIff | internal/cidr/allocator.go:10-48 | the call succeeds iff its arguments pass, the pool ends below 2^32 and some block is available |
| CidrAllocator.AllocationAnswers | internal/cidr/allocator.go:10-34 | each refusal with the arguments it is given to, zero bits standing for 24, and the size of an allocated block |
| CidrAllocator.OccupiedAre | internal/cidr/allocator.go:62-73 | every occupied prefix that parses blocks its masked range |
| CidrAllocator.LastPoolNeverAllocates | internal/cidr/allocator.go:35-37 | a pool reaching the end of the address space never allocates |
| CidrAllocator.LastPoolExample | internal/cidr/allocator.go:35-47 | 255.0.0.0/8 with nothing occupied is reported exhausted |
| CidrAllocator.FeedHandsOutAll | internal/cidr/allocator.go:37-47 | feeding results back hands out every block in order: exactly 2^(tenantBits - poolBits) successes |
| CidrAllocator.FeedDisjoint | internal/cidr/allocator.go:37-47 | blocks handed out one after the other share no address |

## Left out

- HTTP decoding and status mapping, templates, CLI, the Cloudflare, Incus and GitHub clients, certmagic, and SQL
  text and errors: their answers are parameters, and a statement either happens or the call is not made.
- PEM and X.509 parsing, encryption and serial formatting: a stored certificate is opaque text that is not blank
  and has a serial.
- libdns: `SetRecords` is taken to replace all A records of the names it is given, `DeleteRecords` to remove the
  given records, `RelativeName` to trim the zone and one trailing dot; a record's TTL is not modelled. IPv6
  addresses are records of another type.
- Non-ASCII case folding and white space.
- Zone snapshots: `ReconcileFleet` reads claims and hostnames in two queries and a zone's credentials later; the
  fleet theorems take one snapshot of the tables that satisfies the invariant.
- Zone rows with an empty Cloudflare zone, left by an older schema, stand for the zone's own name; the invariant
  covers rows that record one.
- ReleasedRecords.DomainReleaseConfined: is about the tables right after the release; a claim made between the
  release and its cleanup is not covered.
- ReleasedRecords.ReplacementTakesIff: the same between a set-domain and its cleanup.
- RouteHostnames.HandlerValidates: takes tenant and base names to be well formed, as their own checks, which are not
  part of this model, leave them.
- ReleasedRecords.TakesDerivedIff: a machine's lower-cased name is one DNS label, as Incus requires.
- Tunnel and tailnet publications: a tunnel that already publishes the name is a parameter of the hostname claim.
- Interleavings inside one registry call, one certificate pass, one `UpsertRoute` or one `AddPublicDNSZone`:
  each is one step. The two claim functions hold SQLite's write lock; for the others atomicity is assumed.
- The zone list is read before a claim takes the write lock; a zone removed in between makes the insert fail on
  its foreign key. The model reads the list inside the step.
- RegistryInvariant.RunKeeps: the compensation restore is not one of the steps, because it breaks the invariant
  exactly as `RestoreKeepsIff` says.
- ZoneRecords.PassConverges: provider calls succeed; a failed call is only an error for the next pass.
- ZoneFleet.PassesAnyOrder: states the addresses of every name, not the position of records in a listing.
- LeftoverRecords.LeftoverStays: is about passes over the tables as the release left them; a later claim or hostname
  over the name may manage the record again.
- ZoneFleet.ClassifyMachine: two targets of equal hostname keep their order, where the source's sort may not.
- FleetEffects.HeldHostnameServed: the fleet lists every machine once; two entries under one tenant, project and
  machine name are not covered.
- Certificates.RenewalExact: years outside 1 to 9999, which the stored format cannot hold, are not cut off.
- CertificateRuns.RunRetains: passes, requests and order completions fall between one another, not inside.
- CertificateDbs.CertificateDb.ReleaseDomain: the `LIKE` comparison is on names already lower-cased.
- Backoff of renewals: a row that is installed or renewing ignores its next attempt, as the code does.
- Real-time spacing of orders across interleavings, the resource cache seed and the dirty set of the server loop.
- NamedLock.RunKeeps: fairness and liveness beyond "some step is enabled" are not stated.
- AcmeStorage.Storage.List: values, modification times and `Stat` are not part of the model.
- Collisions of the hash in proxy device names: a device is found by its route's normalized hostname.
- The shared front's hostname list, which is best effort, and route status probes.
- `RoleAddress`, tenant shares, provisioning, image builds and self-update: they would add only easy members.
- CIDR and address text: a prefix is already parsed, and text that does not parse is a parameter.
