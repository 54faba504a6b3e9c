/**
 Machine Certificate rows: what is derived from a row, and what each update does to the table.

 Times are whole seconds, the precision of the stored columns; None is an empty column. A certificate
 is opaque text with a serial, a fingerprint and a validity.
 */
module Certificates {
  import opened Text
  import opened Names

  // ---------------------------------------------------------------- rows

  datatype Row = Row(
    hostname: string, tenant: string, project: string, machine: string, zone: string, directory: string,
    cert: string, key: string, serial: string, fingerprint: string,
    notBefore: Option<int>, notAfter: Option<int>, renewAfter: Option<int>, ariCheckAfter: Option<int>,
    pushedSerial: string, lastError: string, attempts: int, nextAttempt: Option<int>,
    requestedAt: int, createdAt: int, updatedAt: int)

  /** The table, by its primary key. */
  type Rows = map<string, Row>

  const PROJECT_OWNER := "@project"

  /** How every statement spells the hostname it looks up. */
  function CertKey(hostname: string): string {
    Lower(TrimSpace(hostname))
  }

  predicate HasCertificate(row: Row) {
    TrimSpace(row.cert) != ""
  }

  /** `t.After(now)`, where an empty column is the zero time. */
  predicate After(t: Option<int>, now: int) {
    t.Some? && t.value > now
  }

  predicate Usable(row: Row, directory: string, now: int) {
    HasCertificate(row) && row.directory == directory && After(row.notAfter, now)
  }

  // ---------------------------------------------------------------- derived state

  datatype Reason = RateLimited | DnsPropagation | CloudflareRejected | Validation | AuthAppUnreachable | Expired | OtherReason | NoReason

  datatype State = Pending | Failed(reason: Reason) | Issued | Installed | Renewing

  predicate Mentions(s: string, parts: seq<string>) {
    exists p :: p in parts && Contains(s, p)
  }

  /** `acmeFailureReason`. */
  function FailureReason(raw: string): Reason {
    var s := Lower(raw);
    if TrimSpace(s) == "" then NoReason
    else if Mentions(s, ["ratelimited", "rate limit", "too many"]) then RateLimited
    else if Mentions(s, ["propagat", "not yet visible", "waiting for dns"]) then DnsPropagation
    else if Mentions(s, ["cloudflare"]) then CloudflareRejected
    else if Mentions(s, ["unauthorized", "validation", "challenge", "authorization"]) then Validation
    else if Mentions(s, ["unreachable", "connection refused", "no such host", "timeout"]) then AuthAppUnreachable
    else OtherReason
  }

  /** `machineCertificateState`. */
  function StateOf(row: Row, directory: string, now: int): State {
    if HasCertificate(row) && row.directory != directory then Pending
    else if !HasCertificate(row) then
      if TrimSpace(row.lastError) == "" then Pending else Failed(FailureReason(row.lastError))
    else if !After(row.notAfter, now) then Failed(Expired)
    else if row.pushedSerial != row.serial then Issued
    else if row.renewAfter.Some? && row.renewAfter.value <= now then Renewing
    else Installed
  }

  datatype Due = NotDue | DueSince(at: Option<int>)

  /** `orderDue`. */
  function OrderDue(row: Row, state: State, now: int): Due {
    match state
    case Pending => RetryDue(row, now)
    case Failed(_) => RetryDue(row, now)
    case Issued => NotDue
    case _ => if row.renewAfter.Some? && row.renewAfter.value <= now then DueSince(row.renewAfter) else NotDue
  }

  function RetryDue(row: Row, now: int): Due {
    if row.nextAttempt.None? || row.nextAttempt.value <= now then DueSince(row.nextAttempt) else NotDue
  }

  /** What the clock alone may do to a state. */
  predicate MovesOn(s: State, later: State) {
    || later == s
    || (s == Installed && later == Renewing)
    || ((s == Issued || s == Installed || s == Renewing) && later == Failed(Expired))
  }

  /** With the row fixed and the clock advancing, the state never moves back. */
  lemma StateMovesOn(row: Row, directory: string, now: int, later: int)
    requires now <= later
    ensures MovesOn(StateOf(row, directory, now), StateOf(row, directory, later))
    ensures MovesOn(StateOf(row, directory, later), StateOf(row, directory, now)) ==>
              StateOf(row, directory, now) == StateOf(row, directory, later)
  {}

  /** A row is issued, installed or renewing exactly when its certificate can serve a machine. */
  lemma ServesIffUsable(row: Row, directory: string, now: int)
    ensures var s := StateOf(row, directory, now);
            (s == Issued || s == Installed || s == Renewing) <==> Usable(row, directory, now)
  {}

  /** Without a usable certificate, an order is due exactly when the next attempt is unset or reached. */
  lemma UnusableDueIff(row: Row, directory: string, now: int)
    requires !Usable(row, directory, now)
    ensures OrderDue(row, StateOf(row, directory, now), now) == RetryDue(row, now)
  {}

  // ---------------------------------------------------------------- renewal time

  const SECOND := 1_000_000_000
  const MAX64 := 0x7fff_ffff_ffff_ffff
  const MIN64 := -0x8000_0000_0000_0000

  /** Go's `Time.Sub` of whole seconds, in nanoseconds: it saturates. */
  function Sub(a: int, b: int): int {
    var d := (a - b) * SECOND;
    if d > MAX64 then MAX64 else if d < MIN64 then MIN64 else d
  }

  /** Two's-complement wrap-around of a 64-bit product. */
  function Wrap64(x: int): int {
    (x - MIN64) % 0x1_0000_0000_0000_0000 + MIN64
  }

  /** Division truncates toward zero. */
  function TruncDiv(x: int, y: int): int
    requires y > 0
  {
    if x >= 0 then x / y else -((-x) / y)
  }

  /** The stored fallback renewal time: not-before plus two thirds of the lifetime, cut to the second. */
  function FallbackRenewal(notBefore: int, notAfter: int): int {
    notBefore + TruncDiv(Wrap64(Sub(notAfter, notBefore) * 2), 3) / SECOND
  }

  const DOUBLING_FITS := 4_611_686_018
  const SATURATES := 9_223_372_037

  /** Lifetimes whose doubling fits in 64 bits: the renewal time is exactly two thirds in. */
  lemma RenewalExact(notBefore: int, notAfter: int)
    requires 0 <= notAfter - notBefore <= DOUBLING_FITS
    ensures FallbackRenewal(notBefore, notAfter) == notBefore + (notAfter - notBefore) * 2 / 3
  {
    var l := notAfter - notBefore;
    assert Sub(notAfter, notBefore) == l * SECOND;
    assert Wrap64(l * SECOND * 2) == l * SECOND * 2;
    ScaledThird(l * 2);
  }

  lemma ScaledThird(x: int)
    requires x >= 0
    ensures x * SECOND / 3 / SECOND == x / 3
  {
    var q, r := x / 3, x % 3;
    assert x * SECOND == q * SECOND * 3 + r * SECOND;
    assert x * SECOND / 3 == q * SECOND + r * SECOND / 3;
  }

  /** The renewal time lies inside the validity exactly for lifetimes up to 146 or from 292 years on. */
  lemma RenewalInsideIff(notBefore: int, notAfter: int)
    ensures notBefore <= FallbackRenewal(notBefore, notAfter) <= notAfter <==>
            0 <= notAfter - notBefore <= DOUBLING_FITS || notAfter - notBefore >= SATURATES
  {
    var l := notAfter - notBefore;
    if 0 <= l <= DOUBLING_FITS {
      RenewalExact(notBefore, notAfter);
    } else if l >= SATURATES {
      assert Sub(notAfter, notBefore) == MAX64;
      assert Wrap64(MAX64 * 2) == -2;
    } else if l > DOUBLING_FITS {
      RenewalWraps(notBefore, notAfter);
    }
  }

  /** In between, the doubled lifetime wraps and the renewal time falls before not-before. */
  lemma RenewalWraps(notBefore: int, notAfter: int)
    requires DOUBLING_FITS < notAfter - notBefore < SATURATES
    ensures FallbackRenewal(notBefore, notAfter) < notBefore
  {
    var l := notAfter - notBefore;
    assert Sub(notAfter, notBefore) == l * SECOND;
    var w := l * SECOND * 2 - 0x1_0000_0000_0000_0000;
    assert Wrap64(l * SECOND * 2) == w && w <= -1_000_000_000;
    assert TruncDiv(w, 3) < 0;
  }

  // ---------------------------------------------------------------- row updates

  /** The certificate of a successful order; a chain that parses has text and a serial. */
  datatype LeafData = LeafData(cert: string, key: string, serial: string, fingerprint: string, notBefore: int, notAfter: int)

  type Leaf = leaf: LeafData | TrimSpace(leaf.cert) != "" && leaf.serial != "" witness LeafData("c", "", "0", "", 0, 0)

  const SIX_HOURS := 21_600
  const BACKOFF: seq<int> := [60, 300, 1_800, 7_200, 21_600]

  /** The cleared row: no certificate, no schedule, no failures, under `directory`. */
  function Fresh(row: Row, directory: string, now: int): Row {
    row.(directory := directory, cert := "", key := "", serial := "", fingerprint := "", notBefore := None,
         notAfter := None, renewAfter := None, ariCheckAfter := None, pushedSerial := "", lastError := "",
         attempts := 0, nextAttempt := None, requestedAt := now, updatedAt := now)
  }

  datatype Request = Request(hostname: string, tenant: string, project: string, machine: string, zone: string)

  predicate Complete(req: Request, directory: string) {
    && CertKey(req.hostname) != "" && req.tenant != "" && req.project != "" && req.machine != "" && req.zone != ""
    && directory != ""
  }

  /** The partial unique index: another row is already the project's certificate. */
  predicate OwnerTaken(rows: Rows, req: Request) {
    && req.machine == PROJECT_OWNER
    && exists h :: h in rows && h != CertKey(req.hostname) && rows[h].machine == PROJECT_OWNER
                   && rows[h].tenant == req.tenant && rows[h].project == req.project
  }

  function Requested(rows: Rows, req: Request, directory: string, now: int): Row {
    var h := CertKey(req.hostname);
    if h !in rows then
      Row(h, req.tenant, req.project, req.machine, req.zone, directory, "", "", "", "", None, None, None, None, "", "", 0,
          None, now, now, now)
    else
      var owned := rows[h].(tenant := req.tenant, project := req.project, machine := req.machine, zone := req.zone);
      if Usable(rows[h], directory, now) then owned.(pushedSerial := "", requestedAt := now, updatedAt := now)
      else Fresh(owned, directory, now)
  }

  /** `requestMachineCertificate`; false is an error answer. */
  function RequestRow(rows: Rows, req: Request, directory: string, now: int): (Rows, bool) {
    if !Complete(req, directory) || OwnerTaken(rows, req) then (rows, false)
    else (rows[CertKey(req.hostname) := Requested(rows, req, directory, now)], true)
  }

  /** An `UPDATE … WHERE hostname`: nothing happens when no row matches. */
  function Update(rows: Rows, hostname: string, change: Row -> Row): (r: Rows)
    ensures r.Keys == rows.Keys
  {
    var h := CertKey(hostname);
    if h in rows then rows[h := change(rows[h])] else rows
  }

  function Stored(leaf: Leaf, now: int): Row -> Row {
    (row: Row) => row.(
      cert := leaf.cert, key := leaf.key, serial := leaf.serial, fingerprint := leaf.fingerprint,
      notBefore := Some(leaf.notBefore), notAfter := Some(leaf.notAfter),
      renewAfter := Some(FallbackRenewal(leaf.notBefore, leaf.notAfter)), ariCheckAfter := Some(now + SIX_HOURS),
      lastError := "", attempts := 0, nextAttempt := None, updatedAt := now)
  }

  function Cleared(directory: string, now: int): Row -> Row {
    (row: Row) => Fresh(row, directory, now)
  }

  function AriStored(renewAfter: Option<int>, checkAfter: int, now: int): Row -> Row {
    (row: Row) => row.(renewAfter := if renewAfter.Some? then renewAfter else row.renewAfter,
                       ariCheckAfter := Some(checkAfter), updatedAt := now)
  }

  function PushRecorded(serial: string, now: int): Row -> Row {
    (row: Row) => row.(pushedSerial := serial, updatedAt := now)
  }

  /** The wait after the given number of failures. */
  function Backoff(attempts: int): int {
    BACKOFF[if attempts - 1 >= |BACKOFF| then |BACKOFF| - 1 else if attempts < 1 then 0 else attempts - 1]
  }

  /** The failure count after one more failure; a rate limit jumps to the last step. */
  function Attempts(before: int, text: string): int {
    if FailureReason(text) == RateLimited then |BACKOFF| else before + 1
  }

  function FailureRecorded(message: string, now: int): Row -> Row {
    (row: Row) =>
      var text := TrimSpace(message);
      var attempts := Attempts(row.attempts, text);
      row.(lastError := text, attempts := attempts, nextAttempt := Some(now + Backoff(attempts)), updatedAt := now)
  }

  /** Delays never shrink while failures accumulate, and a rate limit waits longest. */
  lemma BackoffGrows(a: int, b: int)
    requires a <= b
    ensures Backoff(a) <= Backoff(b) <= Backoff(|BACKOFF|)
  {
    assert forall i :: 0 <= i < |BACKOFF| ==> BACKOFF[i] == if i == 0 then 60 else if i == 1 then 300 else if i == 2 then 1_800 else if i == 3 then 7_200 else 21_600;
  }

  // ---------------------------------------------------------------- deletions

  /** The rows the certificate GC keeps: still reserved, or still worth retaining. */
  function Collected(rows: Rows, live: set<string>, directory: string, now: int): Rows {
    map h | h in rows && (h in live || Usable(rows[h], directory, now)) :: rows[h]
  }

  /** A released Project Domain takes its own row and every row below it along. */
  predicate GoesWith(hostname: string, domain: string) {
    var d := Lower(TrimDots(TrimSpace(domain)));
    hostname == CertKey(domain) || (d != "" && StrictlyUnder(hostname, d))
  }

  function Released(rows: Rows, domain: string): Rows {
    map h | h in rows && !GoesWith(h, domain) :: rows[h]
  }

  // ---------------------------------------------------------------- passes

  datatype Ari = AriError | AriInfo(renewAfter: Option<int>, retryAfter: Option<int>)

  function AriChange(ari: Ari, now: int): Row -> Row {
    match ari
    case AriError => AriStored(None, now + SIX_HOURS, now)
    case AriInfo(renewAfter, retryAfter) =>
      AriStored(renewAfter, if After(retryAfter, now) then retryAfter.value else now + SIX_HOURS, now)
  }

  datatype Drift = DriftUnknown | Drifted | InPlace

  /** What the machine and the CA answer during one target's pass. */
  datatype Answers = Answers(markerReady: bool, ari: Ari, drift: Drift, pushed: bool)

  datatype CertTarget = CertTarget(request: Request, running: bool, mirroredNotAfter: Option<int>)

  datatype Outcome = Outcome(state: State, notAfter: Option<int>, due: Due)

  function AfterDirectory(rows: Rows, h: string, directory: string, now: int): Rows {
    if h in rows && HasCertificate(rows[h]) && rows[h].directory != directory
    then Update(rows, h, Cleared(directory, now)) else rows
  }

  function AfterAri(rows: Rows, h: string, directory: string, ari: Ari, now: int): Rows {
    if h in rows && Usable(rows[h], directory, now) && rows[h].ariCheckAfter.Some? && rows[h].ariCheckAfter.value <= now
    then Update(rows, h, AriChange(ari, now)) else rows
  }

  function AfterDrift(rows: Rows, h: string, running: bool, drift: Drift, now: int): Rows {
    if h in rows && running && HasCertificate(rows[h]) && rows[h].serial != "" && rows[h].pushedSerial == rows[h].serial
       && drift == Drifted
    then Update(rows, h, PushRecorded("", now)) else rows
  }

  function AfterPush(rows: Rows, h: string, directory: string, running: bool, pushed: bool, now: int): Rows {
    if h in rows && running && Usable(rows[h], directory, now) && rows[h].pushedSerial != rows[h].serial && pushed
    then Update(rows, h, PushRecorded(rows[h].serial, now)) else rows
  }

  /** Drift is recorded, then the certificate is pushed when it is not in place. */
  function Delivered(rows: Rows, h: string, directory: string, running: bool, a: Answers, now: int): Rows {
    AfterPush(AfterDrift(rows, h, running, a.drift, now), h, directory, running, a.pushed, now)
  }

  /** The row work of one target once its row exists: directory, ARI, drift, push. */
  function TargetWork(rows: Rows, h: string, directory: string, running: bool, a: Answers, now: int): Rows {
    Delivered(AfterAri(AfterDirectory(rows, h, directory, now), h, directory, a.ari, now), h, directory, running, a, now)
  }

  function Report(row: Row, directory: string, mirrored: Option<int>, now: int): Outcome {
    var state := StateOf(row, directory, now);
    Outcome(state,
            if HasCertificate(row) && row.pushedSerial == row.serial then row.notAfter
            else if state == Issued && row.pushedSerial != "" then mirrored
            else None,
            OrderDue(row, state, now))
  }

  /** The row, created when it is missing; false is an error answer. */
  function Ensure(rows: Rows, req: Request, directory: string, now: int): (Rows, bool) {
    if CertKey(req.hostname) in rows then (rows, true) else RequestRow(rows, req, directory, now)
  }

  /** `reconcileTargetCertificate` for a target with a certificate of its own. */
  function TargetPass(rows: Rows, directory: string, t: CertTarget, a: Answers, now: int): (Rows, Outcome) {
    var h := CertKey(t.request.hostname);
    var none := Outcome(Pending, None, NotDue);
    if h !in rows && !a.markerReady then (rows, none)
    else
      var (r0, ok) := Ensure(rows, t.request, directory, now);
      if !ok || h !in r0 then (r0, none)
      else
        var r := TargetWork(r0, h, directory, t.running, a, now);
        if h in r then (r, Report(r[h], directory, t.mirroredNotAfter, now)) else (r, none)
  }

  /** `serveProjectCertificate`: the project's certificate is pushed to one machine when it differs there. */
  function ServeProject(rows: Rows, domain: string, directory: string, running: bool, drifted: bool, pushed: bool, now: int): Rows {
    var h := CertKey(domain);
    if h in rows && Usable(rows[h], directory, now) && running && drifted && pushed
    then Update(rows, domain, PushRecorded(rows[h].serial, now)) else rows
  }

  /** `reconcileProjectCertificate`. */
  function ProjectPass(rows: Rows, directory: string, claim: Request, ari: Ari, now: int): (Rows, Due) {
    var h := CertKey(claim.hostname);
    if h in rows && !(rows[h].tenant == claim.tenant && rows[h].project == claim.project && rows[h].machine == PROJECT_OWNER)
    then (rows, NotDue)
    else
      var (r0, ok) := Ensure(rows, claim.(machine := PROJECT_OWNER), directory, now);
      if !ok || h !in r0 then (r0, NotDue)
      else ProjectWork(r0, h, directory, ari, now)
  }

  /** The project row once it exists: any change of directory clears it, then ARI and the order. */
  function ProjectWork(rows: Rows, h: string, directory: string, ari: Ari, now: int): (Rows, Due)
    requires h in rows
  {
    var r1 := if rows[h].directory != directory then Update(rows, h, Cleared(directory, now)) else rows;
    ProjectRefresh(r1, h, directory, ari, now)
  }

  function ProjectRefresh(rows: Rows, h: string, directory: string, ari: Ari, now: int): (Rows, Due) {
    if h !in rows then (rows, NotDue)
    else
      var check := rows[h].ariCheckAfter;
      if Usable(rows[h], directory, now) && !After(check, now) then
        var r := Update(rows, h, AriChange(ari, now));
        if ari.AriError? || h !in r then (r, NotDue) else (r, ProjectDue(r[h], directory, now))
      else (rows, ProjectDue(rows[h], directory, now))
  }

  /** Delivery is tracked per machine, so a usable project certificate counts as installed. */
  function ProjectDue(row: Row, directory: string, now: int): Due {
    OrderDue(row, if Usable(row, directory, now) then Installed else StateOf(row, directory, now), now)
  }

  // ---------------------------------------------------------------- orders

  datatype OrderResult = OrderFailed(message: string) | OrderIssued(leaf: Leaf)

  /** How an order ends; a certificate for a row that is gone is an error nobody can record. */
  function OrderDone(rows: Rows, hostname: string, result: OrderResult, now: int): Rows {
    match result
    case OrderFailed(message) => Update(rows, hostname, FailureRecorded(message, now))
    case OrderIssued(leaf) => Update(rows, hostname, Stored(leaf, now))
  }
}
