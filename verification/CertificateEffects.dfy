/**
 What requests, passes, pushes, failures and collections do to a certificate row, stated on the row's own columns:
 when a certificate counts as issued, installed or renewing, when it is ordered, and which columns change.
 */
module CertificateEffects {
  import opened Text
  import opened Names
  import opened Certificates
  import opened CertificateRuns

  // ---------------------------------------------------------------- states and due orders

  /** The certificate is there, comes from the running directory, and is not expired. */
  predicate Serves(row: Row, directory: string, now: int) {
    TrimSpace(row.cert) != "" && row.directory == directory && row.notAfter.Some? && row.notAfter.value > now
  }

  predicate Reached(t: Option<int>, now: int) {
    t.Some? && t.value <= now
  }

  /** The five states, by the row's columns. */
  lemma StateTable(row: Row, directory: string, now: int)
    ensures StateOf(row, directory, now) == Pending <==>
            if TrimSpace(row.cert) != "" then row.directory != directory else TrimSpace(row.lastError) == ""
    ensures StateOf(row, directory, now) == Issued <==>
            Serves(row, directory, now) && row.pushedSerial != row.serial
    ensures StateOf(row, directory, now) == Installed <==>
            Serves(row, directory, now) && row.pushedSerial == row.serial && !Reached(row.renewAfter, now)
    ensures StateOf(row, directory, now) == Renewing <==>
            Serves(row, directory, now) && row.pushedSerial == row.serial && Reached(row.renewAfter, now)
    ensures StateOf(row, directory, now) == Failed(Expired) <==>
            TrimSpace(row.cert) != "" && row.directory == directory && !Serves(row, directory, now)
  {}

  /** The order a row asks for: a renewal of a delivered certificate, or the next attempt of a missing one. */
  function DueOf(row: Row, delivered: bool, directory: string, now: int): Due {
    if Serves(row, directory, now) then
      if delivered && Reached(row.renewAfter, now) then DueSince(row.renewAfter) else NotDue
    else if row.nextAttempt.None? || row.nextAttempt.value <= now then DueSince(row.nextAttempt) else NotDue
  }

  lemma OrderDueIs(row: Row, directory: string, now: int)
    ensures OrderDue(row, StateOf(row, directory, now), now) == DueOf(row, row.pushedSerial == row.serial, directory, now)
  {}

  /**
   The order of a target pass, on the row the pass leaves: a serving certificate is ordered again exactly when it is in
   place and its renewal time is reached, any other row exactly when its next attempt is unset or reached.
   */
  lemma TargetOrder(rows: Rows, directory: string, t: CertTarget, a: Answers, now: int)
    requires CertKey(t.request.hostname) in TargetPass(rows, directory, t, a, now).0
    ensures var (after, outcome) := TargetPass(rows, directory, t, a, now);
            var row := after[CertKey(t.request.hostname)];
            outcome.due == DueOf(row, row.pushedSerial == row.serial, directory, now)
  {
    TargetReports(rows, directory, t, a, now);
    OrderDueIs(TargetPass(rows, directory, t, a, now).0[CertKey(t.request.hostname)], directory, now);
  }

  lemma TargetReports(rows: Rows, directory: string, t: CertTarget, a: Answers, now: int)
    requires CertKey(t.request.hostname) in TargetPass(rows, directory, t, a, now).0
    ensures var (after, outcome) := TargetPass(rows, directory, t, a, now);
            outcome == Report(after[CertKey(t.request.hostname)], directory, t.mirroredNotAfter, now)
  {}

  /** The row is the project's own: its owner columns name the claim. */
  predicate OwnedBy(row: Row, claim: Request) {
    row.tenant == claim.tenant && row.project == claim.project && row.machine == "@project"
  }

  /** The renewal window of the row is asked for: it serves and its next check is unset or reached. */
  predicate AsksWindow(row: Row, directory: string, now: int) {
    Serves(row, directory, now) && (row.ariCheckAfter.None? || row.ariCheckAfter.value <= now)
  }

  /**
   The order of a project pass, on the row the pass leaves. The certificate counts as delivered; a foreign row and a
   failed renewal-window query order nothing.
   */
  lemma ProjectOrder(rows: Rows, directory: string, claim: Request, ari: Ari, now: int)
    requires CertKey(claim.hostname) in ProjectPass(rows, directory, claim, ari, now).0
    ensures var h := CertKey(claim.hostname);
            var (after, due) := ProjectPass(rows, directory, claim, ari, now);
            if h in rows && !OwnedBy(rows[h], claim) then after == rows && due == NotDue
            else if h in rows && AsksWindow(rows[h], directory, now) && ari.AriError? then due == NotDue
            else due == DueOf(after[h], true, directory, now)
  {
    var h := CertKey(claim.hostname);
    CertKeyFixed(claim.hostname);
    if h in rows && OwnedBy(rows[h], claim) {
      ProjectWorkOrder(rows, h, directory, ari, now);
    } else if h !in rows {
      var r0 := RequestRow(rows, claim.(machine := PROJECT_OWNER), directory, now).0;
      if h in r0 {
        NewRowBlank(rows, claim.(machine := PROJECT_OWNER), directory, now);
        ProjectWorkOrder(r0, h, directory, ari, now);
      }
    }
  }

  lemma NewRowBlank(rows: Rows, req: Request, directory: string, now: int)
    requires CertKey(req.hostname) !in rows && CertKey(req.hostname) in RequestRow(rows, req, directory, now).0
    ensures !AsksWindow(RequestRow(rows, req, directory, now).0[CertKey(req.hostname)], directory, now)
    ensures RequestRow(rows, req, directory, now).1
  {
    NoCertificateText();
  }

  lemma ProjectWorkOrder(rows: Rows, h: string, directory: string, ari: Ari, now: int)
    requires h in rows && CertKey(h) == h
    ensures var (after, due) := ProjectWork(rows, h, directory, ari, now);
            && h in after
            && due == if AsksWindow(rows[h], directory, now) && ari.AriError? then NotDue else DueOf(after[h], true, directory, now)
  {
    var r1 := if rows[h].directory != directory then Update(rows, h, Cleared(directory, now)) else rows;
    NoCertificateText();
    RefreshOrder(r1, h, directory, ari, now);
  }

  lemma RefreshOrder(rows: Rows, h: string, directory: string, ari: Ari, now: int)
    requires h in rows && CertKey(h) == h
    ensures var (after, due) := ProjectRefresh(rows, h, directory, ari, now);
            && h in after
            && due == if AsksWindow(rows[h], directory, now) && ari.AriError? then NotDue else DueOf(after[h], true, directory, now)
  {}

  // ---------------------------------------------------------------- what a target pass does to its row

  /** The renewal window as answered, or kept; the next check as answered when it lies ahead, else in six hours. */
  predicate WindowStored(before: Row, after: Row, ari: Ari, now: int) {
    && after.renewAfter == (if ari.AriInfo? && ari.renewAfter.Some? then ari.renewAfter else before.renewAfter)
    && after.ariCheckAfter ==
       Some(if ari.AriInfo? && ari.retryAfter.Some? && ari.retryAfter.value > now then ari.retryAfter.value else now + 21_600)
  }

  predicate WindowKept(before: Row, after: Row) {
    after.renewAfter == before.renewAfter && after.ariCheckAfter == before.ariCheckAfter
  }

  /** Every column but the four a pass may touch. */
  predicate RestKept(before: Row, after: Row) {
    after == before.(renewAfter := after.renewAfter, ariCheckAfter := after.ariCheckAfter, pushedSerial := after.pushedSerial,
                     updatedAt := after.updatedAt)
  }

  /** The machine lacks the certificate: another serial was pushed last, or its file differs from the issued one. */
  predicate OutOfPlace(row: Row, drift: Drift) {
    row.pushedSerial != row.serial || (row.serial != "" && drift == Drifted)
  }

  /** Only the row of `h` may differ. */
  ghost predicate OthersKept(before: Rows, after: Rows, h: string) {
    after.Keys == before.Keys && forall g :: g in before && g != h ==> after[g] == before[g]
  }

  lemma AriStage(rows: Rows, h: string, directory: string, ari: Ari, now: int)
    requires h in rows && CertKey(h) == h
    ensures var after := AfterAri(rows, h, directory, ari, now);
            && OthersKept(rows, after, h) && RestKept(rows[h], after[h]) && after[h].pushedSerial == rows[h].pushedSerial
            && if Serves(rows[h], directory, now) && Reached(rows[h].ariCheckAfter, now) then WindowStored(rows[h], after[h], ari, now)
               else WindowKept(rows[h], after[h])
  {}

  lemma DeliveryStage(rows: Rows, h: string, directory: string, running: bool, a: Answers, now: int)
    requires h in rows && CertKey(h) == h && Serves(rows[h], directory, now)
    ensures var after := Delivered(rows, h, directory, running, a, now);
            && OthersKept(rows, after, h) && RestKept(rows[h], after[h]) && WindowKept(rows[h], after[h])
            && after[h].pushedSerial ==
               if !running || !OutOfPlace(rows[h], a.drift) then rows[h].pushedSerial
               else if a.pushed then rows[h].serial
               else if rows[h].pushedSerial == rows[h].serial then "" else rows[h].pushedSerial
  {}

  /**
   A pass over a serving certificate keeps the certificate. The renewal window is refreshed when its check is due; on
   a running machine that lacks the certificate a push records its serial, and without one a drift is recorded.
   */
  lemma ServingPass(rows: Rows, directory: string, t: CertTarget, a: Answers, now: int)
    requires CertKey(t.request.hostname) in rows && Serves(rows[CertKey(t.request.hostname)], directory, now)
    ensures var h := CertKey(t.request.hostname);
            var after := TargetPass(rows, directory, t, a, now).0;
            && OthersKept(rows, after, h) && RestKept(rows[h], after[h])
            && (if Reached(rows[h].ariCheckAfter, now) then WindowStored(rows[h], after[h], a.ari, now)
                else WindowKept(rows[h], after[h]))
            && after[h].pushedSerial ==
               if !t.running || !OutOfPlace(rows[h], a.drift) then rows[h].pushedSerial
               else if a.pushed then rows[h].serial
               else if rows[h].pushedSerial == rows[h].serial then "" else rows[h].pushedSerial
  {
    var h := CertKey(t.request.hostname);
    CertKeyFixed(t.request.hostname);
    AriStage(rows, h, directory, a.ari, now);
    DeliveryStage(AfterAri(rows, h, directory, a.ari, now), h, directory, t.running, a, now);
  }

  /** On a running machine a serving certificate ends in place iff it was pushed or already there; else it is issued. */
  lemma PushedState(rows: Rows, directory: string, t: CertTarget, a: Answers, now: int)
    requires CertKey(t.request.hostname) in rows && Serves(rows[CertKey(t.request.hostname)], directory, now) && t.running
    ensures var h := CertKey(t.request.hostname);
            var (after, outcome) := TargetPass(rows, directory, t, a, now);
            outcome.state == if OutOfPlace(rows[h], a.drift) && !a.pushed then Issued
                             else if Reached(after[h].renewAfter, now) then Renewing else Installed
  {
    var h := CertKey(t.request.hostname);
    ServingPass(rows, directory, t, a, now);
    TargetReports(rows, directory, t, a, now);
    var row := TargetPass(rows, directory, t, a, now).0[h];
    StateTable(row, directory, now);
  }

  /** The row of a new order: no certificate, no schedule, no failures. */
  predicate Blank(row: Row) {
    && row.cert == "" && row.key == "" && row.serial == "" && row.fingerprint == "" && row.pushedSerial == ""
    && row.notBefore == None && row.notAfter == None && row.renewAfter == None && row.ariCheckAfter == None
    && row.lastError == "" && row.attempts == 0 && row.nextAttempt == None
  }

  predicate SameOwner(a: Row, b: Row) {
    && a.hostname == b.hostname && a.tenant == b.tenant && a.project == b.project && a.machine == b.machine && a.zone == b.zone
    && a.createdAt == b.createdAt
  }

  lemma BlankState(row: Row, directory: string, now: int)
    requires Blank(row)
    ensures StateOf(row, directory, now) == Pending && OrderDue(row, Pending, now) == DueSince(None)
  {
    NoCertificateText();
  }

  lemma BlankWork(rows: Rows, h: string, directory: string, running: bool, a: Answers, now: int)
    requires h in rows && Blank(rows[h])
    ensures TargetWork(rows, h, directory, running, a, now) == rows
  {
    NoCertificateText();
  }

  /** A certificate of another directory is dropped, and ordered again at once. */
  lemma ForeignDirectoryPass(rows: Rows, directory: string, t: CertTarget, a: Answers, now: int)
    requires var h := CertKey(t.request.hostname);
             h in rows && TrimSpace(rows[h].cert) != "" && rows[h].directory != directory
    ensures var h := CertKey(t.request.hostname);
            var (after, outcome) := TargetPass(rows, directory, t, a, now);
            && OthersKept(rows, after, h) && Blank(after[h]) && SameOwner(rows[h], after[h])
            && after[h].directory == directory && after[h].requestedAt == now
            && outcome == Outcome(Pending, None, DueSince(None))
  {
    var h := CertKey(t.request.hostname);
    CertKeyFixed(t.request.hostname);
    NoCertificateText();
    var cleared := AfterDirectory(rows, h, directory, now);
    assert Blank(cleared[h]);
    BlankWork(cleared, h, directory, t.running, a, now);
    TargetReports(rows, directory, t, a, now);
    BlankState(cleared[h], directory, now);
  }

  /** Any other row without a serving certificate is left alone, but for a drift of an expired one. */
  lemma WaitingPass(rows: Rows, directory: string, t: CertTarget, a: Answers, now: int)
    requires var h := CertKey(t.request.hostname);
             h in rows && !Serves(rows[h], directory, now) && (TrimSpace(rows[h].cert) != "" ==> rows[h].directory == directory)
    ensures var h := CertKey(t.request.hostname);
            var after := TargetPass(rows, directory, t, a, now).0;
            && OthersKept(rows, after, h) && RestKept(rows[h], after[h]) && WindowKept(rows[h], after[h])
            && after[h].pushedSerial ==
               if t.running && TrimSpace(rows[h].cert) != "" && rows[h].serial != "" && a.drift == Drifted
                  && rows[h].pushedSerial == rows[h].serial then "" else rows[h].pushedSerial
  {
    CertKeyFixed(t.request.hostname);
    WaitingWork(rows, CertKey(t.request.hostname), directory, t.running, a, now);
  }

  lemma WaitingWork(rows: Rows, h: string, directory: string, running: bool, a: Answers, now: int)
    requires h in rows && CertKey(h) == h && !Serves(rows[h], directory, now)
    requires TrimSpace(rows[h].cert) != "" ==> rows[h].directory == directory
    ensures TargetWork(rows, h, directory, running, a, now) == AfterDrift(rows, h, running, a.drift, now)
  {}

  /** A missing row is created for a machine that asks for it; without one, or when the request is refused, nothing is. */
  lemma MissingRowPass(rows: Rows, directory: string, t: CertTarget, a: Answers, now: int)
    requires CertKey(t.request.hostname) !in rows
    ensures var h := CertKey(t.request.hostname);
            var (after, outcome) := TargetPass(rows, directory, t, a, now);
            if a.markerReady && RequestRow(rows, t.request, directory, now).1 then
              && after == RequestRow(rows, t.request, directory, now).0 && h in after
              && outcome == Outcome(Pending, None, DueSince(None))
            else after == rows && outcome == Outcome(Pending, None, NotDue)
  {
    if RequestRow(rows, t.request, directory, now).1 {
      var r0, h := RequestRow(rows, t.request, directory, now).0, CertKey(t.request.hostname);
      assert Blank(r0[h]);
      BlankWork(r0, h, directory, t.running, a, now);
      BlankState(r0[h], directory, now);
    }
  }

  /** The expiry a pass reports: of the certificate in place, or, renewed and not yet pushed, of the one still serving. */
  lemma ReportedExpiry(row: Row, directory: string, mirrored: Option<int>, now: int)
    ensures Report(row, directory, mirrored, now).notAfter ==
            if TrimSpace(row.cert) != "" && row.pushedSerial == row.serial then row.notAfter
            else if Serves(row, directory, now) && row.pushedSerial != "" then mirrored
            else None
  {
    StateTable(row, directory, now);
  }

  // ---------------------------------------------------------------- which row a hostname names

  /** Any letter case of a well-formed name, between blanks, names the same row. */
  lemma SpellingsNameRow(l: string, spelled: string, r: string, name: string)
    requires ValidName(name) && Lower(spelled) == name && Blanks(l) && Blanks(r)
    ensures CertKey(l + spelled + r) == name
  {
    SpelledEnds(name, spelled);
    TrimBoth(l, spelled, r, IsSpace);
  }

  // ---------------------------------------------------------------- requests

  /** Another certificate row of the same project is already the project's. */
  ghost predicate ProjectTaken(rows: Rows, req: Request) {
    && req.machine == "@project"
    && exists h :: h in rows && h != CertKey(req.hostname) && rows[h].machine == "@project"
                   && rows[h].tenant == req.tenant && rows[h].project == req.project
  }

  /**
   A request is refused for an empty column or a project that has its certificate; otherwise the row takes the owner
   asked for. A serving certificate is kept and only pushed again; every other row starts blank.
   */
  lemma RequestEffect(rows: Rows, req: Request, directory: string, now: int)
    ensures var h := CertKey(req.hostname);
            var (after, ok) := RequestRow(rows, req, directory, now);
            && (ok <==> Lower(TrimSpace(req.hostname)) != "" && req.tenant != "" && req.project != "" && req.machine != ""
                        && req.zone != "" && directory != "" && !ProjectTaken(rows, req))
            && (!ok ==> after == rows)
            && (ok ==>
                  && after.Keys == rows.Keys + {h} && (forall g :: g in rows && g != h ==> after[g] == rows[g])
                  && after[h].tenant == req.tenant && after[h].project == req.project && after[h].machine == req.machine
                  && after[h].zone == req.zone && after[h].directory == directory && after[h].pushedSerial == ""
                  && after[h].requestedAt == now && after[h].updatedAt == now
                  && (h !in rows ==> after[h].hostname == h && after[h].createdAt == now)
                  && (h in rows ==> after[h].hostname == rows[h].hostname && after[h].createdAt == rows[h].createdAt)
                  && if h in rows && Serves(rows[h], directory, now)
                     then SameCertificate(rows[h], after[h]) && WindowKept(rows[h], after[h])
                          && after[h].lastError == rows[h].lastError && after[h].attempts == rows[h].attempts
                          && after[h].nextAttempt == rows[h].nextAttempt
                     else Blank(after[h]))
  {}

  // ---------------------------------------------------------------- ends of orders

  /**
   The row after a successful order: the new certificate with its validity, the renewal time two thirds into it, the
   first window check six hours on, no failures; the directory and the pushed serial stay.
   */
  lemma IssuedRow(rows: Rows, hostname: string, leaf: Leaf, now: int)
    requires CertKey(hostname) in rows
    ensures var h := CertKey(hostname);
            var after := OrderDone(rows, hostname, OrderIssued(leaf), now);
            && OthersKept(rows, after, h) && SameOwner(rows[h], after[h])
            && after[h].cert == leaf.cert && after[h].key == leaf.key && after[h].serial == leaf.serial
            && after[h].fingerprint == leaf.fingerprint
            && after[h].notBefore == Some(leaf.notBefore) && after[h].notAfter == Some(leaf.notAfter)
            && after[h].renewAfter.Some? && after[h].ariCheckAfter == Some(now + 21_600)
            && after[h].lastError == "" && after[h].attempts == 0 && after[h].nextAttempt == None
            && after[h].directory == rows[h].directory && after[h].pushedSerial == rows[h].pushedSerial
            && after[h].requestedAt == rows[h].requestedAt
            && (0 <= leaf.notAfter - leaf.notBefore <= DOUBLING_FITS ==>
                  after[h].renewAfter.value == leaf.notBefore + (leaf.notAfter - leaf.notBefore) * 2 / 3)
            && (leaf.notBefore <= after[h].renewAfter.value <= leaf.notAfter <==>
                  0 <= leaf.notAfter - leaf.notBefore <= DOUBLING_FITS || leaf.notAfter - leaf.notBefore >= SATURATES)
  {
    StoredRenewal(rows, hostname, leaf, now);
    RenewalInsideIff(leaf.notBefore, leaf.notAfter);
    if 0 <= leaf.notAfter - leaf.notBefore <= DOUBLING_FITS {
      RenewalExact(leaf.notBefore, leaf.notAfter);
    }
  }

  lemma StoredRenewal(rows: Rows, hostname: string, leaf: Leaf, now: int)
    requires CertKey(hostname) in rows
    ensures OrderDone(rows, hostname, OrderIssued(leaf), now)[CertKey(hostname)].renewAfter ==
            Some(FallbackRenewal(leaf.notBefore, leaf.notAfter))
  {}

  /** The wait before the next attempt, by the number of failures. */
  lemma BackoffTable(attempts: int)
    ensures Backoff(attempts) ==
            if attempts <= 1 then 60 else if attempts == 2 then 300 else if attempts == 3 then 1_800
            else if attempts == 4 then 7_200 else 21_600
  {
    assert |BACKOFF| == 5;
  }

  /** The row after a failed order: the message trimmed, one more failure or the last step, the wait; nothing else. */
  lemma FailedRow(rows: Rows, hostname: string, message: string, now: int)
    requires CertKey(hostname) in rows
    ensures var h := CertKey(hostname);
            var after := OrderDone(rows, hostname, OrderFailed(message), now);
            && OthersKept(rows, after, h)
            && after[h] == rows[h].(lastError := TrimSpace(message), attempts := after[h].attempts,
                                    nextAttempt := after[h].nextAttempt, updatedAt := now)
            && after[h].attempts == (if FailureReason(TrimSpace(message)) == RateLimited then 5 else rows[h].attempts + 1)
            && after[h].nextAttempt == Some(now + Backoff(after[h].attempts))
  {}

  /** The end of an order whose row is gone changes nothing. */
  lemma GoneRow(rows: Rows, hostname: string, result: OrderResult, now: int)
    requires CertKey(hostname) !in rows
    ensures OrderDone(rows, hostname, result, now) == rows
  {}

  lemma OneOfThree(text: string, a: string, b: string, c: string)
    ensures Mentions(text, [a, b, c]) <==> Contains(text, a) || Contains(text, b) || Contains(text, c)
  {
    var parts := [a, b, c];
    assert parts[0] in parts && parts[1] in parts && parts[2] in parts;
  }

  lemma OneOfFour(text: string, a: string, b: string, c: string, d: string)
    ensures Mentions(text, [a, b, c, d]) <==> Contains(text, a) || Contains(text, b) || Contains(text, c) || Contains(text, d)
  {
    var parts := [a, b, c, d];
    assert parts[0] in parts && parts[1] in parts && parts[2] in parts && parts[3] in parts;
  }

  predicate SaysLimit(text: string) {
    Contains(text, "ratelimited") || Contains(text, "rate limit") || Contains(text, "too many")
  }

  predicate SaysDns(text: string) {
    Contains(text, "propagat") || Contains(text, "not yet visible") || Contains(text, "waiting for dns")
  }

  predicate SaysRejected(text: string) {
    || Contains(text, "unauthorized") || Contains(text, "validation") || Contains(text, "challenge")
    || Contains(text, "authorization")
  }

  predicate SaysUnreachable(text: string) {
    || Contains(text, "unreachable") || Contains(text, "connection refused") || Contains(text, "no such host")
    || Contains(text, "timeout")
  }

  lemma Words(text: string)
    ensures Mentions(text, ["ratelimited", "rate limit", "too many"]) <==> SaysLimit(text)
    ensures Mentions(text, ["propagat", "not yet visible", "waiting for dns"]) <==> SaysDns(text)
    ensures Mentions(text, ["cloudflare"]) <==> Contains(text, "cloudflare")
    ensures Mentions(text, ["unauthorized", "validation", "challenge", "authorization"]) <==> SaysRejected(text)
    ensures Mentions(text, ["unreachable", "connection refused", "no such host", "timeout"]) <==> SaysUnreachable(text)
  {
    OneOfThree(text, "ratelimited", "rate limit", "too many");
    OneOfThree(text, "propagat", "not yet visible", "waiting for dns");
    OneOfFour(text, "unauthorized", "validation", "challenge", "authorization");
    OneOfFour(text, "unreachable", "connection refused", "no such host", "timeout");
  }

  /** Which messages give which reason: the first family of words found, in any letter case. */
  lemma ReasonOf(raw: string)
    ensures var text := Lower(raw);
            FailureReason(raw) ==
            if TrimSpace(text) == "" then NoReason else if SaysLimit(text) then RateLimited
            else if SaysDns(text) then DnsPropagation else if Contains(text, "cloudflare") then CloudflareRejected
            else if SaysRejected(text) then Validation else if SaysUnreachable(text) then AuthAppUnreachable
            else OtherReason
  {
    Words(Lower(raw));
  }

  // ---------------------------------------------------------------- project certificates and deletions

  lemma RefreshRow(rows: Rows, h: string, directory: string, ari: Ari, now: int)
    requires h in rows && CertKey(h) == h
    ensures var after := ProjectRefresh(rows, h, directory, ari, now).0;
            if AsksWindow(rows[h], directory, now) then
              && OthersKept(rows, after, h) && RestKept(rows[h], after[h]) && after[h].pushedSerial == rows[h].pushedSerial
              && WindowStored(rows[h], after[h], ari, now)
            else after == rows
  {}

  /**
   What a pass does to a project's own row: a change of directory blanks it, with or without a certificate; a serving
   certificate has its renewal window refreshed when the check is unset or due.
   */
  lemma ProjectRow(rows: Rows, directory: string, claim: Request, ari: Ari, now: int)
    requires CertKey(claim.hostname) in rows && OwnedBy(rows[CertKey(claim.hostname)], claim)
    ensures var h := CertKey(claim.hostname);
            var after := ProjectPass(rows, directory, claim, ari, now).0;
            if rows[h].directory != directory then
              && OthersKept(rows, after, h) && Blank(after[h]) && SameOwner(rows[h], after[h])
              && after[h].directory == directory && after[h].requestedAt == now
            else if AsksWindow(rows[h], directory, now) then
              && OthersKept(rows, after, h) && RestKept(rows[h], after[h]) && after[h].pushedSerial == rows[h].pushedSerial
              && WindowStored(rows[h], after[h], ari, now)
            else after == rows
  {
    var h := CertKey(claim.hostname);
    CertKeyFixed(claim.hostname);
    if rows[h].directory == directory {
      RefreshRow(rows, h, directory, ari, now);
    } else {
      var cleared := Update(rows, h, Cleared(directory, now));
      assert Blank(cleared[h]);
      NoCertificateText();
      RefreshRow(cleared, h, directory, ari, now);
    }
  }

  /** A project without a row gets one, requested under the project's own owner name. */
  lemma MissingProjectRow(rows: Rows, directory: string, claim: Request, ari: Ari, now: int)
    requires CertKey(claim.hostname) !in rows
    ensures var requested := RequestRow(rows, claim.(machine := "@project"), directory, now);
            ProjectPass(rows, directory, claim, ari, now) == (requested.0, if requested.1 then DueSince(None) else NotDue)
  {
    var r0, h := RequestRow(rows, claim.(machine := PROJECT_OWNER), directory, now).0, CertKey(claim.hostname);
    CertKeyFixed(claim.hostname);
    if h in r0 {
      NewRowBlank(rows, claim.(machine := PROJECT_OWNER), directory, now);
      assert Blank(r0[h]) && r0[h].directory == directory;
      BlankState(r0[h], directory, now);
      BlankRefresh(r0, h, directory, ari, now);
    }
  }

  lemma BlankRefresh(rows: Rows, h: string, directory: string, ari: Ari, now: int)
    requires h in rows && Blank(rows[h])
    ensures ProjectRefresh(rows, h, directory, ari, now) == (rows, DueSince(None))
  {
    NoCertificateText();
    BlankState(rows[h], directory, now);
  }

  /** A project's certificate is recorded as pushed exactly when a running machine lacked it and took it. */
  lemma ServeEffect(rows: Rows, domain: string, directory: string, running: bool, drifted: bool, pushed: bool, now: int)
    ensures var h := CertKey(domain);
            var after := ServeProject(rows, domain, directory, running, drifted, pushed, now);
            if h in rows && Serves(rows[h], directory, now) && running && drifted && pushed
            then OthersKept(rows, after, h) && after[h] == rows[h].(pushedSerial := rows[h].serial, updatedAt := now)
            else after == rows
  {}

  /** A collection keeps the reserved rows and the serving certificates, unchanged, and no others. */
  lemma CollectEffect(rows: Rows, live: set<string>, directory: string, now: int, h: string)
    ensures h in Collected(rows, live, directory, now) <==> h in rows && (h in live || Serves(rows[h], directory, now))
    ensures h in Collected(rows, live, directory, now) ==> Collected(rows, live, directory, now)[h] == rows[h]
  {}

  /** A released domain takes whole rows; those left are unchanged. */
  lemma ReleaseKeeps(rows: Rows, domain: string, h: string)
    ensures h in Released(rows, domain) ==> h in rows && Released(rows, domain)[h] == rows[h]
  {}
}
