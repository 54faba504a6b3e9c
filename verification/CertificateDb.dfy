/**
 The certificate table in the form the Auth App updates it: statements that change the fields of one
 row, a collection loop that deletes rows one by one, and passes made of such statements. Each method
 is proved to compute the step of module Certificates.
 */
module CertificateDbs {
  import opened Text
  import opened Names
  import opened Certificates
  import opened CertificateRuns

  /** The new failure count and its wait; the backoff step is cut to the table at both ends. */
  method CountFailure(before: int, text: string) returns (attempts: int, delay: int)
    ensures attempts == Attempts(before, text) && delay == Backoff(attempts)
  {
    attempts := before + 1;
    if FailureReason(text) == RateLimited {
      attempts := |BACKOFF|;
    }
    var step := attempts - 1;
    if step >= |BACKOFF| {
      step := |BACKOFF| - 1;
    }
    if step < 0 {
      step := 0;
    }
    delay := BACKOFF[step];
  }

  class CertificateDb {
    var rows: Rows

    constructor ()
      ensures rows == map[] && RowsOk(rows)
    {
      rows := map[];
    }

    method Get(hostname: string) returns (row: Option<Row>)
      ensures row == if CertKey(hostname) in rows then Some(rows[CertKey(hostname)]) else None
    {
      var h := CertKey(hostname);
      row := if h in rows then Some(rows[h]) else None;
    }

    /** `requestMachineCertificate`. */
    method Request(req: Request, directory: string, now: int) returns (ok: bool)
      modifies this
      ensures (rows, ok) == RequestRow(old(rows), req, directory, now)
      ensures RowsOk(old(rows)) ==> RowsOk(rows)
    {
      if RowsOk(rows) { StepRowsOk(rows, directory, RequestStep(req, now)); }
      var h := CertKey(req.hostname);
      if h == "" || req.tenant == "" || req.project == "" || req.machine == "" || req.zone == "" || directory == "" {
        return false;
      }
      if OwnerTaken(rows, req) {
        return false;
      }
      if h !in rows {
        rows := rows[h := Row(h, req.tenant, req.project, req.machine, req.zone, directory, "", "", "", "",
                              None, None, None, None, "", "", 0, None, now, now, now)];
      } else if Usable(rows[h], directory, now) {
        rows := rows[h := rows[h].(tenant := req.tenant, project := req.project, machine := req.machine, zone := req.zone,
                                   pushedSerial := "", requestedAt := now, updatedAt := now)];
      } else {
        rows := rows[h := Fresh(rows[h].(tenant := req.tenant, project := req.project, machine := req.machine,
                                         zone := req.zone), directory, now)];
      }
      ok := true;
    }

    /** `storeIssuedMachineCertificate`: false when no row took the certificate. */
    method StoreIssued(hostname: string, leaf: Leaf, now: int) returns (ok: bool)
      modifies this
      ensures rows == OrderDone(old(rows), hostname, OrderIssued(leaf), now)
      ensures ok <==> CertKey(hostname) in old(rows)
      ensures RowsOk(old(rows)) ==> RowsOk(rows)
    {
      OrderRowsOk(rows, hostname, OrderIssued(leaf), now);
      var h := CertKey(hostname);
      ok := h in rows;
      if ok {
        rows := rows[h := Stored(leaf, now)(rows[h])];
      }
    }

    method Reset(hostname: string, directory: string, now: int)
      modifies this
      ensures rows == Update(old(rows), hostname, Cleared(directory, now))
      ensures RowsOk(old(rows)) ==> RowsOk(rows)
    {
      if RowsOk(rows) { NoCertificateText(); UpdateRowsOk(rows, hostname, Cleared(directory, now)); }
      var h := CertKey(hostname);
      if h in rows {
        rows := rows[h := Fresh(rows[h], directory, now)];
      }
    }

    /** `updateMachineCertificateARI`: two statements, the first only for a known window. */
    method UpdateAri(hostname: string, renewAfter: Option<int>, checkAfter: int, now: int)
      modifies this
      ensures rows == Update(old(rows), hostname, AriStored(renewAfter, checkAfter, now))
      ensures RowsOk(old(rows)) ==> RowsOk(rows)
    {
      if RowsOk(rows) { UpdateRowsOk(rows, hostname, AriStored(renewAfter, checkAfter, now)); }
      var h := CertKey(hostname);
      if h in rows {
        if renewAfter.Some? {
          rows := rows[h := rows[h].(renewAfter := renewAfter, updatedAt := now)];
        }
        rows := rows[h := rows[h].(ariCheckAfter := Some(checkAfter), updatedAt := now)];
      }
    }

    method SetPushedSerial(hostname: string, serial: string, now: int)
      modifies this
      ensures rows == Update(old(rows), hostname, PushRecorded(serial, now))
      ensures RowsOk(old(rows)) ==> RowsOk(rows)
    {
      if RowsOk(rows) { UpdateRowsOk(rows, hostname, PushRecorded(serial, now)); }
      var h := CertKey(hostname);
      if h in rows {
        rows := rows[h := rows[h].(pushedSerial := serial, updatedAt := now)];
      }
    }

    /** `recordMachineCertificateFailure`. */
    method RecordFailure(hostname: string, message: string, now: int)
      modifies this
      ensures rows == OrderDone(old(rows), hostname, OrderFailed(message), now)
      ensures RowsOk(old(rows)) ==> RowsOk(rows)
    {
      OrderRowsOk(rows, hostname, OrderFailed(message), now);
      var h := CertKey(hostname);
      if h in rows {
        var text := TrimSpace(message);
        var attempts, delay := CountFailure(rows[h].attempts, text);
        rows := rows[h := rows[h].(lastError := text, attempts := attempts, nextAttempt := Some(now + delay),
                                   updatedAt := now)];
      }
    }

    method RefreshAri(hostname: string, ari: Ari, now: int) returns (ok: bool)
      modifies this
      ensures rows == Update(old(rows), hostname, AriChange(ari, now))
      ensures ok <==> ari.AriInfo?
    {
      match ari
      case AriError =>
        UpdateAri(hostname, None, now + SIX_HOURS, now);
        ok := false;
      case AriInfo(renewAfter, retryAfter) =>
        var next := now + SIX_HOURS;
        if retryAfter.Some? && retryAfter.value > now {
          next := retryAfter.value;
        }
        UpdateAri(hostname, renewAfter, next, now);
        ok := true;
    }

    /** `gcMachineCertificates`: every listed row is looked at once and deleted on its own. */
    method Collect(live: set<string>, directory: string, now: int)
      modifies this
      ensures rows == Collected(old(rows), live, directory, now)
      ensures RowsOk(old(rows)) ==> RowsOk(rows)
    {
      if RowsOk(rows) { StepRowsOk(rows, directory, CollectStep(live, now)); }
      var listed := rows;
      var pending := listed.Keys;
      while pending != {}
        invariant pending <= listed.Keys
        invariant rows == map h | h in listed && (h in pending || h in live || Usable(listed[h], directory, now)) :: listed[h]
        decreases pending
      {
        var h :| h in pending;
        pending := pending - {h};
        if h in live || Usable(listed[h], directory, now) {
          continue;
        }
        rows := rows - {h};
      }
    }

    /** The row half of `onProjectDomainReleased`. */
    method ReleaseDomain(domain: string)
      modifies this
      ensures rows == Released(old(rows), domain)
      ensures RowsOk(old(rows)) ==> RowsOk(rows)
    {
      if RowsOk(rows) { StepRowsOk(rows, "", ReleaseStep(domain, 0)); }
      var d := Lower(TrimDots(TrimSpace(domain)));
      rows := rows - {CertKey(domain)};
      if d != "" {
        rows := map h | h in rows && !StrictlyUnder(h, d) :: rows[h];
      }
    }

    /** `reconcileTargetCertificate` for a target with a certificate of its own. */
    method ReconcileTarget(t: CertTarget, directory: string, a: Answers, now: int) returns (outcome: Outcome)
      modifies this
      ensures (rows, outcome) == TargetPass(old(rows), directory, t, a, now)
      ensures RowsOk(old(rows)) ==> RowsOk(rows)
    {
      TargetRowsOk(rows, directory, t, a, now);
      var h := CertKey(t.request.hostname);
      outcome := Outcome(Pending, None, NotDue);
      if h !in rows {
        if !a.markerReady {
          return;
        }
        var ok := Request(t.request, directory, now);
        if !ok {
          return;
        }
      }
      Work(h, directory, t.running, a, now);
      outcome := Report(rows[h], directory, t.mirroredNotAfter, now);
    }

    method Work(h: string, directory: string, running: bool, a: Answers, now: int)
      requires h in rows
      modifies this
      ensures rows == TargetWork(old(rows), h, directory, running, a, now) && h in rows
    {
      if HasCertificate(rows[h]) && rows[h].directory != directory {
        Reset(h, directory, now);
      }
      if Usable(rows[h], directory, now) && rows[h].ariCheckAfter.Some? && rows[h].ariCheckAfter.value <= now {
        var _ := RefreshAri(h, a.ari, now);
      }
      Deliver(h, directory, running, a, now);
    }

    method Deliver(h: string, directory: string, running: bool, a: Answers, now: int)
      requires h in rows
      modifies this
      ensures rows == Delivered(old(rows), h, directory, running, a, now) && h in rows
    {
      if running && HasCertificate(rows[h]) && rows[h].serial != "" && rows[h].pushedSerial == rows[h].serial && a.drift == Drifted {
        SetPushedSerial(h, "", now);
      }
      if running && Usable(rows[h], directory, now) && rows[h].pushedSerial != rows[h].serial && a.pushed {
        SetPushedSerial(h, rows[h].serial, now);
      }
    }

    /** `serveProjectCertificate`: one machine of the project gets the certificate it lacks. */
    method ServeProjectCertificate(domain: string, directory: string, running: bool, drifted: bool, pushed: bool, now: int)
      modifies this
      ensures rows == ServeProject(old(rows), domain, directory, running, drifted, pushed, now)
      ensures RowsOk(old(rows)) ==> RowsOk(rows)
    {
      if RowsOk(rows) { StepRowsOk(rows, directory, ServeStep(domain, running, drifted, pushed, now)); }
      var row := Get(domain);
      if row.None? || !Usable(row.value, directory, now) || !running {
        return;
      }
      if drifted && pushed {
        SetPushedSerial(domain, row.value.serial, now);
      }
    }

    /** `reconcileProjectCertificate`. */
    method ReconcileProject(claim: Request, directory: string, ari: Ari, now: int) returns (due: Due)
      modifies this
      ensures (rows, due) == ProjectPass(old(rows), directory, claim, ari, now)
      ensures RowsOk(old(rows)) ==> RowsOk(rows)
    {
      ProjectRowsOk(rows, directory, claim, ari, now);
      var h := CertKey(claim.hostname);
      if h in rows {
        if rows[h].tenant != claim.tenant || rows[h].project != claim.project || rows[h].machine != PROJECT_OWNER {
          return NotDue;
        }
      } else {
        var ok := Request(claim.(machine := PROJECT_OWNER), directory, now);
        if !ok {
          return NotDue;
        }
      }
      due := WorkProject(h, directory, ari, now);
    }

    method WorkProject(h: string, directory: string, ari: Ari, now: int) returns (due: Due)
      requires h in rows
      modifies this
      ensures (rows, due) == ProjectWork(old(rows), h, directory, ari, now)
    {
      if rows[h].directory != directory {
        Reset(h, directory, now);
      }
      if Usable(rows[h], directory, now) && (rows[h].ariCheckAfter.None? || rows[h].ariCheckAfter.value <= now) {
        var ok := RefreshAri(h, ari, now);
        if !ok {
          return NotDue;
        }
      }
      var state := StateOf(rows[h], directory, now);
      if Usable(rows[h], directory, now) {
        state := Installed;
      }
      due := OrderDue(rows[h], state, now);
    }
  }
}
