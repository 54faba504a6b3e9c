/**
 Certificate rows over whole runs: a usable certificate is retained, failures back off, and no
 project has two certificates, whatever requests, passes, orders and collections happen.

 Each pass over a target or a project is one step; requests and order completions fall between passes.
 */
module CertificateRuns {
  import opened Text
  import opened Certificates

  // ---------------------------------------------------------------- table invariant

  ghost predicate RowOk(h: string, row: Row) {
    && row.hostname == h && CertKey(h) == h
    && (HasCertificate(row) ==> row.serial != "")
  }

  ghost predicate OneCertificatePerProject(rows: Rows) {
    forall g, h :: g in rows && h in rows && SameProject(rows[g], rows[h]) ==> g == h
  }

  /** Two rows that are both the certificate of one project. */
  ghost predicate SameProject(a: Row, b: Row) {
    a.machine == PROJECT_OWNER && b.machine == PROJECT_OWNER && a.tenant == b.tenant && a.project == b.project
  }

  ghost predicate RowsOk(rows: Rows) {
    && (forall h :: h in rows ==> RowOk(h, rows[h]))
    && OneCertificatePerProject(rows)
  }

  lemma CertKeyFixed(hostname: string)
    ensures CertKey(CertKey(hostname)) == CertKey(hostname)
  {
    var t := TrimSpace(hostname);
    TrimLeftEnds(hostname, IsSpace);
    TrimRightEnds(TrimLeft(hostname, IsSpace), IsSpace);
    TrimSpaceFixed(Lower(t));
    assert Lower(Lower(t)) == Lower(t);
  }

  // ---------------------------------------------------------------- what every update respects

  /** The stored certificate and the directory that issued it. */
  ghost predicate SameCertificate(a: Row, b: Row) {
    && a.cert == b.cert && a.key == b.key && a.serial == b.serial && a.fingerprint == b.fingerprint
    && a.notBefore == b.notBefore && a.notAfter == b.notAfter && a.directory == b.directory
  }

  /** A certificate usable at `now` survives the step, in its row. */
  ghost predicate Retains(before: Rows, after: Rows, h: string, directory: string, now: int) {
    h in before && Usable(before[h], directory, now) ==> h in after && SameCertificate(before[h], after[h])
  }

  /** Failure bookkeeping is kept or cleared, never invented. */
  ghost predicate Calm(before: Rows, after: Rows, h: string) {
    h in after ==>
      || (after[h].attempts == 0 && after[h].nextAttempt == None)
      || (h in before && after[h].attempts == before[h].attempts && after[h].nextAttempt == before[h].nextAttempt)
  }

  /** What every update other than an order's end does to the table. */
  ghost predicate Gentle(before: Rows, after: Rows, directory: string, now: int) {
    && RowsOk(after)
    && (forall h :: Retains(before, after, h, directory, now))
    && (forall h :: Calm(before, after, h))
  }

  lemma GentleTransitive(a: Rows, b: Rows, c: Rows, directory: string, now: int)
    requires Gentle(a, b, directory, now) && Gentle(b, c, directory, now)
    ensures Gentle(a, c, directory, now)
  {
    forall h ensures Retains(a, c, h, directory, now) {
      assert Retains(a, b, h, directory, now) && Retains(b, c, h, directory, now);
    }
    forall h ensures Calm(a, c, h) {
      assert Calm(a, b, h) && Calm(b, c, h);
    }
  }

  lemma GentleIdle(rows: Rows, directory: string, now: int)
    requires RowsOk(rows)
    ensures Gentle(rows, rows, directory, now)
  {}

  /** An update of one row in place that keeps its name and owner. */
  ghost predicate GentleChange(a: Row, b: Row, directory: string, now: int) {
    && b.hostname == a.hostname && b.tenant == a.tenant && b.project == a.project && b.machine == a.machine
    && (HasCertificate(b) ==> b.serial != "")
    && (Usable(a, directory, now) ==> SameCertificate(a, b))
    && ((b.attempts == 0 && b.nextAttempt == None) || (b.attempts == a.attempts && b.nextAttempt == a.nextAttempt))
  }

  lemma ReplaceOk(rows: Rows, h: string, row: Row)
    requires RowsOk(rows) && h in rows && RowOk(h, row)
    requires row.tenant == rows[h].tenant && row.project == rows[h].project && row.machine == rows[h].machine
    ensures RowsOk(rows[h := row])
  {
    var after := rows[h := row];
    forall g, k | g in after && k in after && SameProject(after[g], after[k]) ensures g == k {
      assert SameProject(rows[g], rows[k]);
    }
  }

  lemma UpdateGentle(rows: Rows, h: string, change: Row -> Row, directory: string, now: int)
    requires RowsOk(rows) && h in rows
    requires GentleChange(rows[h], change(rows[h]), directory, now)
    ensures Gentle(rows, Update(rows, h, change), directory, now)
    ensures h in Update(rows, h, change)
  {
    assert RowOk(h, rows[h]);
    assert Update(rows, h, change) == rows[h := change(rows[h])];
    ReplaceOk(rows, h, change(rows[h]));
  }

  lemma RequestGentle(rows: Rows, req: Request, directory: string, now: int)
    requires RowsOk(rows)
    ensures Gentle(rows, RequestRow(rows, req, directory, now).0, directory, now)
    ensures RequestRow(rows, req, directory, now).1 ==> CertKey(req.hostname) in RequestRow(rows, req, directory, now).0
  {
    GentleIdle(rows, directory, now);
    if Complete(req, directory) && !OwnerTaken(rows, req) {
      RequestedOk(rows, req, directory, now);
      var h, row := CertKey(req.hostname), Requested(rows, req, directory, now);
      RequestOwner(rows, req, row);
      assert RowsOk(rows[h := row]);
    }
  }

  /** The requested row: named and owned as asked, its usable certificate kept, its failures kept or cleared. */
  lemma RequestedOk(rows: Rows, req: Request, directory: string, now: int)
    requires RowsOk(rows)
    ensures var h, row := CertKey(req.hostname), Requested(rows, req, directory, now);
            && RowOk(h, row) && row.tenant == req.tenant && row.project == req.project && row.machine == req.machine
            && (h in rows && Usable(rows[h], directory, now) ==> SameCertificate(rows[h], row))
            && Calm(rows, rows[h := row], h)
  {
    var h := CertKey(req.hostname);
    CertKeyFixed(req.hostname);
    assert h in rows ==> RowOk(h, rows[h]);
    NoCertificateText();
  }

  lemma EnsureGentle(rows: Rows, req: Request, directory: string, now: int)
    requires RowsOk(rows)
    ensures Gentle(rows, Ensure(rows, req, directory, now).0, directory, now)
    ensures Ensure(rows, req, directory, now).1 ==> CertKey(req.hostname) in Ensure(rows, req, directory, now).0
  {
    GentleIdle(rows, directory, now);
    RequestGentle(rows, req, directory, now);
  }

  lemma NoCertificateText()
    ensures TrimSpace("") == ""
  {}

  lemma RequestOwner(rows: Rows, req: Request, row: Row)
    requires OneCertificatePerProject(rows) && !OwnerTaken(rows, req)
    requires row.tenant == req.tenant && row.project == req.project && row.machine == req.machine
    ensures OneCertificatePerProject(rows[CertKey(req.hostname) := row])
  {}

  lemma RestrictGentle(rows: Rows, after: Rows, directory: string, now: int)
    requires RowsOk(rows)
    requires forall h :: h in after ==> h in rows && after[h] == rows[h]
    requires forall h :: h in rows && Usable(rows[h], directory, now) ==> h in after
    ensures Gentle(rows, after, directory, now)
  {
    assert forall h :: h in after ==> RowOk(h, rows[h]);
  }

  // ---------------------------------------------------------------- passes

  lemma DirectoryGentle(rows: Rows, h: string, directory: string, now: int)
    requires RowsOk(rows) && h in rows
    ensures Gentle(rows, AfterDirectory(rows, h, directory, now), directory, now)
    ensures h in AfterDirectory(rows, h, directory, now)
  {
    GentleIdle(rows, directory, now);
    if HasCertificate(rows[h]) && rows[h].directory != directory {
      NoCertificateText();
      UpdateGentle(rows, h, Cleared(directory, now), directory, now);
    }
  }

  lemma AriGentle(rows: Rows, h: string, directory: string, ari: Ari, now: int)
    requires RowsOk(rows) && h in rows
    ensures Gentle(rows, Update(rows, h, AriChange(ari, now)), directory, now)
    ensures h in Update(rows, h, AriChange(ari, now))
  {
    assert RowOk(h, rows[h]);
    UpdateGentle(rows, h, AriChange(ari, now), directory, now);
  }

  lemma PushGentle(rows: Rows, h: string, serial: string, directory: string, now: int)
    requires RowsOk(rows) && h in rows
    ensures Gentle(rows, Update(rows, h, PushRecorded(serial, now)), directory, now)
    ensures h in Update(rows, h, PushRecorded(serial, now))
  {
    assert RowOk(h, rows[h]);
    UpdateGentle(rows, h, PushRecorded(serial, now), directory, now);
  }

  lemma AriStageGentle(rows: Rows, h: string, directory: string, ari: Ari, now: int)
    requires RowsOk(rows) && h in rows
    ensures Gentle(rows, AfterAri(rows, h, directory, ari, now), directory, now)
  {
    GentleIdle(rows, directory, now);
    AriGentle(rows, h, directory, ari, now);
  }

  lemma DeliveredGentle(rows: Rows, h: string, directory: string, running: bool, a: Answers, now: int)
    requires RowsOk(rows) && h in rows
    ensures Gentle(rows, Delivered(rows, h, directory, running, a, now), directory, now)
  {
    var drifted := AfterDrift(rows, h, running, a.drift, now);
    GentleIdle(rows, directory, now);
    PushGentle(rows, h, "", directory, now);
    GentleIdle(drifted, directory, now);
    PushGentle(drifted, h, drifted[h].serial, directory, now);
    GentleTransitive(rows, drifted, AfterPush(drifted, h, directory, running, a.pushed, now), directory, now);
  }

  lemma WorkGentle(rows: Rows, h: string, directory: string, running: bool, a: Answers, now: int)
    requires RowsOk(rows) && h in rows
    ensures Gentle(rows, TargetWork(rows, h, directory, running, a, now), directory, now)
  {
    var r1 := AfterDirectory(rows, h, directory, now);
    var r2 := AfterAri(r1, h, directory, a.ari, now);
    DirectoryGentle(rows, h, directory, now);
    AriStageGentle(r1, h, directory, a.ari, now);
    GentleTransitive(rows, r1, r2, directory, now);
    DeliveredGentle(r2, h, directory, running, a, now);
    GentleTransitive(rows, r2, TargetWork(rows, h, directory, running, a, now), directory, now);
  }

  lemma TargetGentle(rows: Rows, directory: string, t: CertTarget, a: Answers, now: int)
    requires RowsOk(rows)
    ensures Gentle(rows, TargetPass(rows, directory, t, a, now).0, directory, now)
  {
    var h := CertKey(t.request.hostname);
    GentleIdle(rows, directory, now);
    EnsureGentle(rows, t.request, directory, now);
    var r0 := Ensure(rows, t.request, directory, now).0;
    if h in r0 {
      WorkGentle(r0, h, directory, t.running, a, now);
      GentleTransitive(rows, r0, TargetWork(r0, h, directory, t.running, a, now), directory, now);
    }
  }

  lemma RefreshGentle(rows: Rows, h: string, directory: string, ari: Ari, now: int)
    requires RowsOk(rows) && h in rows
    ensures Gentle(rows, ProjectRefresh(rows, h, directory, ari, now).0, directory, now)
  {
    GentleIdle(rows, directory, now);
    AriGentle(rows, h, directory, ari, now);
  }

  lemma ProjectGentle(rows: Rows, directory: string, claim: Request, ari: Ari, now: int)
    requires RowsOk(rows)
    ensures Gentle(rows, ProjectPass(rows, directory, claim, ari, now).0, directory, now)
  {
    var h := CertKey(claim.hostname);
    var req := claim.(machine := PROJECT_OWNER);
    GentleIdle(rows, directory, now);
    EnsureGentle(rows, req, directory, now);
    var r0 := Ensure(rows, req, directory, now).0;
    if h in r0 {
      ProjectWorkGentle(r0, h, directory, ari, now);
      GentleTransitive(rows, r0, ProjectWork(r0, h, directory, ari, now).0, directory, now);
    }
  }

  lemma ProjectWorkGentle(rows: Rows, h: string, directory: string, ari: Ari, now: int)
    requires RowsOk(rows) && h in rows
    ensures Gentle(rows, ProjectWork(rows, h, directory, ari, now).0, directory, now)
  {
    var r1 := if rows[h].directory != directory then Update(rows, h, Cleared(directory, now)) else rows;
    ResetGentle(rows, h, directory, now);
    RefreshGentle(r1, h, directory, ari, now);
    GentleTransitive(rows, r1, ProjectRefresh(r1, h, directory, ari, now).0, directory, now);
  }

  lemma ResetGentle(rows: Rows, h: string, directory: string, now: int)
    requires RowsOk(rows) && h in rows
    ensures var after := if rows[h].directory != directory then Update(rows, h, Cleared(directory, now)) else rows;
            Gentle(rows, after, directory, now) && h in after
  {
    GentleIdle(rows, directory, now);
    if rows[h].directory != directory {
      NoCertificateText();
      UpdateGentle(rows, h, Cleared(directory, now), directory, now);
    }
  }

  // ---------------------------------------------------------------- runs

  /** Everything that touches the table; `directory` is the running one throughout. */
  datatype Step =
    | RequestStep(request: Request, now: int)
    | TargetStep(target: CertTarget, answers: Answers, now: int)
    | ServeStep(domain: string, running: bool, drifted: bool, pushed: bool, now: int)
    | ProjectStep(claim: Request, ari: Ari, now: int)
    | OrderStep(hostname: string, result: OrderResult, now: int)
    | CollectStep(live: set<string>, now: int)
    | ReleaseStep(domain: string, now: int)

  function Apply(rows: Rows, directory: string, step: Step): Rows {
    match step
    case RequestStep(request, now) => RequestRow(rows, request, directory, now).0
    case TargetStep(target, answers, now) => TargetPass(rows, directory, target, answers, now).0
    case ServeStep(domain, running, drifted, pushed, now) => ServeProject(rows, domain, directory, running, drifted, pushed, now)
    case ProjectStep(claim, ari, now) => ProjectPass(rows, directory, claim, ari, now).0
    case OrderStep(hostname, result, now) => OrderDone(rows, hostname, result, now)
    case CollectStep(live, now) => Collected(rows, live, directory, now)
    case ReleaseStep(domain, _) => Released(rows, domain)
  }

  function Run(rows: Rows, directory: string, steps: seq<Step>): Rows {
    if steps == [] then rows
    else Apply(Run(rows, directory, steps[..|steps| - 1]), directory, steps[|steps| - 1])
  }

  lemma StepGentle(rows: Rows, directory: string, step: Step)
    requires RowsOk(rows) && !step.OrderStep? && !step.ReleaseStep?
    ensures Gentle(rows, Apply(rows, directory, step), directory, step.now)
  {
    GentleIdle(rows, directory, step.now);
    match step
    case RequestStep(request, now) => RequestGentle(rows, request, directory, now);
    case TargetStep(target, answers, now) => TargetGentle(rows, directory, target, answers, now);
    case ServeStep(domain, _, _, _, now) =>
      if CertKey(domain) in rows {
        CertKeyFixed(domain);
        PushGentle(rows, CertKey(domain), rows[CertKey(domain)].serial, directory, now);
      }
    case ProjectStep(claim, ari, now) => ProjectGentle(rows, directory, claim, ari, now);
    case CollectStep(live, now) => RestrictGentle(rows, Collected(rows, live, directory, now), directory, now);
  }

  /** An order's end touches its own row only. */
  lemma OrderKeeps(rows: Rows, hostname: string, result: OrderResult, now: int)
    requires RowsOk(rows)
    ensures RowsOk(OrderDone(rows, hostname, result, now))
    ensures forall h :: h in OrderDone(rows, hostname, result, now) <==> h in rows
    ensures forall h :: h in rows && h != CertKey(hostname) ==> OrderDone(rows, hostname, result, now)[h] == rows[h]
    ensures result.OrderFailed? ==> forall h :: h in rows ==> SameCertificate(rows[h], OrderDone(rows, hostname, result, now)[h])
  {
    var h, after := CertKey(hostname), OrderDone(rows, hostname, result, now);
    if h in rows {
      assert RowOk(h, rows[h]);
      assert after == rows[h := after[h]];
      ReplaceOk(rows, h, after[h]);
    }
  }

  /** An update that keeps the row's name, owner and serial keeps the table invariant. */
  lemma UpdateRowsOk(rows: Rows, hostname: string, change: Row -> Row)
    requires RowsOk(rows)
    requires forall row: Row :: && change(row).hostname == row.hostname && change(row).tenant == row.tenant
                                && change(row).project == row.project && change(row).machine == row.machine
                                && (HasCertificate(change(row)) ==> HasCertificate(row) && change(row).serial == row.serial)
    ensures RowsOk(Update(rows, hostname, change))
  {
    var h := CertKey(hostname);
    if h in rows {
      assert RowOk(h, rows[h]);
      ReplaceOk(rows, h, change(rows[h]));
    }
  }

  lemma StepRowsOk(rows: Rows, directory: string, step: Step)
    requires RowsOk(rows)
    ensures RowsOk(Apply(rows, directory, step))
  {
    match step
    case OrderStep(hostname, result, now) => OrderKeeps(rows, hostname, result, now);
    case ReleaseStep(domain, _) =>
    case _ => StepGentle(rows, directory, step);
  }

  lemma ProjectRowsOk(rows: Rows, directory: string, claim: Request, ari: Ari, now: int)
    ensures RowsOk(rows) ==> RowsOk(ProjectPass(rows, directory, claim, ari, now).0)
  {
    if RowsOk(rows) {
      ProjectGentle(rows, directory, claim, ari, now);
    }
  }

  lemma TargetRowsOk(rows: Rows, directory: string, t: CertTarget, a: Answers, now: int)
    ensures RowsOk(rows) ==> RowsOk(TargetPass(rows, directory, t, a, now).0)
  {
    if RowsOk(rows) {
      TargetGentle(rows, directory, t, a, now);
    }
  }

  lemma OrderRowsOk(rows: Rows, hostname: string, result: OrderResult, now: int)
    ensures RowsOk(rows) ==> RowsOk(OrderDone(rows, hostname, result, now))
  {
    if RowsOk(rows) {
      OrderKeeps(rows, hostname, result, now);
    }
  }

  /** Every reachable table: rows under their own names, serials behind certificates, one per project. */
  lemma {:induction false} RunRowsOk(rows: Rows, directory: string, steps: seq<Step>)
    requires RowsOk(rows)
    ensures RowsOk(Run(rows, directory, steps))
  {
    if steps != [] {
      RunRowsOk(rows, directory, steps[..|steps| - 1]);
      StepRowsOk(Run(rows, directory, steps[..|steps| - 1]), directory, steps[|steps| - 1]);
    }
  }

  // ---------------------------------------------------------------- retention

  /** The only steps that may take a usable certificate away: a new one stored, or its domain released. */
  ghost predicate MayReplace(step: Step, h: string) {
    || (step.OrderStep? && step.result.OrderIssued? && CertKey(step.hostname) == h)
    || (step.ReleaseStep? && GoesWith(h, step.domain))
  }

  lemma StepRetains(rows: Rows, directory: string, step: Step, h: string, until: int)
    requires RowsOk(rows) && !MayReplace(step, h) && step.now <= until
    requires h in rows && Usable(rows[h], directory, until)
    ensures h in Apply(rows, directory, step) && SameCertificate(rows[h], Apply(rows, directory, step)[h])
  {
    match step
    case OrderStep(hostname, result, now) => OrderKeeps(rows, hostname, result, now);
    case ReleaseStep(domain, _) =>
    case _ =>
      StepGentle(rows, directory, step);
      assert Retains(rows, Apply(rows, directory, step), h, directory, step.now);
  }

  /** A certificate still usable at the end of a run was kept by every step that did not replace it. */
  lemma {:induction false} RunRetains(rows: Rows, directory: string, steps: seq<Step>, h: string, until: int)
    requires RowsOk(rows) && h in rows && Usable(rows[h], directory, until)
    requires forall s :: s in steps ==> !MayReplace(s, h) && s.now <= until
    ensures h in Run(rows, directory, steps) && SameCertificate(rows[h], Run(rows, directory, steps)[h])
    ensures Usable(Run(rows, directory, steps)[h], directory, until)
  {
    if steps != [] {
      var front, last := steps[..|steps| - 1], steps[|steps| - 1];
      assert last in steps;
      RunRowsOk(rows, directory, front);
      RunRetains(rows, directory, front, h, until);
      StepRetains(Run(rows, directory, front), directory, last, h, until);
    }
  }

  // ---------------------------------------------------------------- backoff

  datatype Failure = Failure(at: int, delay: int)

  ghost predicate Fails(step: Step, h: string) {
    step.OrderStep? && step.result.OrderFailed? && CertKey(step.hostname) == h
  }

  /** The failures of a hostname since its count was last zero, with the wait each one ordered. */
  ghost function Streak(rows: Rows, directory: string, steps: seq<Step>, h: string): seq<Failure> {
    if steps == [] then []
    else
      var front, last := steps[..|steps| - 1], steps[|steps| - 1];
      NextStreak(Streak(rows, directory, front, h), last, Run(rows, directory, steps), h)
  }

  ghost function NextStreak(s: seq<Failure>, step: Step, after: Rows, h: string): seq<Failure> {
    if h !in after || after[h].attempts == 0 then []
    else if Fails(step, h) && after[h].nextAttempt.Some?
    then s + [Failure(step.now, after[h].nextAttempt.value - step.now)]
    else s
  }

  ghost predicate Growing(s: seq<Failure>) {
    forall i, j :: 0 <= i < j < |s| ==> s[i].delay <= s[j].delay
  }

  /** How a row's bookkeeping follows from its failures. */
  ghost predicate BackedOff(row: Row, s: seq<Failure>) {
    && row.attempts >= 0
    && (row.attempts == 0 <==> row.nextAttempt.None?)
    && (row.attempts == 0 <==> s == [])
    && (row.attempts > 0 ==>
          && s[|s| - 1].delay == Backoff(row.attempts)
          && row.nextAttempt == Some(s[|s| - 1].at + Backoff(row.attempts)))
    && Growing(s)
  }

  ghost predicate StreakOk(rows: Rows, h: string, s: seq<Failure>) {
    if h in rows then BackedOff(rows[h], s) else s == []
  }

  lemma FailureBacksOff(row: Row, s: seq<Failure>, message: string, now: int)
    requires BackedOff(row, s)
    ensures var after := FailureRecorded(message, now)(row);
            && after.nextAttempt.Some? && after.attempts > 0
            && BackedOff(after, s + [Failure(now, after.nextAttempt.value - now)])
            && (FailureReason(TrimSpace(message)) == RateLimited ==> after.nextAttempt == Some(now + SIX_HOURS))
  {
    var after := FailureRecorded(message, now)(row);
    if after.attempts > row.attempts {
      BackoffGrows(row.attempts, after.attempts);
    } else {
      BackoffGrows(row.attempts, row.attempts);
    }
  }

  lemma StepCalm(rows: Rows, directory: string, step: Step, h: string)
    requires RowsOk(rows) && !Fails(step, h)
    ensures Calm(rows, Apply(rows, directory, step), h)
  {
    match step
    case OrderStep(hostname, result, now) => OrderKeeps(rows, hostname, result, now);
    case ReleaseStep(domain, _) =>
    case _ => StepGentle(rows, directory, step);
  }

  lemma CalmKeepsStreak(before: Rows, step: Step, after: Rows, h: string, s: seq<Failure>)
    requires StreakOk(before, h, s) && !Fails(step, h) && Calm(before, after, h)
    ensures StreakOk(after, h, NextStreak(s, step, after, h))
  {}

  lemma FailureExtendsStreak(before: Rows, step: Step, h: string, s: seq<Failure>)
    requires StreakOk(before, h, s) && Fails(step, h)
    ensures var after := OrderDone(before, step.hostname, step.result, step.now);
            StreakOk(after, h, NextStreak(s, step, after, h))
  {
    if h in before {
      FailureBacksOff(before[h], s, step.result.message, step.now);
    }
  }

  lemma StepBacksOff(before: Rows, directory: string, step: Step, h: string, s: seq<Failure>)
    requires RowsOk(before) && StreakOk(before, h, s)
    ensures var after := Apply(before, directory, step); StreakOk(after, h, NextStreak(s, step, after, h))
  {
    if Fails(step, h) {
      FailureExtendsStreak(before, step, h, s);
    } else {
      StepCalm(before, directory, step, h);
      CalmKeepsStreak(before, step, Apply(before, directory, step), h, s);
    }
  }

  /** Over every run, a row's attempts and next attempt are exactly what its failures since the last reset say. */
  lemma {:induction false} RunBacksOff(directory: string, steps: seq<Step>, h: string)
    ensures StreakOk(Run(map[], directory, steps), h, Streak(map[], directory, steps, h))
  {
    if steps != [] {
      var front, last := steps[..|steps| - 1], steps[|steps| - 1];
      RunBacksOff(directory, front, h);
      RunRowsOk(map[], directory, front);
      StepBacksOff(Run(map[], directory, front), directory, last, h, Streak(map[], directory, front, h));
    }
  }

  /** An order asked for a row that failed before, and has nothing usable, comes after the last wait. */
  ghost predicate Waited(s: seq<Failure>, after: Rows, h: string, directory: string, now: int, due: Due) {
    due.DueSince? && h in after && after[h].attempts > 0 && !Usable(after[h], directory, now) ==>
      s != [] && now >= s[|s| - 1].at + s[|s| - 1].delay
  }

  /** No pass asks for an order before the wait of the last failure is over, unless it is a renewal. */
  lemma OrderWaits(directory: string, steps: seq<Step>, t: CertTarget, a: Answers, now: int)
    ensures var h := CertKey(t.request.hostname);
            var pass := TargetPass(Run(map[], directory, steps), directory, t, a, now);
            Waited(Streak(map[], directory, steps, h), pass.0, h, directory, now, pass.1.due)
  {
    var h := CertKey(t.request.hostname);
    RunBacksOff(directory, steps, h);
    RunRowsOk(map[], directory, steps);
    PassWaits(Run(map[], directory, steps), directory, t, a, now, Streak(map[], directory, steps, h));
  }

  lemma PassWaits(rows: Rows, directory: string, t: CertTarget, a: Answers, now: int, s: seq<Failure>)
    requires RowsOk(rows) && StreakOk(rows, CertKey(t.request.hostname), s)
    ensures var pass := TargetPass(rows, directory, t, a, now);
            Waited(s, pass.0, CertKey(t.request.hostname), directory, now, pass.1.due)
  {
    var h, pass := CertKey(t.request.hostname), TargetPass(rows, directory, t, a, now);
    PassCalm(rows, directory, t, a, now, h);
    TargetReport(rows, directory, t, a, now);
    DueWaits(rows, pass.0, h, s, directory, now, pass.1.due);
  }

  lemma PassCalm(rows: Rows, directory: string, t: CertTarget, a: Answers, now: int, h: string)
    requires RowsOk(rows)
    ensures Calm(rows, TargetPass(rows, directory, t, a, now).0, h)
  {
    TargetGentle(rows, directory, t, a, now);
  }

  /** The same for the order decision of a project's certificate. */
  lemma ProjectOrderWaits(directory: string, steps: seq<Step>, claim: Request, ari: Ari, now: int)
    ensures var h := CertKey(claim.hostname);
            var pass := ProjectPass(Run(map[], directory, steps), directory, claim, ari, now);
            Waited(Streak(map[], directory, steps, h), pass.0, h, directory, now, pass.1)
  {
    var h, rows := CertKey(claim.hostname), Run(map[], directory, steps);
    RunBacksOff(directory, steps, h);
    RunRowsOk(map[], directory, steps);
    ProjectPassWaits(rows, directory, claim, ari, now, Streak(map[], directory, steps, h));
  }

  lemma ProjectPassWaits(rows: Rows, directory: string, claim: Request, ari: Ari, now: int, s: seq<Failure>)
    requires RowsOk(rows) && StreakOk(rows, CertKey(claim.hostname), s)
    ensures var pass := ProjectPass(rows, directory, claim, ari, now);
            Waited(s, pass.0, CertKey(claim.hostname), directory, now, pass.1)
  {
    var h, pass := CertKey(claim.hostname), ProjectPass(rows, directory, claim, ari, now);
    ProjectPassCalm(rows, directory, claim, ari, now, h);
    ProjectReport(rows, directory, claim, ari, now);
    ProjectDueWaits(rows, pass.0, h, s, directory, now, pass.1);
  }

  lemma ProjectPassCalm(rows: Rows, directory: string, claim: Request, ari: Ari, now: int, h: string)
    requires RowsOk(rows)
    ensures Calm(rows, ProjectPass(rows, directory, claim, ari, now).0, h)
  {
    ProjectGentle(rows, directory, claim, ari, now);
  }

  lemma ProjectReport(rows: Rows, directory: string, claim: Request, ari: Ari, now: int)
    ensures var (after, due) := ProjectPass(rows, directory, claim, ari, now);
            var h := CertKey(claim.hostname);
            due.DueSince? ==> h in after && due == ProjectDue(after[h], directory, now)
  {}

  lemma ProjectDueWaits(before: Rows, after: Rows, h: string, s: seq<Failure>, directory: string, now: int, due: Due)
    requires StreakOk(before, h, s) && Calm(before, after, h)
    requires due.DueSince? ==> h in after && due == ProjectDue(after[h], directory, now)
    ensures Waited(s, after, h, directory, now, due)
  {
    if h in after && !Usable(after[h], directory, now) {
      UnusableDueIff(after[h], directory, now);
    }
  }

  lemma DueWaits(before: Rows, after: Rows, h: string, s: seq<Failure>, directory: string, now: int, due: Due)
    requires StreakOk(before, h, s) && Calm(before, after, h)
    requires due.DueSince? ==> h in after && due == OrderDue(after[h], StateOf(after[h], directory, now), now)
    ensures Waited(s, after, h, directory, now, due)
  {
    if h in after && !Usable(after[h], directory, now) {
      UnusableDueIff(after[h], directory, now);
    }
  }

  /** A pass that reports an order due reports it of the row it leaves behind. */
  lemma TargetReport(rows: Rows, directory: string, t: CertTarget, a: Answers, now: int)
    ensures var (after, outcome) := TargetPass(rows, directory, t, a, now);
            var h := CertKey(t.request.hostname);
            outcome.due.DueSince? ==>
              h in after && outcome.due == OrderDue(after[h], StateOf(after[h], directory, now), now)
  {}

  // ---------------------------------------------------------------- requests and stored certificates

  /** Re-requesting a usable row gives issued with the same certificate, and no order is due. */
  lemma RerequestIsIssued(rows: Rows, req: Request, directory: string, now: int)
    requires RowsOk(rows) && Complete(req, directory) && !OwnerTaken(rows, req)
    requires CertKey(req.hostname) in rows && Usable(rows[CertKey(req.hostname)], directory, now)
    ensures var h, after := CertKey(req.hostname), RequestRow(rows, req, directory, now).0;
            && h in after && SameCertificate(rows[h], after[h])
            && StateOf(after[h], directory, now) == Issued
            && OrderDue(after[h], StateOf(after[h], directory, now), now) == NotDue
  {
    var h := CertKey(req.hostname);
    assert RowOk(h, rows[h]);
  }

  /** Requesting any other row gives a pending row whose order is due at once. */
  lemma RequestIsPending(rows: Rows, req: Request, directory: string, now: int)
    requires Complete(req, directory) && !OwnerTaken(rows, req)
    requires CertKey(req.hostname) in rows ==> !Usable(rows[CertKey(req.hostname)], directory, now)
    ensures var h, after := CertKey(req.hostname), RequestRow(rows, req, directory, now).0;
            && h in after && StateOf(after[h], directory, now) == Pending
            && OrderDue(after[h], Pending, now) == DueSince(None)
  {
    NoCertificateText();
  }

  /** A stored certificate serves exactly when its row already belongs to the running directory. */
  lemma StoredUsableIff(rows: Rows, hostname: string, leaf: Leaf, directory: string, now: int)
    requires CertKey(hostname) in rows
    ensures var h := CertKey(hostname);
            Usable(OrderDone(rows, hostname, OrderIssued(leaf), now)[h], directory, now) <==>
            rows[h].directory == directory && leaf.notAfter > now
  {}

  // ---------------------------------------------------------------- orders across a change of directory

  /** The certificate, its directory and the failure columns are the same. */
  ghost predicate SameOrderState(a: Row, b: Row) {
    && a.cert == b.cert && a.directory == b.directory && a.notAfter == b.notAfter
    && a.lastError == b.lastError && a.nextAttempt == b.nextAttempt
  }

  lemma AriOnOrderState(rows: Rows, h: string, directory: string, ari: Ari, now: int)
    requires h in rows && CertKey(h) == h
    ensures h in AfterAri(rows, h, directory, ari, now) && SameOrderState(rows[h], AfterAri(rows, h, directory, ari, now)[h])
  {}

  lemma DeliveryOnOrderState(rows: Rows, h: string, directory: string, running: bool, a: Answers, now: int)
    requires h in rows && CertKey(h) == h
    ensures h in Delivered(rows, h, directory, running, a, now)
    ensures SameOrderState(rows[h], Delivered(rows, h, directory, running, a, now)[h])
  {
    var drifted := AfterDrift(rows, h, running, a.drift, now);
    assert h in drifted && SameOrderState(rows[h], drifted[h]);
  }

  /** What the stages of a target's pass do to the certificate: only the directory check clears it. */
  lemma WorkOnDirectory(rows: Rows, h: string, directory: string, running: bool, a: Answers, now: int)
    requires h in rows && CertKey(h) == h
    ensures h in TargetWork(rows, h, directory, running, a, now)
    ensures SameOrderState(if HasCertificate(rows[h]) && rows[h].directory != directory then Fresh(rows[h], directory, now) else rows[h],
                           TargetWork(rows, h, directory, running, a, now)[h])
  {
    var r1 := AfterDirectory(rows, h, directory, now);
    AriOnOrderState(r1, h, directory, a.ari, now);
    DeliveryOnOrderState(AfterAri(r1, h, directory, a.ari, now), h, directory, running, a, now);
  }

  /** The table after a pass over an existing row. */
  function Passed(rows: Rows, directory: string, t: CertTarget, a: Answers, now: int): Rows {
    TargetWork(rows, CertKey(t.request.hostname), directory, t.running, a, now)
  }

  lemma PassIsWork(rows: Rows, directory: string, t: CertTarget, a: Answers, now: int)
    requires CertKey(t.request.hostname) in rows
    ensures var h := CertKey(t.request.hostname);
            && h in Passed(rows, directory, t, a, now)
            && TargetPass(rows, directory, t, a, now) ==
               (Passed(rows, directory, t, a, now), Report(Passed(rows, directory, t, a, now)[h], directory, t.mirroredNotAfter, now))
  {}

  /** The row still serves the certificate that was stored. */
  ghost predicate ServesLeaf(rows: Rows, h: string, leaf: Leaf, directory: string, now: int) {
    h in rows && rows[h].cert == leaf.cert && Usable(rows[h], directory, now)
  }

  /**
   A pass, the order it asks for, and the next pass: the certificate is kept exactly when the row held a
   certificate before or already named the running directory. Otherwise the next pass clears the certificate
   just stored and asks for another order.
   */
  lemma OrderKeptIff(rows: Rows, directory: string, t: CertTarget, a: Answers, now: int, leaf: Leaf, done: int, b: Answers, later: int)
    requires CertKey(t.request.hostname) in rows && leaf.notAfter > later
    ensures var h := CertKey(t.request.hostname);
            var first := TargetPass(rows, directory, t, a, now);
            var second := TargetPass(OrderDone(first.0, h, OrderIssued(leaf), done), directory, t, b, later);
            && (ServesLeaf(second.0, h, leaf, directory, later) <==> HasCertificate(rows[h]) || rows[h].directory == directory)
            && (!HasCertificate(rows[h]) && rows[h].directory != directory ==>
                  && first.1.due == RetryDue(rows[h], now)
                  && second.1.state == Pending && second.1.due == DueSince(None))
  {
    var h := CertKey(t.request.hostname);
    CertKeyFixed(t.request.hostname);
    PassIsWork(rows, directory, t, a, now);
    WorkOnDirectory(rows, h, directory, t.running, a, now);
    var r1 := Passed(rows, directory, t, a, now);
    var r2 := OrderDone(r1, h, OrderIssued(leaf), done);
    PassIsWork(r2, directory, t, b, later);
    WorkOnDirectory(r2, h, directory, t.running, b, later);
    NoCertificateText();
    PendingDue(r1[h], directory, now);
    PendingDue(Passed(r2, directory, t, b, later)[h], directory, later);
  }

  lemma PendingDue(row: Row, directory: string, now: int)
    ensures !HasCertificate(row) ==> OrderDue(row, StateOf(row, directory, now), now) == RetryDue(row, now)
    ensures !HasCertificate(row) && TrimSpace(row.lastError) == "" ==> StateOf(row, directory, now) == Pending
  {}

  lemma RunOne(rows: Rows, directory: string, step: Step)
    ensures Run(rows, directory, [step]) == Apply(rows, directory, step)
  {
    assert [step][..|[step]| - 1] == [];
    assert Run(rows, directory, []) == rows;
  }

  /** Reachable: a row requested under one directory, then passes under another, wastes its first order. */
  lemma RestartWastesOrder(before: string, directory: string, t: CertTarget, asked: int, a: Answers, now: int, leaf: Leaf, done: int,
                           b: Answers, later: int)
    requires Complete(t.request, before) && before != directory && leaf.notAfter > later
    ensures var h, rows := CertKey(t.request.hostname), Run(map[], before, [RequestStep(t.request, asked)]);
            var first := TargetPass(rows, directory, t, a, now);
            var second := TargetPass(OrderDone(first.0, h, OrderIssued(leaf), done), directory, t, b, later);
            first.1.due == DueSince(None) && !ServesLeaf(second.0, h, leaf, directory, later) && second.1.due == DueSince(None)
  {
    var rows := Run(map[], before, [RequestStep(t.request, asked)]);
    RunOne(map[], before, RequestStep(t.request, asked));
    assert rows == RequestRow(map[], t.request, before, asked).0;
    NoCertificateText();
    OrderKeptIff(rows, directory, t, a, now, leaf, done, b, later);
  }

  /** A project's row names the running directory after every pass, so its order is never wasted. */
  lemma ProjectOrderKept(rows: Rows, directory: string, claim: Request, a: Ari, now: int, leaf: Leaf, done: int, b: Ari, later: int)
    requires CertKey(claim.hostname) in rows && leaf.notAfter > later
    requires rows[CertKey(claim.hostname)].tenant == claim.tenant && rows[CertKey(claim.hostname)].project == claim.project
    requires rows[CertKey(claim.hostname)].machine == PROJECT_OWNER
    ensures var h := CertKey(claim.hostname);
            var first := ProjectPass(rows, directory, claim, a, now);
            var second := ProjectPass(OrderDone(first.0, h, OrderIssued(leaf), done), directory, claim, b, later);
            ServesLeaf(second.0, h, leaf, directory, later)
  {
    var h := CertKey(claim.hostname);
    CertKeyFixed(claim.hostname);
    ProjectPassIsWork(rows, directory, claim, a, now);
    ProjectWorkDirectory(rows, h, directory, a, now);
    var r2 := OrderDone(ProjectWork(rows, h, directory, a, now).0, h, OrderIssued(leaf), done);
    ProjectPassIsWork(r2, directory, claim, b, later);
    ProjectWorkDirectory(r2, h, directory, b, later);
  }

  lemma ProjectPassIsWork(rows: Rows, directory: string, claim: Request, ari: Ari, now: int)
    requires var h := CertKey(claim.hostname);
             h in rows && rows[h].tenant == claim.tenant && rows[h].project == claim.project && rows[h].machine == PROJECT_OWNER
    ensures ProjectPass(rows, directory, claim, ari, now) == ProjectWork(rows, CertKey(claim.hostname), directory, ari, now)
  {}

  lemma ProjectWorkDirectory(rows: Rows, h: string, directory: string, ari: Ari, now: int)
    requires h in rows && CertKey(h) == h
    ensures var after := ProjectWork(rows, h, directory, ari, now).0;
            && h in after && after[h].directory == directory
            && after[h].tenant == rows[h].tenant && after[h].project == rows[h].project && after[h].machine == rows[h].machine
            && (rows[h].directory == directory ==> after[h].cert == rows[h].cert && after[h].notAfter == rows[h].notAfter)
  {}
}
