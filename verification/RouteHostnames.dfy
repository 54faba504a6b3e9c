/**
 Which hostnames reach a publish: what the handler accepts is stored as it stands, so a reconcile pass over such
 rows prunes exactly the routes of absent machines. A direct publish may store a spelling it cannot find again.
 */
module RouteHostnames {
  import opened Text
  import opened Names
  import opened Registry
  import RegistryInvariant
  import opened Caddyfile
  import opened RouteManagers
  import opened RouteRuns

  // ---------------------------------------------------------------- the handler's validation

  predicate DnsLabel(part: string) {
    ValidLabel(part) && |part| <= 63
  }

  predicate ExactPublicHostname(h: string) {
    h != "" && |h| <= 253 && '.' in h && forall part :: part in Split(h, '.') ==> DnsLabel(part)
  }

  /** An exact hostname, or one behind a single leading wildcard label. */
  predicate PublicHostname(h: string) {
    ExactPublicHostname(Base(h))
  }

  /** `routeHostname`: a custom hostname, or label, tenant and base; None is refused. */
  function RouteHostname(hostname: string, name: string, machine: string, tenant: string, base: string): Option<string> {
    var custom := NormalizeHostname(hostname);
    if custom != "" then
      if PublicHostname(custom) then Some(custom) else None
    else
      var part := Lower(TrimSpace(if TrimSpace(name) == "" then machine else TrimSpace(name)));
      if !DnsLabel(part) || TrimSpace(base) == "" || TrimSpace(tenant) == "" then None
      else Some(part + "." + tenant + "." + base)
  }

  /** A well-formed name, possibly behind a wildcard. */
  ghost predicate Validated(h: string) {
    ValidName(Base(h))
  }

  /** Everything the handler accepts is well formed, given well-formed tenant and base names. */
  lemma HandlerValidates(hostname: string, name: string, machine: string, tenant: string, base: string)
    requires RouteHostname(hostname, name, machine, tenant, base).Some?
    requires NormalizeHostname(hostname) == "" ==> ValidLabel(tenant) && ValidName(base)
    ensures Validated(RouteHostname(hostname, name, machine, tenant, base).value)
  {
    if NormalizeHostname(hostname) == "" {
      var part := Lower(TrimSpace(if TrimSpace(name) == "" then machine else TrimSpace(name)));
      ValidNameBelow(tenant, base);
      ValidNameBelow(part, tenant + "." + base);
      assert part + "." + tenant + "." + base == part + "." + (tenant + "." + base);
      ValidNameFixed(part + "." + (tenant + "." + base));
    }
  }

  /** Well spelled, with at least two labels of at most 63 characters, and 253 characters in all. */
  ghost predicate ResolvableName(h: string) {
    WellSpelled(h) && '.' in h && |h| <= 253 && forall part :: part in Split(h, '.') ==> |part| <= 63
  }

  lemma ExactIff(h: string)
    ensures ExactPublicHostname(h) <==> ResolvableName(h)
  {
    ValidNameIff(h);
  }

  lemma DnsLabelIff(part: string)
    ensures DnsLabel(part) <==> WellSpelled(part) && '.' !in part && |part| <= 63
  {
    if '.' !in part {
      LabelSpelled(part);
    } else {
      var i :| 0 <= i < |part| && part[i] == '.';
      assert !LabelChar(part[i]);
    }
  }

  /** The hostname a publish gets: a resolvable custom one as it is, else the label or machine below tenant and base. */
  lemma HandlerAnswers(hostname: string, name: string, machine: string, tenant: string, base: string)
    ensures var custom := NormalizeHostname(hostname);
            var part := Lower(TrimSpace(if TrimSpace(name) == "" then machine else TrimSpace(name)));
            RouteHostname(hostname, name, machine, tenant, base) ==
            if custom != "" then (if ResolvableName(Base(custom)) then Some(custom) else None)
            else if WellSpelled(part) && '.' !in part && |part| <= 63 && TrimSpace(base) != "" && TrimSpace(tenant) != ""
            then Some(part + "." + tenant + "." + base)
            else None
  {
    ExactIff(Base(NormalizeHostname(hostname)));
    DnsLabelIff(Lower(TrimSpace(if TrimSpace(name) == "" then machine else TrimSpace(name))));
  }

  /** A well-formed name is its own normal form. */
  lemma ValidatedFixed(h: string)
    requires Validated(h)
    ensures NormalizeHostname(h) == h
  {
    ValidNameShape(Base(h));
    ValidNameFixed(Base(h));
    if IsWildcard(h) {
      WildcardUntouched(Base(h));
      assert h == WILDCARD + Base(h);
    } else {
      Untouched(h);
    }
  }

  lemma WildcardUntouched(b: string)
    requires b != "" && !IsSpace(b[|b| - 1]) && b[|b| - 1] != '.' && Lower(b) == b
    ensures NormalizeHostname(WILDCARD + b) == WILDCARD + b
  {
    LowerWildcard(b);
    Untouched(WILDCARD + b);
  }

  lemma LowerWildcard(b: string)
    ensures Lower(WILDCARD + b) == WILDCARD + Lower(b)
  {}

  /** Normalizing changes nothing when there is nothing to trim and nothing to fold. */
  lemma Untouched(h: string)
    requires h != "" && !IsSpace(h[0]) && !IsSpace(h[|h| - 1]) && h[|h| - 1] != '.' && Lower(h) == h
    ensures NormalizeHostname(h) == h
  {
    TrimSpaceFixed(h);
    assert h[|h| - 1..] == [h[|h| - 1]];
  }

  // ---------------------------------------------------------------- runs of validated publishes

  /** Every stored hostname is its own normal form. */
  ghost predicate NormalForm(routes: seq<Route>) {
    forall r :: r in routes ==> NormalizeHostname(r.hostname) == r.hostname
  }

  ghost predicate ValidatedOp(op: Op) {
    op.PublishOp? ==> Validated(op.request.hostname)
  }

  lemma OpKeepsNormalForm(s: Ingress, cfg: RenderConfig, op: Op)
    requires NormalForm(s.tables.routes) && ValidatedOp(op)
    ensures NormalForm(Apply(s, cfg, op).tables.routes)
  {
    match op
    case PublishOp(request, w, now) =>
      ValidatedFixed(request.hostname);
      var row := UpsertInserts(s.tables, request, now);
      PublishTables(s, cfg, request, w, now);
    case DeleteOp(hostname, tenant, w) =>
    case ReconcileOp(w) => SweptReached(s, s.tables.routes, w);
    case SyncOp =>
  }

  /** Over every run of validated publishes the stored hostnames are in normal form. */
  lemma {:induction false} RunKeepsNormalForm(s: Ingress, cfg: RenderConfig, ops: seq<Op>)
    requires NormalForm(s.tables.routes) && forall op :: op in ops ==> ValidatedOp(op)
    ensures NormalForm(Run(s, cfg, ops).tables.routes)
    decreases |ops|
  {
    if ops != [] {
      OpKeepsNormalForm(s, cfg, ops[0]);
      RunKeepsNormalForm(Apply(s, cfg, ops[0]), cfg, ops[1..]);
    }
  }

  const NO_INGRESS := Ingress(RegistryInvariant.NO_ROWS, map[], "")

  lemma ValidatedRows(install: Install, cfg: RenderConfig, ops: seq<Op>)
    requires forall op :: op in ops ==> ValidatedOp(op)
    ensures var routes := Run(NO_INGRESS, cfg, ops).tables.routes;
            NormalForm(routes) && RegistryInvariant.RoutesOk(routes) && Folded(routes)
  {
    RunKeepsNormalForm(NO_INGRESS, cfg, ops);
    RunKeepsRoutes(NO_INGRESS, install, cfg, ops);
  }

  /** After any such run, an error-free pass prunes exactly the routes of absent machines. */
  lemma ValidatedRunPrunesExactly(install: Install, cfg: RenderConfig, ops: seq<Op>, w: Backend)
    requires forall op :: op in ops ==> ValidatedOp(op)
    requires Reconcile(Run(NO_INGRESS, cfg, ops), cfg, w).ok
    ensures var s := Run(NO_INGRESS, cfg, ops);
            PrunesExactly(s.tables.routes, Reconcile(s, cfg, w).s.tables.routes, w)
  {
    ValidatedRows(install, cfg, ops);
    PrunesExactlyIff(Run(NO_INGRESS, cfg, ops), cfg, w);
  }

  /** And every running machine's route has a device at the machine's address. */
  lemma ValidatedRunWires(install: Install, cfg: RenderConfig, ops: seq<Op>, w: Backend, r: Route)
    requires forall op :: op in ops ==> ValidatedOp(op)
    requires Reconcile(Run(NO_INGRESS, cfg, ops), cfg, w).ok
    requires r in Run(NO_INGRESS, cfg, ops).tables.routes && Running(w, r)
    ensures Wired(Reconcile(Run(NO_INGRESS, cfg, ops), cfg, w).s, w, r)
  {
    ValidatedRows(install, cfg, ops);
    SweptDevices(Run(NO_INGRESS, cfg, ops), cfg, w, r);
  }

  // ---------------------------------------------------------------- a publish past the handler

  /** One trailing dot goes at a time. */
  lemma DotsNormalize(name: string)
    requires ValidName(name)
    ensures NormalizeHostname(name + "..") == name + "." && NormalizeHostname(name + ".") == name
  {
    ValidNameShape(name);
    ValidNameFixed(name);
    DropsOneDot(name + ".");
    DropsOneDot(name);
    TwoDots(name);
  }

  lemma TwoDots(name: string)
    ensures name + ".." == name + "." + "." && Lower(name + ".") == Lower(name) + "."
  {}

  lemma DropsOneDot(s: string)
    requires s != "" && !IsSpace(s[0]) && !IsSpace(s[|s| - 1])
    ensures NormalizeHostname(s + ".") == Lower(s)
  {
    TrimSpaceFixed(s + ".");
    assert (s + ".")[|s|..] == ".";
    assert (s + ".")[..|s|] == s;
    TrimSpaceFixed(s);
  }

  /** A machine that answers with an address. */
  const UP := Backend((r: Route) => Some(MachineState(true, true, "10.0.0.2")), (r: Route) => true, true)

  /** A machine that is gone. */
  const DOWN := Backend((r: Route) => Some(MachineState(false, false, "")), (r: Route) => true, true)

  function Dotted(name: string): Route {
    Route(name + "..", "t", "p", "m", 80, 0, 0)
  }

  /**
   The failing family: for every well-formed name, publishing it with two trailing dots stores it with one, and
   the error-free pass after its machine is gone leaves the row.
   */
  lemma DottedRouteSurvives(name: string, cfg: RenderConfig)
    requires ValidName(name)
    ensures var (s, outcome) := Publish(NO_INGRESS, cfg, Dotted(name), UP, 0);
            && outcome.PublishOk? && |s.tables.routes| == 1 && s.tables.routes[0].hostname == name + "."
            && !AbsentFixed(s.tables.routes, DOWN)
            && Reconcile(s, cfg, DOWN).ok && s.tables.routes[0] in Reconcile(s, cfg, DOWN).s.tables.routes
            && !PrunesExactly(s.tables.routes, Reconcile(s, cfg, DOWN).s.tables.routes, DOWN)
  {
    DotsNormalize(name);
    assert "10.0.0.2" != "" && TrimSpace("10.0.0.2") == "10.0.0.2" && TrimSpace("t") == "t";
    var row := UpsertInserts(RegistryInvariant.NO_ROWS, Dotted(name), 0);
    PublishTables(NO_INGRESS, cfg, Dotted(name), UP, 0);
    FirstRouteInserts(Dotted(name), name + ".");
    var s := Publish(NO_INGRESS, cfg, Dotted(name), UP, 0).0;
    assert s.tables.routes == [row];
    DottedRowStays(s, cfg, row, name);
  }

  /** Into an empty registry every complete request inserts a row. */
  lemma FirstRouteInserts(req: Route, hostname: string)
    requires NormalizeHostname(req.hostname) == hostname != "" && TrimSpace(req.tenant) != "" && req.backendPort > 0
    ensures NewRow(RegistryInvariant.NO_ROWS, req)
  {
    assert !PortUsed([], LOCAL_PORT_BASE);
  }

  lemma DottedRowStays(s: Ingress, cfg: RenderConfig, row: Route, name: string)
    requires s.tables.routes == [row] && row.hostname == name + "." && NormalizeHostname(name + ".") == name
    ensures !AbsentFixed(s.tables.routes, DOWN) && Reconcile(s, cfg, DOWN).ok
    ensures row in Reconcile(s, cfg, DOWN).s.tables.routes
    ensures !PrunesExactly(s.tables.routes, Reconcile(s, cfg, DOWN).s.tables.routes, DOWN)
  {
    assert row in s.tables.routes && Absent(DOWN, row);
    PassFailsIff(s, cfg, DOWN);
    SweptReached(s, s.tables.routes, DOWN);
    assert Unpruned(s.tables.routes, DOWN, row);
  }

  // ---------------------------------------------------------------- two spellings, one device

  function Plain(name: string): Route {
    Route(name, "t", "p", "m", 80, 0, 0)
  }

  lemma AnsweredBy(req: Route)
    ensures Answers(UP, req)
  {
    assert "10.0.0.2" != "" && TrimSpace("10.0.0.2") == "10.0.0.2";
  }

  /** The registry after one publish into an empty one. */
  ghost predicate OneRoute(t: Tables, row: Route) {
    t == RegistryInvariant.NO_ROWS.(routes := [row])
  }

  lemma DottedFirst(name: string, cfg: RenderConfig) returns (row: Route)
    requires ValidName(name)
    ensures row.hostname == name + "." && OneRoute(Publish(NO_INGRESS, cfg, Dotted(name), UP, 0).0.tables, row)
  {
    DotsNormalize(name);
    AnsweredBy(Dotted(name));
    assert TrimSpace("t") == "t";
    FirstRouteInserts(Dotted(name), name + ".");
    row := UpsertInserts(RegistryInvariant.NO_ROWS, Dotted(name), 0);
    PublishTables(NO_INGRESS, cfg, Dotted(name), UP, 0);
  }

  /** A lookup of the name does not find its dotted spelling. */
  lemma PlainIsNew(t: Tables, row: Route, name: string)
    requires OneRoute(t, row) && ValidName(name) && row.hostname == name + "."
    ensures NewRow(t, Plain(name))
  {
    ValidNameFixed(name);
    assert Base(name) == name;
    ValidatedFixed(name);
    assert TrimSpace("t") == "t";
    assert row.hostname != name;
    NothingElse(t, row, name);
    FreeBeside(t.routes, row);
  }

  lemma NothingElse(t: Tables, row: Route, name: string)
    requires OneRoute(t, row) && row.hostname != name && NormalizeHostname(name) == name
    ensures GetRoute(t.routes, name).None? && RouteInside(t, name).None?
  {
    var hit := IsRoute(NormalizeHostname(name));
    assert !hit(row);
    assert forall r :: r in t.routes ==> r == row;
  }

  /** So a second publish inserts the name beside it. */
  lemma PlainBesideDotted(t: Tables, row: Route, name: string, now: int) returns (plain: Route)
    requires OneRoute(t, row) && ValidName(name) && row.hostname == name + "."
    ensures plain.hostname == name && plain.localPort != row.localPort
    ensures UpsertRoute(t, Plain(name), now).0 == t.(routes := [plain, row])
  {
    PlainIsNew(t, row, name);
    ValidNameFixed(name);
    ValidatedFixed(name);
    plain := UpsertInserts(t, Plain(name), now);
    assert row in t.routes;
    DotLater(name);
  }

  lemma FreeBeside(routes: seq<Route>, row: Route)
    requires routes == [row]
    ensures FreePort(routes, LOCAL_PORT_BASE).Some?
  {
    assert routes[0] == row;
    assert !PortUsed(routes, LOCAL_PORT_BASE) || !PortUsed(routes, LOCAL_PORT_BASE + 1);
    FreePortMeans(routes, LOCAL_PORT_BASE);
  }

  lemma {:induction false} DotLater(name: string)
    ensures LessEq(name, name + ".")
  {
    if name != "" {
      assert (name + ".")[1..] == name[1..] + ".";
      DotLater(name[1..]);
    }
  }

  /**
   The failing family: for every well-formed name, a route and its dotted spelling, both of running machines, share
   one device. The error-free pass leaves it at the dotted route, and the plain one is not wired.
   */
  lemma SpellingsShareDevice(name: string, cfg: RenderConfig)
    requires ValidName(name)
    ensures var s := Publish(Publish(NO_INGRESS, cfg, Dotted(name), UP, 0).0, cfg, Plain(name), UP, 0).0;
            && |s.tables.routes| == 2 && s.tables.routes[0].hostname == name && Running(UP, s.tables.routes[0])
            && Reconcile(s, cfg, UP).ok && !Wired(Reconcile(s, cfg, UP).s, UP, s.tables.routes[0])
  {
    var row := DottedFirst(name, cfg);
    var s1 := Publish(NO_INGRESS, cfg, Dotted(name), UP, 0).0;
    AnsweredBy(Plain(name));
    var plain := PlainBesideDotted(s1.tables, row, name, 0);
    PublishTables(s1, cfg, Plain(name), UP, 0);
    TwoSpellings(Publish(s1, cfg, Plain(name), UP, 0).0, cfg, plain, row, name);
  }

  lemma TwoSpellings(s: Ingress, cfg: RenderConfig, plain: Route, row: Route, name: string)
    requires s.tables.routes == [plain, row] && plain.hostname == name && row.hostname == name + "." && ValidName(name)
    requires plain.localPort != row.localPort
    ensures Running(UP, plain) && Reconcile(s, cfg, UP).ok && !Wired(Reconcile(s, cfg, UP).s, UP, plain)
  {
    DotsNormalize(name);
    ValidNameFixed(name);
    ValidatedFixed(name);
    AnsweredBy(plain);
    AnsweredBy(row);
    LaterSpellingWins(s, cfg, UP, plain, row);
  }

  lemma LaterSpellingWins(s: Ingress, cfg: RenderConfig, w: Backend, plain: Route, row: Route)
    requires s.tables.routes == [plain, row] && plain.localPort != row.localPort
    requires NormalizeHostname(plain.hostname) == NormalizeHostname(row.hostname)
    requires Running(w, plain) && Running(w, row) && w.deviceOk(plain) && w.deviceOk(row)
    ensures Reconcile(s, cfg, w).ok && !Wired(Reconcile(s, cfg, w).s, w, plain)
  {
    assert forall r :: r in s.tables.routes ==> r == plain || r == row;
    assert NoStop(s.tables.routes, w);
    PassFailsIff(s, cfg, w);
    SweptRows(s, s.tables.routes, w);
    SweptDevicesIff(s, s.tables.routes, w, 0);
    assert s.tables.routes[1] == row && Touches(w, row);
  }
}
