/**
 Public Routes over whole runs: the applied Caddyfile is the render of the registry after every
 error-free operation, ports stay distinct, and a port is found while fewer than 10000 routes exist.
 */
module RouteRuns {
  import opened Text
  import opened Names
  import opened Registry
  import opened RegistryInvariant
  import opened Caddyfile
  import opened RouteManagers

  // ---------------------------------------------------------------- ports

  function Ports(routes: seq<Route>): seq<int> {
    seq(|routes|, i requires 0 <= i < |routes| => routes[i].localPort)
  }

  /** The whole numbers from `lo` up to but not including `hi`. */
  ghost function Between(lo: int, hi: int): (s: set<int>)
    requires lo <= hi
    ensures forall p :: p in s <==> lo <= p < hi
    ensures |s| == hi - lo
    decreases hi - lo
  {
    if lo == hi then {} else Between(lo, hi - 1) + {hi - 1}
  }

  lemma SubsetCard(a: set<int>, b: set<int>)
    requires a <= b
    ensures |a| <= |b|
  {
    assert b == a + (b - a);
  }

  lemma PortsDistinct(routes: seq<Route>)
    requires RoutesOk(routes)
    ensures NoRepeats(Ports(routes))
  {
    var ports := Ports(routes);
    forall i, j | 0 <= i < j < |ports| ensures ports[i] != ports[j] {
      assert routes[i] in routes && routes[j] in routes;
      assert Less(RouteKey(routes[i]), RouteKey(routes[j]));
    }
  }

  /** Used numbers inside a range leave one free exactly while they are fewer than the range is long. */
  lemma RoomIff(used: set<int>, lo: int, hi: int)
    requires lo <= hi && forall p :: p in used ==> lo <= p < hi
    ensures |used| <= hi - lo
    ensures (forall p :: lo <= p < hi ==> p in used) <==> |used| == hi - lo
  {
    var range := Between(lo, hi);
    SubsetCard(used, range);
    if forall p :: lo <= p < hi ==> p in used {
      assert used == range;
    } else {
      var p :| lo <= p < hi && p !in used;
      SubsetCard(used + {p}, range);
    }
  }

  lemma FreePortMeans(routes: seq<Route>, from: int)
    requires LOCAL_PORT_BASE <= from <= LOCAL_PORT_CEILING
    ensures FreePort(routes, from).None? <==> forall p :: from <= p < LOCAL_PORT_CEILING ==> PortUsed(routes, p)
  {
    var free := FreePort(routes, from);
    assert free.Some? ==> !PortUsed(routes, free.value);
  }

  /** The used ports, as a set: as many as there are routes. */
  lemma UsedPorts(routes: seq<Route>) returns (used: set<int>)
    requires RoutesOk(routes)
    ensures |used| == |routes|
    ensures forall p :: p in used <==> PortUsed(routes, p)
    ensures forall p :: p in used ==> LOCAL_PORT_BASE <= p < LOCAL_PORT_CEILING
  {
    var ports := Ports(routes);
    used := set p | p in ports;
    PortsDistinct(routes);
    NoRepeatsCard(ports);
    forall p | PortUsed(routes, p) ensures p in ports {
      var i :| 0 <= i < |routes| && routes[i].localPort == p;
      assert ports[i] == p;
    }
    forall p | p in ports ensures PortUsed(routes, p) {
      var i :| 0 <= i < |ports| && ports[i] == p;
      assert routes[i] in routes;
    }
  }

  lemma PortFreeFrom(routes: seq<Route>, used: set<int>, base: int)
    requires LOCAL_PORT_BASE <= base <= LOCAL_PORT_CEILING
    requires forall p :: p in used <==> PortUsed(routes, p)
    requires forall p :: p in used ==> base <= p < LOCAL_PORT_CEILING
    ensures |used| <= LOCAL_PORT_CEILING - base
    ensures FreePort(routes, base).Some? <==> |used| < LOCAL_PORT_CEILING - base
  {
    RoomIff(used, base, LOCAL_PORT_CEILING);
    FreePortMeans(routes, base);
  }

  /** Distinct ports in the range: there is a free one exactly while the range is not full. */
  lemma PortFreeIff(routes: seq<Route>)
    requires RoutesOk(routes)
    ensures |routes| <= LOCAL_PORT_CEILING - LOCAL_PORT_BASE
    ensures FreePort(routes, LOCAL_PORT_BASE).Some? <==> |routes| < LOCAL_PORT_CEILING - LOCAL_PORT_BASE
  {
    var used := UsedPorts(routes);
    PortFreeFrom(routes, used, LOCAL_PORT_BASE);
  }

  /** A publish runs out of ports only when all 10000 are taken. */
  lemma PublishFindsPort(install: Install, t: Tables, request: Route, now: int)
    requires Inv(install, t) && UpsertRoute(t, request, now).1 == NoFreePort
    ensures |t.routes| == 10000
  {
    PortFreeIff(t.routes);
  }

  // ---------------------------------------------------------------- agreement

  /** The applied Caddyfile is the render of the registry. */
  ghost predicate Agrees(s: Ingress, cfg: RenderConfig) {
    s.caddyfile == Render(cfg, s.tables.routes)
  }

  /** An error-free pass ends in agreement exactly when it began in agreement or pruned something. */
  lemma ReconcileAgreesIff(s: Ingress, cfg: RenderConfig, w: Backend)
    requires Reconcile(s, cfg, w).ok
    ensures Agrees(Reconcile(s, cfg, w).s, cfg) <==> Agrees(s, cfg) || exists r :: r in s.tables.routes && Absent(w, r)
  {
    SweptRows(s, s.tables.routes, w);
  }

  /** A pass that fails keeps the old Caddyfile, whatever it pruned before. */
  lemma {:induction false} SweptKeepsCaddyfile(s: Ingress, listed: seq<Route>, w: Backend)
    ensures Swept(s, listed, w).s.caddyfile == s.caddyfile
  {
    if listed != [] {
      SweptKeepsCaddyfile(s, listed[..|listed| - 1], w);
    }
  }

  predicate Blank(r: Route) {
    TrimSpace(r.hostname) == ""
  }

  function Total(routes: seq<Route>, width: Route -> nat): nat {
    if routes == [] then 0 else Total(routes[..|routes| - 1], width) + width(routes[|routes| - 1])
  }

  function SiteWidth(cfg: RenderConfig): Route -> nat {
    (r: Route) => |Site(cfg, r)|
  }

  lemma {:induction false} SitesWidth(cfg: RenderConfig, routes: seq<Route>)
    ensures |Sites(cfg, routes)| == Total(routes, SiteWidth(cfg))
  {
    if routes != [] {
      SitesWidth(cfg, routes[..|routes| - 1]);
    }
  }

  lemma SiteShows(cfg: RenderConfig, r: Route)
    requires !Blank(r)
    ensures SiteWidth(cfg)(r) > 0
  {}

  lemma TotalSnoc(routes: seq<Route>, r: Route, width: Route -> nat)
    ensures Total(routes + [r], width) == Total(routes, width) + width(r)
  {
    assert (routes + [r])[..|routes|] == routes;
  }

  /** Dropping routes never widens the total, and dropping one that shows narrows it. */
  lemma {:induction false} FewerTotal(routes: seq<Route>, width: Route -> nat, keep: Route -> bool, lost: Route)
    ensures Total(Filter(routes, keep), width) <= Total(routes, width)
    ensures lost in routes && !keep(lost) && width(lost) > 0 ==> Total(Filter(routes, keep), width) < Total(routes, width)
  {
    if routes != [] {
      var front, last := routes[..|routes| - 1], routes[|routes| - 1];
      assert routes == front + [last];
      FewerTotal(front, width, keep, lost);
      FilterSnoc(front, last, keep);
      TotalSnoc(Filter(front, keep), last, width);
      assert Filter(routes, keep) == if keep(last) then Filter(front, keep) + [last] else Filter(front, keep);
    }
  }

  lemma SortedAlready(routes: seq<Route>)
    requires KeyOrdered(routes, RouteKey)
    ensures StableSort(routes, RouteLeq) == routes
  {
    SortKeyOrdered(routes, RouteLeq, RouteKey);
    OrderedListingUnique(StableSort(routes, RouteLeq), routes, RouteKey);
  }

  /** Losing a route changes the Caddyfile. */
  lemma FewerRoutesRenderLess(cfg: RenderConfig, before: seq<Route>, after: seq<Route>, lost: Route)
    requires KeyOrdered(before, RouteKey) && KeyOrdered(after, RouteKey) && forall r :: r in after ==> r in before
    requires lost in before && lost !in after && !Blank(lost)
    ensures Render(cfg, after) != Render(cfg, before)
  {
    var keep := (r: Route) => r in after;
    FilterOrdered(before, keep, RouteKey);
    OrderedListingUnique(Filter(before, keep), after, RouteKey);
    FewerTotal(before, SiteWidth(cfg), keep, lost);
    SiteShows(cfg, lost);
    SitesWidth(cfg, before);
    SitesWidth(cfg, after);
    SortedAlready(before);
    SortedAlready(after);
    var head := Header(cfg) + AuthSite(cfg);
    assert |Render(cfg, before)| == |head| + |Sites(cfg, before)| && |Render(cfg, after)| == |head| + |Sites(cfg, after)|;
  }

  // ---------------------------------------------------------------- failed passes

  /** A route whose device call fails ends the pass. */
  predicate Stops(w: Backend, r: Route) {
    Touches(w, r) && !w.deviceOk(r)
  }

  /** The listed routes the pass gets to: up to and including the first one that ends it. */
  ghost predicate Reached(listed: seq<Route>, w: Backend, i: int) {
    0 <= i < |listed| && forall k :: 0 <= k < i ==> !Stops(w, listed[k])
  }

  ghost predicate NoStop(listed: seq<Route>, w: Backend) {
    forall r :: r in listed ==> !Stops(w, r)
  }

  /** No absent route the pass gets to normalizes to the row's hostname. */
  ghost predicate Unpruned(listed: seq<Route>, w: Backend, r: Route) {
    forall i :: Reached(listed, w, i) && Absent(w, listed[i]) ==> NormalizeHostname(listed[i].hostname) != r.hostname
  }

  lemma UnprunedSnoc(front: seq<Route>, last: Route, w: Backend, r: Route)
    ensures Unpruned(front + [last], w, r) <==>
            Unpruned(front, w, r) && (NoStop(front, w) && Absent(w, last) ==> NormalizeHostname(last.hostname) != r.hostname)
  {
    var listed := front + [last];
    forall i | 0 <= i < |front| ensures Reached(listed, w, i) <==> Reached(front, w, i) {
      assert forall k :: 0 <= k < i ==> listed[k] == front[k];
    }
    assert Reached(listed, w, |front|) <==> NoStop(front, w) by {
      assert forall k :: 0 <= k < |front| ==> listed[k] == front[k];
    }
    if Unpruned(front + [last], w, r) {
      forall i | Reached(front, w, i) && Absent(w, front[i]) ensures NormalizeHostname(front[i].hostname) != r.hostname {
        assert Reached(listed, w, i) && listed[i] == front[i];
      }
      assert Reached(listed, w, |front|) && Absent(w, last) ==> NormalizeHostname(listed[|front|].hostname) != r.hostname;
    }
  }

  /** The rows a pass leaves, whether it fails or not, and when its loop fails. */
  lemma {:induction false} SweptReached(s: Ingress, listed: seq<Route>, w: Backend)
    ensures Swept(s, listed, w).ok <==> NoStop(listed, w)
    ensures forall r :: r in Swept(s, listed, w).s.tables.routes <==> r in s.tables.routes && Unpruned(listed, w, r)
  {
    if listed != [] {
      var front, last := listed[..|listed| - 1], listed[|listed| - 1];
      SweptReached(s, front, w);
      assert listed == front + [last];
      assert NoStop(listed, w) <==> NoStop(front, w) && !Stops(w, last) by {
        assert forall x :: x in listed <==> x in front || x == last;
      }
      forall r ensures r in Swept(s, listed, w).s.tables.routes <==> r in s.tables.routes && Unpruned(listed, w, r) {
        UnprunedSnoc(front, last, w, r);
        SweepKeepsRow(Swept(s, front, w), last, w, r);
      }
    }
  }

  lemma SweepKeepsRow(acc: Sweep, last: Route, w: Backend, r: Route)
    ensures r in SweepRoute(acc, last, w).s.tables.routes <==>
            r in acc.s.tables.routes && (Absent(w, last) ==> NormalizeHostname(last.hostname) != r.hostname)
  {
    var kept := NotRoute(NormalizeHostname(last.hostname));
    assert kept(r) <==> r.hostname != NormalizeHostname(last.hostname);
  }

  /** A pass fails exactly when a device call fails or a needed Caddy reload does. */
  lemma PassFailsIff(s: Ingress, cfg: RenderConfig, w: Backend)
    ensures Reconcile(s, cfg, w).ok <==>
            NoStop(s.tables.routes, w) && (w.caddyOk || forall r :: r in s.tables.routes ==> !Absent(w, r))
  {
    SweptReached(s, s.tables.routes, w);
    if Swept(s, s.tables.routes, w).ok {
      SweptRows(s, s.tables.routes, w);
    }
  }

  /** A pass that fails leaves the Caddyfile in agreement exactly when no absent route it got to names a stored row. */
  lemma FailedPassAgreesIff(s: Ingress, cfg: RenderConfig, w: Backend)
    requires KeyOrdered(s.tables.routes, RouteKey) && forall r :: r in s.tables.routes ==> !Blank(r)
    requires Agrees(s, cfg) && !Reconcile(s, cfg, w).ok
    ensures Agrees(Reconcile(s, cfg, w).s, cfg) <==>
            forall i, r :: Reached(s.tables.routes, w, i) && Absent(w, s.tables.routes[i]) && r in s.tables.routes ==>
              r.hostname != NormalizeHostname(s.tables.routes[i].hostname)
  {
    var before, after := s.tables.routes, Reconcile(s, cfg, w).s.tables.routes;
    SweptKeepsCaddyfile(s, before, w);
    SweptOnlyDrops(s, before, w);
    SweptReached(s, before, w);
    if lost :| lost in before && lost !in after {
      FewerRoutesRenderLess(cfg, before, after, lost);
      assert !Unpruned(before, w, lost);
    } else {
      OrderedListingUnique(after, before, RouteKey);
      assert forall r :: r in before ==> Unpruned(before, w, r);
    }
  }

  const EXAMPLE_ROUTE := Route("a.b", "t", "p", "m", 80, 20000, 0)

  /** The machine is gone and its device cannot be removed. */
  const GONE := Backend((r: Route) => Some(MachineState(false, false, "")), (r: Route) => false, true)

  /** Concretely: one route of an absent machine. The failed pass leaves a Caddyfile no later error-free pass repairs. */
  lemma FailedPassExample(cfg: RenderConfig, later: Backend)
    ensures var tables := Tables([], [], [], [EXAMPLE_ROUTE]);
            var s := Ingress(tables, map[], Render(cfg, tables.routes));
            var after := Reconcile(s, cfg, GONE);
            && Agrees(s, cfg) && !after.ok && !Agrees(after.s, cfg)
            && (Reconcile(after.s, cfg, later).ok ==> !Agrees(Reconcile(after.s, cfg, later).s, cfg))
  {
    var tables := Tables([], [], [], [EXAMPLE_ROUTE]);
    var s := Ingress(tables, map[], Render(cfg, tables.routes));
    ExampleHostnameFixed();
    assert EXAMPLE_ROUTE in tables.routes && Stops(GONE, EXAMPLE_ROUTE);
    PassFailsIff(s, cfg, GONE);
    FailedPassAgreesIff(s, cfg, GONE);
    assert Reached(tables.routes, GONE, 0) && Absent(GONE, tables.routes[0]);
    SweptReached(s, tables.routes, GONE);
    if Reconcile(Reconcile(s, cfg, GONE).s, cfg, later).ok {
      assert forall r :: r in Reconcile(s, cfg, GONE).s.tables.routes ==> r == EXAMPLE_ROUTE && !Unpruned(tables.routes, GONE, r);
      StaleStays(Reconcile(s, cfg, GONE).s, cfg, later);
    }
  }

  lemma ExampleHostnameFixed()
    ensures NormalizeHostname("a.b") == "a.b" && !Blank(EXAMPLE_ROUTE)
  {
    SplitPart("b", '.');
    ValidNameBelow("a", "b");
    assert "a" + "." + "b" == "a.b";
    ValidNameFixed("a.b");
  }

  /** A stale Caddyfile stays stale through every later error-free pass that finds all machines present. */
  lemma StaleStays(s: Ingress, cfg: RenderConfig, later: Backend)
    requires !Agrees(s, cfg) && Reconcile(s, cfg, later).ok
    requires forall r :: r in s.tables.routes ==> !Absent(later, r)
    ensures !Agrees(Reconcile(s, cfg, later).s, cfg)
  {
    ReconcileAgreesIff(s, cfg, later);
  }

  lemma {:induction false} SweptOnlyDrops(s: Ingress, listed: seq<Route>, w: Backend)
    ensures forall r :: r in Swept(s, listed, w).s.tables.routes ==> r in s.tables.routes
    ensures KeyOrdered(s.tables.routes, RouteKey) ==> KeyOrdered(Swept(s, listed, w).s.tables.routes, RouteKey)
  {
    if listed != [] {
      var front, last := listed[..|listed| - 1], listed[|listed| - 1];
      SweptOnlyDrops(s, front, w);
      if KeyOrdered(s.tables.routes, RouteKey) {
        FilterOrdered(Swept(s, front, w).s.tables.routes, NotRoute(NormalizeHostname(last.hostname)), RouteKey);
      }
    }
  }

  // ---------------------------------------------------------------- failed publishes and deletes

  /** A publish of a complete, new, allowed hostname with a port left: it inserts a row. */
  predicate NewRow(t: Tables, req: Route) {
    var hostname := NormalizeHostname(req.hostname);
    && hostname != "" && TrimSpace(req.tenant) != "" && req.backendPort > 0
    && GetRoute(t.routes, hostname).None? && RouteInside(t, hostname).None?
    && FreePort(t.routes, LOCAL_PORT_BASE).Some?
    && forall r :: r in t.routes ==> r.hostname != hostname
  }

  lemma UpsertInserts(t: Tables, req: Route, now: int) returns (row: Route)
    ensures row.hostname == NormalizeHostname(req.hostname)
    ensures UpsertRoute(t, req, now).0 == if NewRow(t, req) then t.(routes := Insert(t.routes, row, RouteKey)) else t
    ensures NewRow(t, req) ==> UpsertRoute(t, req, now).1.Published? && !PortUsed(t.routes, row.localPort)
  {
    var port := FreePort(t.routes, LOCAL_PORT_BASE);
    row := req.(hostname := NormalizeHostname(req.hostname), tenant := TrimSpace(req.tenant), project := TrimSpace(req.project),
                machine := TrimSpace(req.machine), createdAt := now, localPort := if port.Some? then port.value else 0);
  }

  /** The machine answers with an address, so a publish gets to the registry. */
  predicate Answers(w: Backend, req: Route) {
    w.machine(req).Some? && w.machine(req).value.present && Reachable(w.machine(req).value)
  }

  lemma NormalNotBlank(h: string)
    requires NormalizeHostname(h) != ""
    ensures TrimSpace(NormalizeHostname(h)) != ""
  {
    var inner := TrimSpace(TrimSuffix(TrimSpace(h), "."));
    TrimLeftEnds(TrimSuffix(TrimSpace(h), "."), IsSpace);
    TrimRightEnds(TrimLeft(TrimSuffix(TrimSpace(h), "."), IsSpace), IsSpace);
    TrimSpaceFixed(Lower(inner));
  }

  /** A publish that fails leaves the Caddyfile in agreement exactly when it inserted no row. */
  lemma FailedPublishAgreesIff(s: Ingress, cfg: RenderConfig, req: Route, w: Backend, now: int)
    requires KeyOrdered(s.tables.routes, RouteKey) && Agrees(s, cfg) && !Publish(s, cfg, req, w, now).1.PublishOk?
    ensures Agrees(Publish(s, cfg, req, w, now).0, cfg) <==> !(Answers(w, req) && NewRow(s.tables, req))
  {
    var row := UpsertInserts(s.tables, req, now);
    var after := Publish(s, cfg, req, w, now).0;
    PublishTables(s, cfg, req, w, now);
    if Answers(w, req) && NewRow(s.tables, req) {
      NormalNotBlank(req.hostname);
      InsertOrdered(s.tables.routes, row, RouteKey);
      FewerRoutesRenderLess(cfg, after.tables.routes, s.tables.routes, row);
    }
  }

  lemma PublishTables(s: Ingress, cfg: RenderConfig, req: Route, w: Backend, now: int)
    ensures var (after, outcome) := Publish(s, cfg, req, w, now);
            && after.tables == (if Answers(w, req) then UpsertRoute(s.tables, req, now).0 else s.tables)
            && (!outcome.PublishOk? ==> after.caddyfile == s.caddyfile)
  {}

  /** The delete finds a row its tenant may remove. */
  predicate MayDelete(t: Tables, hostname: string, tenant: string) {
    var route := GetRoute(t.routes, NormalizeHostname(hostname));
    route.Some? && (TrimSpace(tenant) == "" || route.value.tenant == TrimSpace(tenant))
  }

  /** A delete that fails leaves the Caddyfile in agreement exactly when it was refused or its statement hit no row. */
  lemma FailedDeleteAgreesIff(s: Ingress, cfg: RenderConfig, hostname: string, tenant: string, w: Backend)
    requires KeyOrdered(s.tables.routes, RouteKey) && forall r :: r in s.tables.routes ==> !Blank(r)
    requires Agrees(s, cfg) && !Delete(s, cfg, hostname, tenant, w).1
    ensures Agrees(Delete(s, cfg, hostname, tenant, w).0, cfg) <==>
            !MayDelete(s.tables, hostname, tenant) || forall r :: r in s.tables.routes ==> r.hostname != NormalizeHostname(hostname)
  {
    var before, after := s.tables.routes, Delete(s, cfg, hostname, tenant, w).0.tables.routes;
    var kept := NotRoute(NormalizeHostname(hostname));
    if MayDelete(s.tables, hostname, tenant) {
      assert after == Filter(before, kept);
      FilterOrdered(before, kept, RouteKey);
      if lost :| lost in before && lost.hostname == NormalizeHostname(hostname) {
        assert !kept(lost);
        FewerRoutesRenderLess(cfg, before, after, lost);
      } else {
        FilterAll(before, kept);
      }
    }
  }

  /** The machine answers, and its device cannot be set or removed. */
  const NO_DEVICE := Backend((r: Route) => Some(MachineState(true, true, "10.0.0.2")), (r: Route) => false, true)

  /** Concretely: a first publish whose device call fails registers a route the Caddyfile does not serve. */
  lemma FailedPublishExample(cfg: RenderConfig)
    ensures var s := Ingress(NO_ROWS, map[], Render(cfg, []));
            var (after, outcome) := Publish(s, cfg, EXAMPLE_ROUTE, NO_DEVICE, 0);
            outcome == DeviceFailed && Agrees(s, cfg) && !Agrees(after, cfg)
  {
    ExampleHostnameFixed();
    assert "10.0.0.2" != "" && TrimSpace("10.0.0.2") == "10.0.0.2" && TrimSpace("t") == "t";
    assert !PortUsed([], LOCAL_PORT_BASE);
    assert NewRow(NO_ROWS, EXAMPLE_ROUTE);
    var row := UpsertInserts(NO_ROWS, EXAMPLE_ROUTE, 0);
    FailedPublishAgreesIff(Ingress(NO_ROWS, map[], Render(cfg, [])), cfg, EXAMPLE_ROUTE, NO_DEVICE, 0);
  }

  /** Concretely: a delete whose device removal fails leaves a Caddyfile that still serves the route. */
  lemma FailedDeleteExample(cfg: RenderConfig)
    ensures var tables := Tables([], [], [], [EXAMPLE_ROUTE]);
            var s := Ingress(tables, map[], Render(cfg, tables.routes));
            var (after, ok) := Delete(s, cfg, "a.b", "t", NO_DEVICE);
            !ok && Agrees(s, cfg) && !Agrees(after, cfg)
  {
    var tables := Tables([], [], [], [EXAMPLE_ROUTE]);
    ExampleHostnameFixed();
    assert TrimSpace("t") == "t";
    var hit := IsRoute("a.b");
    assert hit(EXAMPLE_ROUTE) && EXAMPLE_ROUTE in tables.routes;
    assert MayDelete(tables, "a.b", "t");
    FailedDeleteAgreesIff(Ingress(tables, map[], Render(cfg, tables.routes)), cfg, "a.b", "t", NO_DEVICE);
  }

  // ---------------------------------------------------------------- runs

  datatype Op =
    | PublishOp(request: Route, w: Backend, now: int)
    | DeleteOp(hostname: string, tenant: string, w: Backend)
    | ReconcileOp(w: Backend)
    | SyncOp

  function Apply(s: Ingress, cfg: RenderConfig, op: Op): Ingress {
    match op
    case PublishOp(request, w, now) => Publish(s, cfg, request, w, now).0
    case DeleteOp(hostname, tenant, w) => Delete(s, cfg, hostname, tenant, w).0
    case ReconcileOp(w) => Reconcile(s, cfg, w).s
    case SyncOp => Regenerated(s, cfg)
  }

  /** The operation answers without an error. */
  ghost predicate ErrorFree(s: Ingress, cfg: RenderConfig, op: Op) {
    match op
    case PublishOp(request, w, now) => Publish(s, cfg, request, w, now).1.PublishOk?
    case DeleteOp(hostname, tenant, w) => Delete(s, cfg, hostname, tenant, w).1
    case ReconcileOp(w) => Reconcile(s, cfg, w).ok
    case SyncOp => true
  }

  ghost predicate Good(s: Ingress, install: Install) {
    Inv(install, s.tables) && Folded(s.tables.routes)
  }

  lemma {:induction false} SweptKeeps(s: Ingress, install: Install, listed: seq<Route>, w: Backend)
    requires Inv(install, s.tables)
    ensures Inv(install, Swept(s, listed, w).s.tables)
  {
    if listed != [] {
      var front, last := listed[..|listed| - 1], listed[|listed| - 1];
      SweptKeeps(s, install, front, w);
      DropRoutesKeeps(install, Swept(s, front, w).s.tables, NotRoute(NormalizeHostname(last.hostname)));
    }
  }

  lemma UpsertFolded(t: Tables, request: Route, now: int)
    requires Folded(t.routes)
    ensures Folded(UpsertRoute(t, request, now).0.routes)
  {
    LowerLower(TrimSpace(TrimSuffix(TrimSpace(request.hostname), ".")));
  }

  /** Every operation, failed ones included, keeps the registry invariant and the stored spelling. */
  lemma OpKeeps(s: Ingress, install: Install, cfg: RenderConfig, op: Op)
    requires Good(s, install)
    ensures Good(Apply(s, cfg, op), install)
  {
    match op
    case PublishOp(request, w, now) =>
      UpsertRouteKeeps(install, s.tables, request, now);
      UpsertFolded(s.tables, request, now);
    case DeleteOp(hostname, tenant, w) =>
      DropRoutesKeeps(install, s.tables, NotRoute(NormalizeHostname(hostname)));
    case ReconcileOp(w) =>
      SweptKeeps(s, install, s.tables.routes, w);
      SweptOnlyDrops(s, s.tables.routes, w);
    case SyncOp =>
  }

  /** An error-free publish or delete always ends in agreement; a pass keeps it. */
  lemma OpAgrees(s: Ingress, cfg: RenderConfig, op: Op)
    requires ErrorFree(s, cfg, op)
    ensures op.PublishOp? || op.DeleteOp? || op.SyncOp? || Agrees(s, cfg) ==> Agrees(Apply(s, cfg, op), cfg)
  {
    if op.ReconcileOp? {
      ReconcileAgreesIff(s, cfg, op.w);
    }
  }

  function Run(s: Ingress, cfg: RenderConfig, ops: seq<Op>): Ingress
    decreases |ops|
  {
    if ops == [] then s else Run(Apply(s, cfg, ops[0]), cfg, ops[1..])
  }

  ghost predicate AllErrorFree(s: Ingress, cfg: RenderConfig, ops: seq<Op>)
    decreases |ops|
  {
    ops == [] || (ErrorFree(s, cfg, ops[0]) && AllErrorFree(Apply(s, cfg, ops[0]), cfg, ops[1..]))
  }

  /** Over every run the ports are distinct and in range, and error-free runs keep the Caddyfile in agreement. */
  lemma {:induction false} RunKeepsRoutes(s: Ingress, install: Install, cfg: RenderConfig, ops: seq<Op>)
    requires Good(s, install)
    ensures Good(Run(s, cfg, ops), install) && RoutesOk(Run(s, cfg, ops).tables.routes)
    ensures Agrees(s, cfg) && AllErrorFree(s, cfg, ops) ==> Agrees(Run(s, cfg, ops), cfg)
    decreases |ops|
  {
    if ops != [] {
      OpKeeps(s, install, cfg, ops[0]);
      if ErrorFree(s, cfg, ops[0]) {
        OpAgrees(s, cfg, ops[0]);
      }
      RunKeepsRoutes(Apply(s, cfg, ops[0]), install, cfg, ops[1..]);
    }
  }
}
