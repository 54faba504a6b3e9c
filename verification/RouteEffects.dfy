/**
 What a publish, a delete and a reconcile pass answer and wire, stated on the fields of routes, machines and devices,
 and how the applied Caddyfile and the devices meet: a site proxies to the port its route's device listens on.
 */
module RouteEffects {
  import opened Text
  import opened Names
  import opened Registry
  import opened RegistryInvariant
  import opened Caddyfile
  import opened CaddyfileText
  import opened RouteManagers
  import opened RouteRuns
  import opened RouteHostnames
  import opened RegistryEffects

  // ---------------------------------------------------------------- machines and devices

  /** The machine is there, running, with an address. */
  predicate Up(m: Option<MachineState>) {
    m.Some? && m.value.present && m.value.running && TrimSpace(m.value.ipv4) != ""
  }

  predicate Gone(m: Option<MachineState>) {
    m.Some? && !m.value.present
  }

  /** The device of `name` listens on the route's local port and connects to its backend port at the address. */
  predicate WiredAs(devices: map<string, Device>, name: string, r: Route, ipv4: string) {
    && name in devices
    && devices[name].localPort == r.localPort && devices[name].ip == ipv4 && devices[name].backendPort == r.backendPort
  }

  /** The devices of all other names are as before. */
  ghost predicate OtherDevicesKept(before: map<string, Device>, after: map<string, Device>, name: string) {
    forall n :: n != name ==> (n in after <==> n in before) && (n in after && n in before ==> after[n] == before[n])
  }

  // ---------------------------------------------------------------- publish

  /** The answers of a publish, each with the input it is given to. */
  lemma PublishAnswers(s: Ingress, cfg: RenderConfig, req: Route, w: Backend, now: int)
    ensures var m := w.machine(req);
            match Publish(s, cfg, req, w, now).1
            case MachineUnknown => m.None?
            case MachineAbsent => Gone(m)
            case MachineStopped => m.Some? && m.value.present && !(m.value.running && TrimSpace(m.value.ipv4) != "")
            case NotRegistered(reason) => Up(m) && UpsertRoute(s.tables, req, now).1 == reason && !reason.Published?
            case DeviceFailed => Up(m) && UpsertRoute(s.tables, req, now).1.Published?
            case CaddyFailed => Up(m) && UpsertRoute(s.tables, req, now).1.Published? && !w.caddyOk
            case PublishOk(route) => Up(m) && UpsertRoute(s.tables, req, now).1.Published? && w.caddyOk
  {}

  /** A publish refused before the device call changes nothing. */
  lemma RefusedPublish(s: Ingress, cfg: RenderConfig, req: Route, w: Backend, now: int)
    ensures var (after, outcome) := Publish(s, cfg, req, w, now);
            outcome.MachineUnknown? || outcome.MachineAbsent? || outcome.MachineStopped? || outcome.NotRegistered? ==> after == s
  {
    RefusedUpsert(s.tables, req, now);
  }

  lemma RefusedUpsert(t: Tables, req: Route, now: int)
    ensures !UpsertRoute(t, req, now).1.Published? ==> UpsertRoute(t, req, now).0 == t
  {}

  /** An error-free publish wires the route's device, port for port, and leaves the other devices alone. */
  lemma PublishWires(s: Ingress, cfg: RenderConfig, req: Route, w: Backend, now: int)
    requires Publish(s, cfg, req, w, now).1.PublishOk?
    ensures var (after, outcome) := Publish(s, cfg, req, w, now);
            var route := outcome.route;
            && Up(w.machine(req)) && w.deviceOk(route)
            && WiredAs(after.devices, NormalizeHostname(route.hostname), route, w.machine(req).value.ipv4)
            && OtherDevicesKept(s.devices, after.devices, NormalizeHostname(route.hostname))
            && after.tables == UpsertRoute(s.tables, req, now).0
            && after.caddyfile == Render(cfg, after.tables.routes)
  {}

  /** A publish that fails at the device leaves every device; one that fails at Caddy has wired its own. */
  lemma FailedPublishWires(s: Ingress, cfg: RenderConfig, req: Route, w: Backend, now: int)
    ensures var (after, outcome) := Publish(s, cfg, req, w, now);
            && (!outcome.PublishOk? && !outcome.CaddyFailed? ==> after.devices == s.devices)
            && (outcome.CaddyFailed? && UpsertRoute(s.tables, req, now).1.route.Some? ==>
                  var route := UpsertRoute(s.tables, req, now).1.route.value;
                  && WiredAs(after.devices, NormalizeHostname(route.hostname), route, w.machine(req).value.ipv4)
                  && OtherDevicesKept(s.devices, after.devices, NormalizeHostname(route.hostname)))
  {}

  lemma {:induction false} FreePortLowest(routes: seq<Route>, from: int)
    requires LOCAL_PORT_BASE <= from <= LOCAL_PORT_CEILING && FreePort(routes, from).Some?
    ensures forall p :: from <= p < FreePort(routes, from).value ==> PortUsed(routes, p)
    decreases LOCAL_PORT_CEILING - from
  {
    if from < LOCAL_PORT_CEILING && PortUsed(routes, from) {
      FreePortLowest(routes, from + 1);
    }
  }

  ghost predicate Taken(routes: seq<Route>, port: int) {
    exists r :: r in routes && r.localPort == port
  }

  /** The port is free and every lower one of the range is taken. */
  ghost predicate LowestFree(routes: seq<Route>, port: int) {
    20_000 <= port < 30_000 && !Taken(routes, port) && forall p :: 20_000 <= p < port ==> Taken(routes, p)
  }

  lemma LowestFreeOne(routes: seq<Route>, port: int)
    requires FreePort(routes, LOCAL_PORT_BASE).Some?
    ensures LowestFree(routes, port) <==> port == FreePort(routes, LOCAL_PORT_BASE).value
  {
    var free := FreePort(routes, LOCAL_PORT_BASE).value;
    FreePortLowest(routes, LOCAL_PORT_BASE);
    assert forall p :: PortUsed(routes, p) <==> Taken(routes, p);
    assert LowestFree(routes, free);
    assert port < free ==> !LowestFree(routes, port);
    assert free < port ==> !LowestFree(routes, port);
  }

  /** The new row: the request's fields, trimmed, under the lowest free port. */
  ghost predicate IsNewRoute(routes: seq<Route>, r: Route, req: Route, now: int) {
    && r.hostname == NormalizeHostname(req.hostname) && r.tenant == TrimSpace(req.tenant)
    && r.project == TrimSpace(req.project) && r.machine == TrimSpace(req.machine)
    && r.backendPort == req.backendPort && r.createdAt == now && LowestFree(routes, r.localPort)
  }

  function NewRoute(req: Route, port: int, now: int): Route {
    Route(NormalizeHostname(req.hostname), TrimSpace(req.tenant), TrimSpace(req.project), TrimSpace(req.machine),
          req.backendPort, port, now)
  }

  lemma UpsertAdds(t: Tables, req: Route, now: int)
    requires NewRow(t, req)
    ensures var row := NewRoute(req, FreePort(t.routes, LOCAL_PORT_BASE).value, now);
            UpsertRoute(t, req, now) ==
            (t.(routes := Insert(t.routes, row, RouteKey)),
             Published(GetRoute(Insert(t.routes, row, RouteKey), NormalizeHostname(req.hostname))))
  {}

  /** A publish that passes every check adds one row, the new one; the others stay. */
  lemma InsertedRow(t: Tables, req: Route, now: int)
    requires NewRow(t, req)
    ensures var after := UpsertRoute(t, req, now).0;
            && after == t.(routes := after.routes) && |after.routes| == |t.routes| + 1
            && forall r :: r in after.routes <==> r in t.routes || IsNewRoute(t.routes, r, req, now)
  {
    UpsertAdds(t, req, now);
    NewRouteIs(t.routes, req, now);
  }

  lemma NewRouteIs(routes: seq<Route>, req: Route, now: int)
    requires FreePort(routes, LOCAL_PORT_BASE).Some?
    ensures forall r :: IsNewRoute(routes, r, req, now) <==> r == NewRoute(req, FreePort(routes, LOCAL_PORT_BASE).value, now)
  {
    forall r: Route ensures LowestFree(routes, r.localPort) <==> r.localPort == FreePort(routes, LOCAL_PORT_BASE).value {
      LowestFreeOne(routes, r.localPort);
    }
  }

  /** The answers to a complete request for a hostname that is not stored yet. */
  lemma NewRouteAnswers(t: Tables, req: Route, now: int)
    requires NormalizeHostname(req.hostname) != "" && TrimSpace(req.tenant) != "" && req.backendPort > 0
    requires GetRoute(t.routes, NormalizeHostname(req.hostname)).None?
    ensures var name := NormalizeHostname(req.hostname);
            match UpsertRoute(t, req, now).1
            case Published(_) => NewRow(t, req)
            case RouteInsideDomain(domain) => exists c :: c in t.claims && c.domain == domain && Under(RouteName(name), domain)
            case RouteInsideHostname(hostname) =>
              exists h :: h in t.hostnames && h.hostname == hostname && Under(RouteName(name), Base(hostname))
            case NoFreePort => forall p :: 20_000 <= p < 30_000 ==> Taken(t.routes, p)
            case RouteInsertConflict => exists r :: r in t.routes && r.hostname == name
            case _ => false
  {
    var name := NormalizeHostname(req.hostname);
    RouteInsideIsReal(t, name);
    assert forall p :: PortUsed(t.routes, p) <==> Taken(t.routes, p);
  }

  // ---------------------------------------------------------------- delete

  /** An accepted delete drops the row, its device and its block; a failed step leaves what comes after it. */
  lemma DeleteUnwires(s: Ingress, cfg: RenderConfig, hostname: string, tenant: string, w: Backend)
    ensures var (after, ok) := Delete(s, cfg, hostname, tenant, w);
            var (t, removed) := DeleteRoute(s.tables, hostname, tenant);
            && after.tables == t
            && (ok <==> removed.Some? && w.deviceOk(removed.value) && w.caddyOk)
            && (if removed.Some? && w.deviceOk(removed.value) then
                  && NormalizeHostname(removed.value.hostname) !in after.devices
                  && OtherDevicesKept(s.devices, after.devices, NormalizeHostname(removed.value.hostname))
                else after.devices == s.devices)
            && after.caddyfile == if ok then Render(cfg, t.routes) else s.caddyfile
  {}

  // ---------------------------------------------------------------- the reconcile pass

  /** The last listed route of a normalized name whose machine is running or gone. */
  function LastTouched(listed: seq<Route>, w: Backend, name: string): Option<Route> {
    if listed == [] then None
    else
      var last := listed[|listed| - 1];
      if NormalizeHostname(last.hostname) == name && (Up(w.machine(last)) || Gone(w.machine(last))) then Some(last)
      else LastTouched(listed[..|listed| - 1], w, name)
  }

  /** What an error-free pass makes of one device: the last route of its name decides, or it stays. */
  ghost predicate DeviceSettled(before: map<string, Device>, after: map<string, Device>, w: Backend, name: string, last: Option<Route>) {
    match last
    case None => (name in after <==> name in before) && (name in after && name in before ==> after[name] == before[name])
    case Some(r) =>
      if Gone(w.machine(r)) then name !in after
      else Up(w.machine(r)) && WiredAs(after, name, r, w.machine(r).value.ipv4)
  }

  lemma {:induction false} PassSettles(s: Ingress, listed: seq<Route>, w: Backend, name: string)
    requires Swept(s, listed, w).ok
    ensures DeviceSettled(s.devices, Swept(s, listed, w).s.devices, w, name, LastTouched(listed, w, name))
  {
    if listed != [] {
      var front, last := listed[..|listed| - 1], listed[|listed| - 1];
      PassSettles(s, front, w, name);
      SweepSettles(Swept(s, front, w), last, w, name);
    }
  }

  lemma SweepSettles(acc: Sweep, r: Route, w: Backend, name: string)
    requires SweepRoute(acc, r, w).ok && acc.ok
    ensures if NormalizeHostname(r.hostname) == name && (Up(w.machine(r)) || Gone(w.machine(r)))
            then DeviceSettled(acc.s.devices, SweepRoute(acc, r, w).s.devices, w, name, Some(r))
            else DeviceSettled(acc.s.devices, SweepRoute(acc, r, w).s.devices, w, name, None)
  {}

  /** An error-free reconcile settles every device, and counts the routes whose machine is gone. */
  lemma ReconcileSettles(s: Ingress, cfg: RenderConfig, w: Backend, name: string)
    requires Reconcile(s, cfg, w).ok
    ensures DeviceSettled(s.devices, Reconcile(s, cfg, w).s.devices, w, name, LastTouched(s.tables.routes, w, name))
    ensures Reconcile(s, cfg, w).pruned == |Filter(s.tables.routes, IsGone(w))|
  {
    PassSettles(s, s.tables.routes, w, name);
    PassCounts(s, s.tables.routes, w);
  }

  function IsGone(w: Backend): Route -> bool {
    (r: Route) => Gone(w.machine(r))
  }

  lemma {:induction false} PassCounts(s: Ingress, listed: seq<Route>, w: Backend)
    requires Swept(s, listed, w).ok
    ensures Swept(s, listed, w).pruned == |Filter(listed, IsGone(w))|
  {
    if listed != [] {
      var front, last := listed[..|listed| - 1], listed[|listed| - 1];
      PassCounts(s, front, w);
      SweepCounts(Swept(s, front, w), last, w);
      GoneSnoc(front, last, w);
      assert listed == front + [last];
    }
  }

  lemma SweepCounts(acc: Sweep, r: Route, w: Backend)
    requires SweepRoute(acc, r, w).ok && acc.ok
    ensures SweepRoute(acc, r, w).pruned == acc.pruned + if Gone(w.machine(r)) then 1 else 0
  {}

  lemma GoneSnoc(front: seq<Route>, last: Route, w: Backend)
    ensures |Filter(front + [last], IsGone(w))| == |Filter(front, IsGone(w))| + if Gone(w.machine(last)) then 1 else 0
  {
    FilterSnoc(front, last, IsGone(w));
  }

  // ---------------------------------------------------------------- the Caddyfile and the devices meet

  /** A block of the Caddyfile proxies to the port a device listens on. */
  ghost predicate ProxiesTo(s: Ingress, cfg: RenderConfig, r: Route, name: string) {
    && name in s.devices
    && exists tls, port :: TlsMode(tls, TrimSpace(r.hostname), cfg) && ReadNumber(port) == s.devices[name].localPort
                           && Contains(s.caddyfile, Block(TrimSpace(r.hostname), tls, port))
  }

  lemma ShownProxies(s: Ingress, cfg: RenderConfig, r: Route, name: string, ipv4: string)
    requires s.caddyfile == Render(cfg, s.tables.routes) && r in s.tables.routes && TrimSpace(r.hostname) != ""
    requires WiredAs(s.devices, name, r, ipv4)
    ensures ProxiesTo(s, cfg, r, name)
  {
    EveryRouteShows(cfg, s.tables.routes, r);
    NumberReadsBack(r.localPort);
  }

  /** Whenever the Caddyfile agrees with the registry, the block of every wired route leads to its own device. */
  lemma WiredRouteReached(s: Ingress, cfg: RenderConfig, w: Backend, r: Route)
    requires Agrees(s, cfg) && r in s.tables.routes && TrimSpace(r.hostname) != "" && Running(w, r) && Wired(s, w, r)
    ensures ProxiesTo(s, cfg, r, NormalizeHostname(r.hostname))
  {
    ShownProxies(s, cfg, r, NormalizeHostname(r.hostname), w.machine(r).value.ipv4);
  }

  /** After an error-free publish of a well-formed hostname its block leads to its own device. */
  lemma PublishedRouteReached(s: Ingress, cfg: RenderConfig, req: Route, w: Backend, now: int)
    requires Validated(req.hostname) && Publish(s, cfg, req, w, now).1.PublishOk?
    ensures var (after, outcome) := Publish(s, cfg, req, w, now);
            && outcome.route in after.tables.routes && outcome.route.hostname == req.hostname
            && ProxiesTo(after, cfg, outcome.route, req.hostname)
  {
    PublishWires(s, cfg, req, w, now);
    ValidatedFixed(req.hostname);
    ReadBack(s.tables, req, now);
    var (after, outcome) := Publish(s, cfg, req, w, now);
    NormalNotBlank(req.hostname);
    ShownProxies(after, cfg, outcome.route, req.hostname, w.machine(req).value.ipv4);
  }

  /** A hostname in normal form is read back as the row it was stored under. */
  lemma ReadBack(t: Tables, req: Route, now: int)
    requires NormalizeHostname(req.hostname) == req.hostname && UpsertRoute(t, req, now).1.Published?
    ensures var (after, outcome) := UpsertRoute(t, req, now);
            && outcome.route.Some? && outcome.route.value in after.routes && outcome.route.value.hostname == req.hostname
            && req.hostname != ""
  {
    if GetRoute(t.routes, req.hostname).None? {
      var row := UpsertInserts(t, req, now);
      var hit := IsRoute(req.hostname);
      assert hit(row);
    }
  }

  /** A stored well-formed route is compared by its name without the wildcard label. */
  lemma RouteNameOf(name: string)
    requires ValidName(name)
    ensures RouteName(name) == name && RouteName("*." + name) == name
  {
    ValidNameFixed(name);
    BaseOfWildcard(name);
    ValidatedFixed(name);
    ValidatedFixed("*." + name);
  }
}
