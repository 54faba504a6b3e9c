/**
 The route manager: registry rows, proxy devices and the applied Caddyfile change together, each
 operation failing at the step where Incus or Caddy fails. The source names a device by a hash of the
 route's normalized hostname; here that hostname is the key.
 */
module RouteManagers {
  import opened Text
  import opened Names
  import opened Registry
  import opened RegistryInvariant
  import opened Caddyfile

  // ---------------------------------------------------------------- state and answers

  datatype Device = Device(localPort: int, ip: string, backendPort: int)

  datatype Ingress = Ingress(tables: Tables, devices: map<string, Device>, caddyfile: string)

  datatype MachineState = MachineState(present: bool, running: bool, ipv4: string)

  /** What Incus and Caddy answer during an operation; None is an unresolved machine. */
  datatype Backend = Backend(machine: Route -> Option<MachineState>, deviceOk: Route -> bool, caddyOk: bool)

  datatype PublishOutcome =
    | PublishOk(route: Route)
    | MachineUnknown | MachineAbsent | MachineStopped
    | NotRegistered(reason: RouteOutcome)
    | DeviceFailed | CaddyFailed

  const NO_ROUTE := Route("", "", "", "", 0, 0, 0)

  predicate Reachable(m: MachineState) {
    m.running && TrimSpace(m.ipv4) != ""
  }

  function DeviceFor(r: Route, m: MachineState): Device {
    Device(r.localPort, m.ipv4, r.backendPort)
  }

  /** What `routeDeviceName` hashes: two spellings of one hostname share a device. */
  function DeviceKey(hostname: string): string {
    NormalizeHostname(hostname)
  }

  // ---------------------------------------------------------------- operations

  /** `regenerate`. */
  function Regenerated(s: Ingress, cfg: RenderConfig): Ingress {
    s.(caddyfile := Render(cfg, s.tables.routes))
  }

  function Publish(s: Ingress, cfg: RenderConfig, req: Route, w: Backend, now: int): (Ingress, PublishOutcome) {
    var m := w.machine(req);
    if m.None? then (s, MachineUnknown)
    else if !m.value.present then (s, MachineAbsent)
    else if !Reachable(m.value) then (s, MachineStopped)
    else
      var (t, outcome) := UpsertRoute(s.tables, req, now);
      if !outcome.Published? then (s.(tables := t), NotRegistered(outcome))
      else
        var route := if outcome.route.Some? then outcome.route.value else NO_ROUTE;
        if !w.deviceOk(route) then (s.(tables := t), DeviceFailed)
        else
          var s' := s.(tables := t, devices := s.devices[DeviceKey(route.hostname) := DeviceFor(route, m.value)]);
          if w.caddyOk then (Regenerated(s', cfg), PublishOk(route)) else (s', CaddyFailed)
  }

  /** False is an error answer. */
  function Delete(s: Ingress, cfg: RenderConfig, hostname: string, tenant: string, w: Backend): (Ingress, bool) {
    var (t, removed) := DeleteRoute(s.tables, hostname, tenant);
    if removed.None? then (s, false)
    else if !w.deviceOk(removed.value) then (s.(tables := t), false)
    else
      var s' := s.(tables := t, devices := s.devices - {DeviceKey(removed.value.hostname)});
      if w.caddyOk then (Regenerated(s', cfg), true) else (s', false)
  }

  predicate Absent(w: Backend, r: Route) {
    w.machine(r).Some? && !w.machine(r).value.present
  }

  predicate Running(w: Backend, r: Route) {
    w.machine(r).Some? && w.machine(r).value.present && Reachable(w.machine(r).value)
  }

  datatype Sweep = Sweep(s: Ingress, pruned: nat, ok: bool)

  /** One route of the reconcile loop. */
  function SweepRoute(acc: Sweep, r: Route, w: Backend): Sweep {
    var s := acc.s;
    if Absent(w, r) then
      var t := PruneRoute(s.tables, r.hostname);
      if !w.deviceOk(r) then Sweep(s.(tables := t), acc.pruned, false)
      else Sweep(s.(tables := t, devices := s.devices - {DeviceKey(r.hostname)}), acc.pruned + 1, true)
    else if Running(w, r) then
      if !w.deviceOk(r) then acc.(ok := false)
      else acc.(s := s.(devices := s.devices[DeviceKey(r.hostname) := DeviceFor(r, w.machine(r).value)]))
    else acc
  }

  function Swept(s: Ingress, listed: seq<Route>, w: Backend): Sweep {
    if listed == [] then Sweep(s, 0, true)
    else
      var acc := Swept(s, listed[..|listed| - 1], w);
      if !acc.ok then acc else SweepRoute(acc, listed[|listed| - 1], w)
  }

  function Reconcile(s: Ingress, cfg: RenderConfig, w: Backend): Sweep {
    var acc := Swept(s, s.tables.routes, w);
    if !acc.ok || acc.pruned == 0 then acc
    else if w.caddyOk then acc.(s := Regenerated(acc.s, cfg))
    else acc.(ok := false)
  }

  // ---------------------------------------------------------------- the pass, route by route

  lemma SweptAt(s: Ingress, listed: seq<Route>, i: nat, w: Backend)
    requires i < |listed| && Swept(s, listed[..i], w).ok
    ensures Swept(s, listed[..i + 1], w) == SweepRoute(Swept(s, listed[..i], w), listed[i], w)
  {
    assert listed[..i + 1][..i] == listed[..i];
  }

  /** A failed prefix decides the whole pass. */
  lemma {:induction false} SweptStops(s: Ingress, listed: seq<Route>, i: nat, w: Backend)
    requires i <= |listed| && !Swept(s, listed[..i], w).ok
    ensures Swept(s, listed, w) == Swept(s, listed[..i], w)
    decreases |listed|
  {
    if i == |listed| {
      assert listed[..i] == listed;
    } else {
      var front := listed[..|listed| - 1];
      assert front[..i] == listed[..i];
      SweptStops(s, front, i, w);
    }
  }

  // ---------------------------------------------------------------- what a pass prunes

  /** A row stays unless some absent machine's route normalizes to its hostname. */
  ghost predicate Survives(listed: seq<Route>, w: Backend, r: Route) {
    forall a :: a in listed && Absent(w, a) ==> NormalizeHostname(a.hostname) != r.hostname
  }

  lemma {:induction false} SweptRows(s: Ingress, listed: seq<Route>, w: Backend)
    requires Swept(s, listed, w).ok
    ensures forall r :: r in Swept(s, listed, w).s.tables.routes <==> r in s.tables.routes && Survives(listed, w, r)
    ensures Swept(s, listed, w).s.caddyfile == s.caddyfile
    ensures Swept(s, listed, w).pruned == 0 ==> Swept(s, listed, w).s.tables == s.tables
    ensures Swept(s, listed, w).pruned > 0 <==> exists a :: a in listed && Absent(w, a)
  {
    if listed != [] {
      var front, last := listed[..|listed| - 1], listed[|listed| - 1];
      SweptRows(s, front, w);
      assert listed == front + [last];
      assert forall a :: a in listed <==> a in front || a == last;
      SweepRow(Swept(s, front, w), last, w);
    }
  }

  lemma SweepRow(acc: Sweep, r: Route, w: Backend)
    requires SweepRoute(acc, r, w).ok && acc.ok
    ensures var after := SweepRoute(acc, r, w);
            && after.s.caddyfile == acc.s.caddyfile
            && (!Absent(w, r) ==> after.s.tables == acc.s.tables && after.pruned == acc.pruned)
            && (Absent(w, r) ==> after.pruned == acc.pruned + 1)
            && (forall x :: x in after.s.tables.routes <==>
                  x in acc.s.tables.routes && (Absent(w, r) ==> NormalizeHostname(r.hostname) != x.hostname))
  {
    var kept := NotRoute(NormalizeHostname(r.hostname));
    assert forall x :: kept(x) <==> x.hostname != NormalizeHostname(r.hostname);
  }

  /** A listed route whose device call the pass makes. */
  predicate Touches(w: Backend, r: Route) {
    Absent(w, r) || Running(w, r)
  }

  /** The route's device listens on the route's local port and connects to its backend port at the machine's address. */
  ghost predicate Wired(s: Ingress, w: Backend, r: Route)
    requires Running(w, r)
  {
    var name := NormalizeHostname(r.hostname);
    && name in s.devices
    && s.devices[name].localPort == r.localPort
    && s.devices[name].ip == w.machine(r).value.ipv4
    && s.devices[name].backendPort == r.backendPort
  }

  /** No later listed route of the same normalized hostname is running or absent. */
  ghost predicate LastSpelling(listed: seq<Route>, w: Backend, i: nat)
    requires i < |listed|
  {
    forall k :: i < k < |listed| && DeviceKey(listed[k].hostname) == DeviceKey(listed[i].hostname) ==> !Touches(w, listed[k])
  }

  ghost predicate DistinctPorts(listed: seq<Route>) {
    forall i, j :: 0 <= i < j < |listed| ==> listed[i].localPort != listed[j].localPort
  }

  /**
   After an error-free pass a running machine's route has a device at the machine's address exactly when no later
   listed route of the same normalized hostname is running or absent.
   */
  lemma {:induction false} SweptDevicesIff(s: Ingress, listed: seq<Route>, w: Backend, i: nat)
    requires Swept(s, listed, w).ok && DistinctPorts(listed) && i < |listed| && Running(w, listed[i])
    ensures Wired(Swept(s, listed, w).s, w, listed[i]) <==> LastSpelling(listed, w, i)
  {
    var front, last := listed[..|listed| - 1], listed[|listed| - 1];
    assert listed == front + [last];
    if i < |front| {
      SweptDevicesIff(s, front, w, i);
      LastSpellingSnoc(front, last, w, i);
      SweepWires(Swept(s, front, w), last, w, listed[i]);
    } else {
      LastWires(Swept(s, front, w), last, w);
    }
  }

  lemma LastWires(acc: Sweep, last: Route, w: Backend)
    requires acc.ok && SweepRoute(acc, last, w).ok && Running(w, last)
    ensures Wired(SweepRoute(acc, last, w).s, w, last)
  {}

  lemma LastSpellingSnoc(front: seq<Route>, last: Route, w: Backend, i: nat)
    requires i < |front|
    ensures LastSpelling(front + [last], w, i) <==>
            LastSpelling(front, w, i) && (DeviceKey(last.hostname) == DeviceKey(front[i].hostname) ==> !Touches(w, last))
  {
    var listed := front + [last];
    assert listed[|front|] == last;
    assert forall k :: 0 <= k < |front| ==> listed[k] == front[k];
    if LastSpelling(listed, w, i) {
      forall k | i < k < |front| && DeviceKey(front[k].hostname) == DeviceKey(front[i].hostname) ensures !Touches(w, front[k]) {
        assert listed[k] == front[k];
      }
    }
  }

  lemma SweepWires(acc: Sweep, last: Route, w: Backend, r: Route)
    requires acc.ok && SweepRoute(acc, last, w).ok && Running(w, r) && r.localPort != last.localPort
    ensures Wired(SweepRoute(acc, last, w).s, w, r) <==>
            Wired(acc.s, w, r) && (DeviceKey(last.hostname) == DeviceKey(r.hostname) ==> !Touches(w, last))
  {}

  /** With hostnames in normal form every running machine's route has its device. */
  lemma SweptDevices(s: Ingress, cfg: RenderConfig, w: Backend, r: Route)
    requires RoutesOk(s.tables.routes) && Reconcile(s, cfg, w).ok && r in s.tables.routes && Running(w, r)
    requires forall x :: x in s.tables.routes ==> NormalizeHostname(x.hostname) == x.hostname
    ensures Wired(Reconcile(s, cfg, w).s, w, r)
  {
    var routes := s.tables.routes;
    var i :| 0 <= i < |routes| && routes[i] == r;
    RowsDistinct(routes);
    forall k | i < k < |routes| ensures DeviceKey(routes[k].hostname) != DeviceKey(routes[i].hostname) {
      assert routes[k] in routes && Less(RouteKey(routes[i]), RouteKey(routes[k]));
    }
    SweptDevicesIff(s, routes, w, i);
  }

  lemma RowsDistinct(routes: seq<Route>)
    requires RoutesOk(routes)
    ensures DistinctPorts(routes)
  {
    forall i, j | 0 <= i < j < |routes| ensures routes[i].localPort != routes[j].localPort {
      assert routes[i] in routes && routes[j] in routes && Less(RouteKey(routes[i]), RouteKey(routes[j]));
    }
  }

  /** Rows are stored lower-cased. */
  ghost predicate Folded(routes: seq<Route>) {
    forall r :: r in routes ==> Lower(r.hostname) == r.hostname
  }

  lemma LowerLower(s: string)
    ensures Lower(Lower(s)) == Lower(s)
  {}

  /** Normalizing a folded hostname keeps it or makes it shorter. */
  lemma NormalizeShortens(h: string)
    requires Lower(h) == h
    ensures NormalizeHostname(h) == h || |NormalizeHostname(h)| < |h|
  {
    var a := TrimSpace(h);
    TrimShortens(h);
    var b := TrimSuffix(a, ".");
    var c := TrimSpace(b);
    TrimShortens(b);
    if |c| == |h| {
      assert c == h;
    }
  }

  lemma TrimShortens(s: string)
    ensures TrimSpace(s) == s || |TrimSpace(s)| < |s|
  {
    var l := TrimLeft(s, IsSpace);
    TrimLeftEnds(s, IsSpace);
    TrimRightEnds(l, IsSpace);
  }

  /** Every absent machine's route is stored in a form that normalizes to itself. */
  ghost predicate AbsentFixed(routes: seq<Route>, w: Backend) {
    forall r :: r in routes && Absent(w, r) ==> NormalizeHostname(r.hostname) == r.hostname
  }

  ghost predicate PrunesExactly(before: seq<Route>, after: seq<Route>, w: Backend) {
    forall r :: r in before ==> (r in after <==> !Absent(w, r))
  }

  /** If some absent route is not in normal form, the longest one that is removed needs a longer one still. */
  lemma {:induction false} NotFixedNotExact(routes: seq<Route>, w: Backend, r: Route, longest: nat)
    requires KeyOrdered(routes, RouteKey) && Folded(routes) && r in routes && Absent(w, r)
    requires NormalizeHostname(r.hostname) != r.hostname
    requires forall x :: x in routes ==> |x.hostname| <= longest
    ensures exists x :: x in routes && Absent(w, x) && Survives(routes, w, x)
    decreases longest - |r.hostname|
  {
    if !Survives(routes, w, r) {
      var a :| a in routes && Absent(w, a) && NormalizeHostname(a.hostname) == r.hostname;
      NormalizeShortens(a.hostname);
      NotFixedNotExact(routes, w, a, longest);
    }
  }

  /** An error-free pass removes exactly the routes of absent machines iff their hostnames are in normal form. */
  lemma PrunesExactlyIff(s: Ingress, cfg: RenderConfig, w: Backend)
    requires RoutesOk(s.tables.routes) && Folded(s.tables.routes) && Reconcile(s, cfg, w).ok
    ensures PrunesExactly(s.tables.routes, Reconcile(s, cfg, w).s.tables.routes, w) <==> AbsentFixed(s.tables.routes, w)
  {
    var routes := s.tables.routes;
    SweptRows(s, routes, w);
    if AbsentFixed(routes, w) {
      forall r | r in routes ensures Survives(routes, w, r) <==> !Absent(w, r) {
        FixedSurvives(routes, w, r);
      }
    } else {
      var r :| r in routes && Absent(w, r) && NormalizeHostname(r.hostname) != r.hostname;
      var longest := LongestHostname(routes);
      NotFixedNotExact(routes, w, r, longest);
    }
  }

  lemma FixedSurvives(routes: seq<Route>, w: Backend, r: Route)
    requires KeyOrdered(routes, RouteKey) && AbsentFixed(routes, w) && r in routes
    ensures Survives(routes, w, r) <==> !Absent(w, r)
  {
    if !Survives(routes, w, r) {
      var a :| a in routes && Absent(w, a) && NormalizeHostname(a.hostname) == r.hostname;
      KeyUnique(routes, RouteKey, a, r);
    }
  }

  lemma {:induction false} LongestHostname(routes: seq<Route>) returns (n: nat)
    ensures forall x :: x in routes ==> |x.hostname| <= n
  {
    n := 0;
    if routes != [] {
      n := LongestHostname(routes[1..]);
      n := if |routes[0].hostname| > n then |routes[0].hostname| else n;
    }
  }
}
