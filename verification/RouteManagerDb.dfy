/**
 The route manager in the form the Auth App runs it: one object whose registry rows, devices and Caddyfile change
 step by step. Each method is proved to compute the operation of module RouteManagers.
 */
module RouteManagerDbs {
  import opened Text
  import opened Names
  import opened Registry
  import opened Caddyfile
  import opened RouteManagers
  import opened RouteRuns
  import RegistryInvariant

  class RouteManager {
    var tables: Tables
    var devices: map<string, Device>
    var caddyfile: string
    const cfg: RenderConfig
    const install: Install

    ghost function View(): Ingress
      reads this
    {
      Ingress(tables, devices, caddyfile)
    }

    constructor (cfg: RenderConfig, install: Install)
      ensures View() == Ingress(RegistryInvariant.NO_ROWS, map[], "") && this.cfg == cfg && this.install == install
      ensures Good(View(), install)
    {
      tables, devices, caddyfile := RegistryInvariant.NO_ROWS, map[], "";
      this.cfg := cfg;
      this.install := install;
    }

    method Regenerate(caddyOk: bool) returns (ok: bool)
      modifies this
      ensures ok == caddyOk
      ensures View() == if caddyOk then Regenerated(old(View()), cfg) else old(View())
    {
      var text := RenderCaddyfile(cfg, tables.routes);
      if caddyOk {
        caddyfile := text;
      }
      ok := caddyOk;
    }

    method PublishRoute(req: Route, w: Backend, now: int) returns (outcome: PublishOutcome)
      modifies this
      ensures (View(), outcome) == Publish(old(View()), cfg, req, w, now)
      ensures Good(old(View()), install) ==> Good(View(), install)
    {
      if Good(View(), install) { OpKeeps(View(), install, cfg, PublishOp(req, w, now)); }
      var m := w.machine(req);
      if m.None? {
        return MachineUnknown;
      }
      if !m.value.present {
        return MachineAbsent;
      }
      if !m.value.running || TrimSpace(m.value.ipv4) == "" {
        return MachineStopped;
      }
      var upserted := UpsertRoute(tables, req, now);
      tables := upserted.0;
      if !upserted.1.Published? {
        return NotRegistered(upserted.1);
      }
      var route := if upserted.1.route.Some? then upserted.1.route.value else NO_ROUTE;
      if !w.deviceOk(route) {
        return DeviceFailed;
      }
      devices := devices[DeviceKey(route.hostname) := DeviceFor(route, m.value)];
      var applied := Regenerate(w.caddyOk);
      outcome := if applied then PublishOk(route) else CaddyFailed;
    }

    method DeletePublished(hostname: string, tenant: string, w: Backend) returns (ok: bool)
      modifies this
      ensures (View(), ok) == Delete(old(View()), cfg, hostname, tenant, w)
      ensures Good(old(View()), install) ==> Good(View(), install)
    {
      if Good(View(), install) { OpKeeps(View(), install, cfg, DeleteOp(hostname, tenant, w)); }
      var deleted := DeleteRoute(tables, hostname, tenant);
      if deleted.1.None? {
        return false;
      }
      tables := deleted.0;
      if !w.deviceOk(deleted.1.value) {
        return false;
      }
      devices := devices - {DeviceKey(deleted.1.value.hostname)};
      ok := Regenerate(w.caddyOk);
    }

    /** The reconcile pass. */
    method ReconcileRoutes(w: Backend) returns (pruned: nat, ok: bool)
      modifies this
      ensures Sweep(View(), pruned, ok) == Reconcile(old(View()), cfg, w)
      ensures Good(old(View()), install) ==> Good(View(), install)
    {
      if Good(View(), install) { OpKeeps(View(), install, cfg, ReconcileOp(w)); }
      var listed := tables.routes;
      pruned, ok := SweepListed(listed, w);
      if !ok {
        return;
      }
      if pruned > 0 {
        ok := Regenerate(w.caddyOk);
      }
    }

    method SweepListed(listed: seq<Route>, w: Backend) returns (pruned: nat, ok: bool)
      modifies this
      ensures Sweep(View(), pruned, ok) == Swept(old(View()), listed, w)
    {
      pruned, ok := 0, true;
      for i := 0 to |listed|
        invariant ok && Sweep(View(), pruned, true) == Swept(old(View()), listed[..i], w)
      {
        var r := listed[i];
        ghost var acc := Sweep(View(), pruned, true);
        SweptAt(old(View()), listed, i, w);
        var m := w.machine(r);
        if m.None? {
          continue;
        }
        if !m.value.present {
          tables := PruneRoute(tables, r.hostname);
          if !w.deviceOk(r) {
            ok := false;
            SweptStops(old(View()), listed, i + 1, w);
            return;
          }
          devices := devices - {DeviceKey(r.hostname)};
          pruned := pruned + 1;
        } else if m.value.running && TrimSpace(m.value.ipv4) != "" {
          if !w.deviceOk(r) {
            ok := false;
            SweptStops(old(View()), listed, i + 1, w);
            return;
          }
          devices := devices[DeviceKey(r.hostname) := DeviceFor(r, m.value)];
        }
        assert Sweep(View(), pruned, true) == SweepRoute(acc, r, w);
      }
      assert listed[..|listed|] == listed;
    }
  }
}
