/** The reconciler as it is written (networkconfiguration_controller.go): steps that change the object and call Kea. */
module Reconciler {
  import opened Text
  import opened Ipv4
  import opened KeaServer
  import opened Client
  import opened KeaService
  import opened Macs
  import S = Service
  import R = Reservations
  import C = Controller

  class NetworkConfigurationReconciler {
    const env: C.Env
    const kea: KeaOperations
    var nc: C.Config
    var patches: seq<C.Patch>

    ghost predicate Valid()
      reads this, kea.client
    {
      kea.client.Valid() && kea.client.fates == env.fates
    }

    ghost function Site(): C.Site
      reads this, kea.client
    {
      C.Site(kea.client.world, patches)
    }

    constructor (env: C.Env, kea: KeaOperations, nc: C.Config)
      requires kea.client.Valid() && kea.client.fates == env.fates
      ensures Valid() && this.env == env && this.kea == kea && this.nc == nc && patches == []
    {
      this.env, this.kea, this.nc, this.patches := env, kea, nc, [];
    }

    // ---------- Status ----------

    method SetCondition(c: C.Condition)
      requires Valid()
      modifies this
      ensures Valid() && (Site(), nc) == C.SetCondition(env, old(Site()), old(nc), c)
    {
      var prev := C.FindCondition(nc.status.conditions, c.kind);
      if prev == Some(c) { return; }
      var ok := env.patchOk(|patches|);
      patches := patches + [C.ConditionPatch(c)];
      if ok { nc := nc.(status := nc.status.(conditions := C.PutCondition(nc.status.conditions, c))); }
    }

    method UpdateStatus(phase: C.Phase, state: C.State, message: C.Message, rows: seq<C.Row>)
      requires Valid()
      modifies this
      ensures Valid() && (Site(), nc) == C.UpdateStatus(env, old(Site()), old(nc), phase, state, message, rows)
    {
      var updated, changed := nc.status, false;
      if updated.phase != phase { updated, changed := updated.(phase := phase), true; }
      if updated.state != state { updated, changed := updated.(state := state), true; }
      if updated.message != message { updated, changed := updated.(message := message), true; }
      if !updated.created { updated, changed := updated.(created := true), true; }
      if rows != [] && updated.rows != rows { updated, changed := updated.(rows := rows), true; }
      assert updated == C.UpdatedStatus(nc.status, phase, state, message, rows) && changed == (updated != nc.status);
      if !changed { return; }
      var ok := env.patchOk(|patches|);
      patches := patches + [C.StatusPatch(updated)];
      if ok { nc := nc.(status := updated); }
    }

    method Report(c: C.Condition, phase: C.Phase, state: C.State, message: C.Message, rows: seq<C.Row>)
      requires Valid()
      modifies this
      ensures Valid() && (Site(), nc) == C.Report(env, old(Site()), old(nc), c, phase, state, message, rows)
    {
      SetCondition(c);
      UpdateStatus(phase, state, message, rows);
    }

    /** One row per interface, in order. */
    method BuildRows(ips: map<string, string>, sids: map<string, int>, prefix: string, info: Option<S.SubnetInfo>)
      returns (rows: seq<C.Row>)
      ensures rows == C.RowsFor(nc.interfaces, ips, sids, prefix, info)
      ensures |rows| == |nc.interfaces|
    {
      rows := [];
      for i := 0 to |nc.interfaces|
        invariant rows == C.RowsFor(nc.interfaces[..i], ips, sids, prefix, info) && |rows| == i
      {
        C.RowsSnoc(nc.interfaces, i, ips, sids, prefix, info);
        rows := rows + [C.RowFor(nc.interfaces[i], ips, sids, prefix, info)];
      }
      assert nc.interfaces[..|nc.interfaces|] == nc.interfaces;
    }

    // ---------- Kea ----------

    method ResolveInfo(id: int, prefix: string) returns (id': int, info: Option<S.SubnetInfo>)
      requires Valid()
      modifies kea.client
      ensures Valid() && (kea.client.world, id', info) == C.ResolveInfo(env.fates, old(kea.client.world), id, prefix)
    {
      var first := kea.GetSubnetInfo(id);
      if first.Ok? { return id, Some(first.value); }
      id', info := id, None;
      if first.why == Absent {
        var again := kea.GetSubnetId(prefix);
        if again.Ok? && again.value != id {
          id' := again.value;
          var second := kea.GetSubnetInfo(id');
          if second.Ok? { info := Some(second.value); }
        }
      }
    }

    method ProcessReservations(macs: seq<string>, sid: int, prefix: string)
      returns (ips: map<string, string>, sids: map<string, int>, errs: seq<(string, Failure)>)
      requires Valid()
      modifies kea.client
      ensures Valid()
      ensures R.Progress(kea.client.world, ips, sids, errs) == R.ReserveAll(env.fates, old(kea.client.world), macs, sid, prefix)
    {
      ips, sids, errs := map[], map[], [];
      for i := 0 to |macs|
        invariant Valid()
        invariant R.Progress(kea.client.world, ips, sids, errs) == R.ReserveAll(env.fates, old(kea.client.world), macs[..i], sid, prefix)
      {
        assert macs[..i + 1][..i] == macs[..i];
        var mac := macs[i];
        var found := kea.GetLease(mac);
        var s := if found.subnetId > 0 then found.subnetId else sid;
        var ip := R.KeepIp(prefix, found.ip);
        var r := kea.EnsureReservation(mac, s, ip);
        if r.Err? {
          errs := errs + [(mac, r.why)];
          continue;
        }
        sids := sids[mac := s];
        if ip != "" { ips := ips[mac := ip]; }
      }
      assert macs[..|macs|] == macs;
    }

    method CleanupReservations(nn: Option<C.Namespace>) returns (ghost order: seq<string>)
      requires Valid()
      modifies kea.client
      ensures Valid() && Enumerates(order, MacSet(nc.interfaces))
      ensures kea.client.world == C.Cleanup(env.fates, old(kea.client.world), nn, order)
    {
      var macs := ExtractMacs(nc.interfaces);
      order := macs;
      if nn.None? { return; }
      var id := kea.GetSubnetId(nn.value.prefix);
      if id.Err? { return; }
      ghost var start := kea.client.world;
      for i := 0 to |macs|
        invariant Valid()
        invariant kea.client.world == R.DeleteAll(env.fates, start, macs[..i], id.value)
      {
        assert macs[..i + 1][..i] == macs[..i];
        kea.DeleteReservation(macs[i], id.value);
      }
      assert macs[..|macs|] == macs;
    }

    // ---------- Reconcile ----------

    method Serve(sid: int, prefix: string, macs: seq<string>) returns (run: C.Run)
      requires Valid()
      modifies this, kea.client
      ensures Valid() && run == C.Serve(env, old(Site()), old(nc), sid, prefix, macs)
      ensures Site() == run.site && nc == run.nc
    {
      var id, info := ResolveInfo(sid, prefix);
      var ips, sids, errs := ProcessReservations(macs, id, prefix);
      var rows := BuildRows(ips, sids, prefix, info);
      if errs != [] {
        Report(C.ReadyIs(false, C.ReasonError, C.ReservationErrors(errs), nc), C.Error, C.FailState, C.ReservationErrors(errs), rows);
        return C.Run(C.Site(kea.client.world, patches), nc, C.Failing, C.Soon, ips, sids);
      }
      Report(C.ReadyIs(true, C.ReasonConfigured, C.AllConfigured, nc), C.Ready, C.Success, C.Summary(|macs|, |ips|), rows);
      return C.Run(C.Site(kea.client.world, patches), nc, C.Configured, if |ips| < |macs| then C.Soon else C.Later, ips, sids);
    }

    method Provision(prefix: string, pool: Pool, macs: seq<string>) returns (run: C.Run)
      requires Valid()
      modifies this, kea.client
      ensures Valid() && run == C.Provision(env, old(Site()), old(nc), prefix, pool, macs)
      ensures Site() == run.site && nc == run.nc
    {
      var subnet := kea.GetOrCreateSubnet(C.SubnetFrom(prefix, pool, env.classes));
      if subnet.Err? {
        var m := C.SubnetError(subnet.why);
        Report(C.ReadyIs(false, C.ReasonError, m, nc), C.Error, C.FailState, m, []);
        return Here(C.NoSubnet, C.Soon);
      }
      run := Serve(subnet.value.id, prefix, macs);
    }

    /** Past triage, with the finalizer in place. */
    method Work(prefix: string, macs: seq<string>) returns (run: C.Run)
      requires Valid()
      modifies this, kea.client
      ensures Valid() && run == C.Work(env, old(Site()), old(nc), prefix, macs)
      ensures Site() == run.site && nc == run.nc
    {
      var ready := C.FindCondition(nc.status.conditions, C.ReadyKind);
      if ready.None? || ready.value.generation != nc.generation {
        Report(C.ReadyIs(false, C.ReasonReconciling, C.Working, nc), C.Reconciling, C.InProgress, C.Working, []);
      }
      if prefix == "" {
        UpdateStatus(C.Error, C.FailState, C.MissingPrefix, []);
        return Here(C.PrefixMissing, C.Soon);
      }
      if macs == [] {
        UpdateStatus(C.Ready, C.Success, C.NothingToConfigure, []);
        return Here(C.NoMacs, C.Never);
      }
      var net := ParseNetwork(prefix);
      var pool: Option<Pool> := None;
      if net.Some? { pool := CalculatePool(net.value); }
      if pool.None? {
        UpdateStatus(C.Error, C.FailState, C.InvalidCidr, []);
        return Here(C.BadCidr, C.Soon);
      }
      run := Provision(prefix, pool.value, macs);
    }

    function Here(verdict: C.Verdict, requeue: C.Requeue): C.Run
      reads this, kea.client
    {
      C.Run(C.Site(kea.client.world, patches), nc, verdict, requeue, map[], map[])
    }

    /** One reconcile does what C.Reconcile says, for the order in which the MACs happened to be ranged over. */
    method Reconcile(nn: Option<C.Namespace>) returns (run: C.Run, ghost order: seq<string>)
      requires Valid()
      modifies this, kea.client
      ensures Valid() && Enumerates(order, MacSet(old(nc).interfaces))
      ensures run == C.Reconcile(env, old(Site()), old(nc), nn, order)
      ensures Site() == run.site && nc == run.nc
    {
      if !nc.provider.ProviderOther? && nc.deleting {
        order := CleanupReservations(nn);
        if env.finalizerOk { nc := nc.(finalizer := false); }
        run := Here(C.Deleted, if env.finalizerOk then C.Never else C.Soon);
        return;
      }
      var macs := ExtractMacs(nc.interfaces);
      order := macs;
      if nc.provider.ProviderOther? {
        run := Here(C.NotOurs, C.Never);
      } else if nn.None? {
        run := Here(C.NoNamespace, C.Never);
      } else if nn.value.allocation.AllocationOther? {
        run := Here(C.OtherType, C.Never);
      } else if nc.provider.ProviderUnset? && env.strict {
        run := Refuse(C.ProviderRefused);
      } else if nn.value.allocation.AllocationUnset? && env.strict {
        run := Refuse(C.AllocationRefused);
      } else if !nc.finalizer {
        if env.finalizerOk { nc := nc.(finalizer := true); }
        run := Here(C.Claimed, if env.finalizerOk then C.Never else C.Soon);
      } else {
        run := Work(nn.value.prefix, macs);
      }
    }

    method Refuse(message: C.Message) returns (run: C.Run)
      requires Valid()
      modifies this
      ensures Valid() && run == C.Refuse(env, old(Site()), old(nc), message)
      ensures Site() == run.site && nc == run.nc
    {
      Report(C.ReadyIs(false, C.ReasonError, message, nc), C.Error, C.FailState, message, []);
      run := Here(C.Refused, C.Never);
    }
  }
}
