/**
 A primary that has gone silent is as good as gone: with a standby configured, every operation up to a whole
 reconcile does what it would do with the standby as its only server.
 */
module Failover {
  import opened Text
  import opened Ipv4
  import opened KeaServer
  import opened Service
  import opened Macs
  import opened Reservations
  import opened Controller

  /** The primary never gives a readable answer; it may or may not carry out what it was sent. */
  ghost predicate PrimaryDown(fates: Fates) {
    forall n :: fates(n).primary.Silent?
  }

  /** The same fates for an operator that knows the standby only. */
  ghost predicate StandbyFates(fates: Fates, solo: Fates) {
    forall n :: solo(n).primary == fates(n).secondary && solo(n).saysNotFound == fates(n).saysNotFound
  }

  /** The standby of the one world is the only server of the other; both have sent the same commands. */
  predicate SameStandby(w: World, v: World) {
    w.secondary == Some(v.primary) && v.secondary.None? && w.sent == v.sent
  }

  lemma SendAlike(fates: Fates, solo: Fates, w: World, v: World, c: Command)
    requires PrimaryDown(fates) && StandbyFates(fates, solo) && SameStandby(w, v)
    ensures Send(fates, w, c).1 == Send(solo, v, c).1
    ensures SameStandby(Send(fates, w, c).0, Send(solo, v, c).0)
  {
    var n := |w.sent|;
    assert fates(n).primary.Silent? && solo(n).primary == fates(n).secondary && solo(n).saysNotFound == fates(n).saysNotFound;
  }

  // ---------- The Kea operations ----------

  lemma CreateAlike(fates: Fates, solo: Fates, w: World, v: World, cfg: SubnetConfig)
    requires PrimaryDown(fates) && StandbyFates(fates, solo) && SameStandby(w, v)
    ensures CreateSubnet(fates, w, cfg).1 == CreateSubnet(solo, v, cfg).1
    ensures SameStandby(CreateSubnet(fates, w, cfg).0, CreateSubnet(solo, v, cfg).0)
  {
    SendAlike(fates, solo, w, v, SubnetList);
    var w1, v1 := Send(fates, w, SubnetList).0, Send(solo, v, SubnetList).0;
    if cfg.id > 0 {
      SendAlike(fates, solo, w, v, SubnetAdd(Document(cfg, cfg.id)));
    } else {
      SendAlike(fates, solo, w1, v1, SubnetAdd(Document(cfg, NextIdFrom(Send(solo, v, SubnetList).1))));
    }
  }

  lemma GetOrCreateAlike(fates: Fates, solo: Fates, w: World, v: World, cfg: SubnetConfig)
    requires PrimaryDown(fates) && StandbyFates(fates, solo) && SameStandby(w, v)
    ensures GetOrCreateSubnet(fates, w, cfg).1 == GetOrCreateSubnet(solo, v, cfg).1
    ensures SameStandby(GetOrCreateSubnet(fates, w, cfg).0, GetOrCreateSubnet(solo, v, cfg).0)
  {
    SendAlike(fates, solo, w, v, SubnetList);
    var w1, v1 := Send(fates, w, SubnetList).0, Send(solo, v, SubnetList).0;
    CreateAlike(fates, solo, w1, v1, cfg);
    SendAlike(fates, solo, CreateSubnet(fates, w1, cfg).0, CreateSubnet(solo, v1, cfg).0, SubnetList);
  }

  lemma ResolveAlike(fates: Fates, solo: Fates, w: World, v: World, id: int, prefix: string)
    requires PrimaryDown(fates) && StandbyFates(fates, solo) && SameStandby(w, v)
    ensures var x, y := ResolveInfo(fates, w, id, prefix), ResolveInfo(solo, v, id, prefix);
      SameStandby(x.0, y.0) && x.1 == y.1 && x.2 == y.2
  {
    SendAlike(fates, solo, w, v, SubnetGet(id));
    var w1, v1 := Send(fates, w, SubnetGet(id)).0, Send(solo, v, SubnetGet(id)).0;
    SendAlike(fates, solo, w1, v1, SubnetList);
    var (v2, again) := GetSubnetId(solo, v1, prefix);
    if again.Ok? { SendAlike(fates, solo, Send(fates, w1, SubnetList).0, v2, SubnetGet(again.value)); }
  }

  lemma LeaseAlike(fates: Fates, solo: Fates, w: World, v: World, mac: string)
    requires PrimaryDown(fates) && StandbyFates(fates, solo) && SameStandby(w, v)
    ensures GetLease(fates, w, mac).1 == GetLease(solo, v, mac).1
    ensures SameStandby(GetLease(fates, w, mac).0, GetLease(solo, v, mac).0)
  {
    var m := Canon(mac);
    SendAlike(fates, solo, w, v, LeaseByMac(m));
    SendAlike(fates, solo, Send(fates, w, LeaseByMac(m)).0, Send(solo, v, LeaseByMac(m)).0, ReservationById(m));
  }

  lemma ExistsAlike(fates: Fates, solo: Fates, w: World, v: World, mac: string, sid: int)
    requires PrimaryDown(fates) && StandbyFates(fates, solo) && SameStandby(w, v)
    ensures MacReservationExists(fates, w, mac, sid).1 == MacReservationExists(solo, v, mac, sid).1
    ensures SameStandby(MacReservationExists(fates, w, mac, sid).0, MacReservationExists(solo, v, mac, sid).0)
  {
    var m := Canon(mac);
    SendAlike(fates, solo, w, v, ReservationById(m));
    SendAlike(fates, solo, Send(fates, w, ReservationById(m)).0, Send(solo, v, ReservationById(m)).0, ReservationAll(sid));
  }

  lemma EnsureAlike(fates: Fates, solo: Fates, w: World, v: World, mac: string, sid: int, ip: string)
    requires PrimaryDown(fates) && StandbyFates(fates, solo) && SameStandby(w, v)
    ensures EnsureReservation(fates, w, mac, sid, ip).1 == EnsureReservation(solo, v, mac, sid, ip).1
    ensures SameStandby(EnsureReservation(fates, w, mac, sid, ip).0, EnsureReservation(solo, v, mac, sid, ip).0)
  {
    var m := Canon(mac);
    ExistsAlike(fates, solo, w, v, m, sid);
    SendAlike(fates, solo, MacReservationExists(fates, w, m, sid).0, MacReservationExists(solo, v, m, sid).0,
              ReservationAdd(Host(m, sid, TrimSpace(ip))));
  }

  // ---------- The loops ----------

  predicate SameProgress(p: Progress, q: Progress) {
    SameStandby(p.w, q.w) && p.ips == q.ips && p.sids == q.sids && p.errs == q.errs
  }

  lemma {:induction false} LoopAlike(fates: Fates, solo: Fates, w: World, v: World, macs: seq<string>, sid: int, prefix: string)
    requires PrimaryDown(fates) && StandbyFates(fates, solo) && SameStandby(w, v)
    ensures SameProgress(ReserveAll(fates, w, macs, sid, prefix), ReserveAll(solo, v, macs, sid, prefix))
  {
    if macs != [] {
      var n := |macs| - 1;
      LoopAlike(fates, solo, w, v, macs[..n], sid, prefix);
      TurnAlike(fates, solo, ReserveAll(fates, w, macs[..n], sid, prefix), ReserveAll(solo, v, macs[..n], sid, prefix),
                macs[n], sid, prefix);
    }
  }

  lemma TurnAlike(fates: Fates, solo: Fates, p: Progress, q: Progress, mac: string, sid: int, prefix: string)
    requires PrimaryDown(fates) && StandbyFates(fates, solo) && SameProgress(p, q)
    ensures SameProgress(Reserve(fates, p, mac, sid, prefix), Reserve(solo, q, mac, sid, prefix))
  {
    LeaseAlike(fates, solo, p.w, q.w, mac);
    var (v1, found) := GetLease(solo, q.w, mac);
    EnsureAlike(fates, solo, GetLease(fates, p.w, mac).0, v1, mac, SubnetFor(found, sid), KeepIp(prefix, found.ip));
  }

  lemma {:induction false} DeletionsAlike(fates: Fates, solo: Fates, w: World, v: World, macs: seq<string>, sid: int)
    requires PrimaryDown(fates) && StandbyFates(fates, solo) && SameStandby(w, v)
    ensures SameStandby(DeleteAll(fates, w, macs, sid), DeleteAll(solo, v, macs, sid))
  {
    if macs != [] {
      var n := |macs| - 1;
      DeletionsAlike(fates, solo, w, v, macs[..n], sid);
      SendAlike(fates, solo, DeleteAll(fates, w, macs[..n], sid), DeleteAll(solo, v, macs[..n], sid),
                ReservationDel(Canon(macs[n]), sid));
    }
  }

  // ---------- A whole reconcile ----------

  predicate SameSite(s: Site, t: Site) { SameStandby(s.w, t.w) && s.patches == t.patches }

  predicate SameRun(x: Run, y: Run) {
    && SameSite(x.site, y.site) && x.nc == y.nc && x.verdict == y.verdict && x.requeue == y.requeue
    && x.ips == y.ips && x.sids == y.sids
  }

  ghost predicate StandbyEnv(env: Env, solo: Env) {
    && PrimaryDown(env.fates) && StandbyFates(env.fates, solo.fates)
    && env.(fates := solo.fates) == solo
  }

  lemma UpdateAlike(env: Env, solo: Env, s: Site, t: Site, nc: Config, phase: Phase, state: State, message: Message, rows: seq<Row>)
    requires StandbyEnv(env, solo) && SameSite(s, t)
    ensures var x, y := UpdateStatus(env, s, nc, phase, state, message, rows), UpdateStatus(solo, t, nc, phase, state, message, rows);
      SameSite(x.0, y.0) && x.1 == y.1
  {
  }

  lemma ReportAlike(env: Env, solo: Env, s: Site, t: Site, nc: Config, c: Condition, phase: Phase, state: State,
                    message: Message, rows: seq<Row>)
    requires StandbyEnv(env, solo) && SameSite(s, t)
    ensures var x, y := Report(env, s, nc, c, phase, state, message, rows), Report(solo, t, nc, c, phase, state, message, rows);
      SameSite(x.0, y.0) && x.1 == y.1
  {
    var x, y := SetCondition(env, s, nc, c), SetCondition(solo, t, nc, c);
    UpdateAlike(env, solo, x.0, y.0, x.1, phase, state, message, rows);
  }

  lemma ConcludeAlike(env: Env, solo: Env, s: Site, t: Site, nc: Config, p: Progress, q: Progress, total: nat, rows: seq<Row>)
    requires StandbyEnv(env, solo) && SameSite(s, t) && SameProgress(p, q)
    ensures SameRun(Conclude(env, s, nc, p, total, rows), Conclude(solo, t, nc, q, total, rows))
  {
    if p.errs != [] {
      ReportAlike(env, solo, s, t, nc, ReadyIs(false, ReasonError, ReservationErrors(p.errs), nc),
                  Error, FailState, ReservationErrors(p.errs), rows);
    } else {
      ReportAlike(env, solo, s, t, nc, ReadyIs(true, ReasonConfigured, AllConfigured, nc),
                  Ready, Success, Summary(total, |p.ips|), rows);
    }
  }

  lemma ServeAlike(env: Env, solo: Env, s: Site, t: Site, nc: Config, sid: int, prefix: string, order: seq<string>)
    requires StandbyEnv(env, solo) && SameSite(s, t)
    ensures SameRun(Serve(env, s, nc, sid, prefix, order), Serve(solo, t, nc, sid, prefix, order))
  {
    ResolveAlike(env.fates, solo.fates, s.w, t.w, sid, prefix);
    var (w1, id, info) := ResolveInfo(env.fates, s.w, sid, prefix);
    var v1 := ResolveInfo(solo.fates, t.w, sid, prefix).0;
    LoopAlike(env.fates, solo.fates, w1, v1, order, id, prefix);
    var p, q := ReserveAll(env.fates, w1, order, id, prefix), ReserveAll(solo.fates, v1, order, id, prefix);
    ConcludeAlike(env, solo, s.(w := p.w), t.(w := q.w), nc, p, q, |order|,
                  RowsFor(nc.interfaces, p.ips, p.sids, prefix, info));
  }

  lemma ProvisionAlike(env: Env, solo: Env, s: Site, t: Site, nc: Config, prefix: string, pool: Pool, order: seq<string>)
    requires StandbyEnv(env, solo) && SameSite(s, t)
    ensures SameRun(Provision(env, s, nc, prefix, pool, order), Provision(solo, t, nc, prefix, pool, order))
  {
    var cfg := SubnetFrom(prefix, pool, env.classes);
    GetOrCreateAlike(env.fates, solo.fates, s.w, t.w, cfg);
    var (w1, subnet) := GetOrCreateSubnet(env.fates, s.w, cfg);
    var v1 := GetOrCreateSubnet(solo.fates, t.w, cfg).0;
    match subnet
    case Err(why) =>
      ReportAlike(env, solo, s.(w := w1), t.(w := v1), nc, ReadyIs(false, ReasonError, SubnetError(why), nc),
                  Error, FailState, SubnetError(why), []);
    case Ok(r) => ServeAlike(env, solo, s.(w := w1), t.(w := v1), nc, r.id, prefix, order);
  }

  lemma AnnounceAlike(env: Env, solo: Env, s: Site, t: Site, nc: Config)
    requires StandbyEnv(env, solo) && SameSite(s, t)
    ensures SameSite(Announce(env, s, nc).0, Announce(solo, t, nc).0) && Announce(env, s, nc).1 == Announce(solo, t, nc).1
  {
    ReportAlike(env, solo, s, t, nc, ReadyIs(false, ReasonReconciling, Working, nc), Reconciling, InProgress, Working, []);
  }

  lemma WorkAlike(env: Env, solo: Env, s: Site, t: Site, nc: Config, prefix: string, order: seq<string>)
    requires StandbyEnv(env, solo) && SameSite(s, t)
    ensures SameRun(Work(env, s, nc, prefix, order), Work(solo, t, nc, prefix, order))
  {
    AnnounceAlike(env, solo, s, t, nc);
    var (s1, nc1) := Announce(env, s, nc);
    var t1 := Announce(solo, t, nc).0;
    if prefix == "" {
      UpdateAlike(env, solo, s1, t1, nc1, Error, FailState, MissingPrefix, []);
    } else if order == [] {
      UpdateAlike(env, solo, s1, t1, nc1, Ready, Success, NothingToConfigure, []);
    } else if PoolFor(prefix).None? {
      UpdateAlike(env, solo, s1, t1, nc1, Error, FailState, InvalidCidr, []);
    } else {
      ProvisionAlike(env, solo, s1, t1, nc1, prefix, PoolFor(prefix).value, order);
    }
  }

  lemma RefuseAlike(env: Env, solo: Env, s: Site, t: Site, nc: Config, message: Message)
    requires StandbyEnv(env, solo) && SameSite(s, t)
    ensures SameRun(Refuse(env, s, nc, message), Refuse(solo, t, nc, message))
  {
    ReportAlike(env, solo, s, t, nc, ReadyIs(false, ReasonError, message, nc), Error, FailState, message, []);
  }

  lemma CleanupAlike(env: Env, solo: Env, s: Site, t: Site, nc: Config, nn: Option<Namespace>, order: seq<string>)
    requires StandbyEnv(env, solo) && SameSite(s, t)
    ensures SameRun(HandleDeletion(env, s, nc, nn, order), HandleDeletion(solo, t, nc, nn, order))
  {
    if nn.Some? {
      SendAlike(env.fates, solo.fates, s.w, t.w, SubnetList);
      var (w1, id) := GetSubnetId(env.fates, s.w, nn.value.prefix);
      var v1 := GetSubnetId(solo.fates, t.w, nn.value.prefix).0;
      if id.Ok? { DeletionsAlike(env.fates, solo.fates, w1, v1, order, id.value); }
    }
  }

  /**
   Failover is transparent. While the primary is silent a reconcile, deletions included, sends the same commands,
   leaves the same tables on the standby, patches the same status and comes to the same verdict, maps and requeue
   as one that has the standby for its only server, whatever happens to the commands there.
   */
  lemma DeadPrimaryIsTransparent(env: Env, solo: Env, s: Site, t: Site, nc: Config, nn: Option<Namespace>, order: seq<string>)
    requires StandbyEnv(env, solo) && SameSite(s, t)
    ensures SameRun(Reconcile(env, s, nc, nn, order), Reconcile(solo, t, nc, nn, order))
  {
    if nc.provider.ProviderOther? {
    } else if nc.deleting {
      CleanupAlike(env, solo, s, t, nc, nn, order);
    } else if ToBeServed(env, nc, nn) {
      WorkAlike(env, solo, s, t, nc, nn.value.prefix, order);
    } else {
      RefuseAlike(env, solo, s, t, nc, ProviderRefused);
      RefuseAlike(env, solo, s, t, nc, AllocationRefused);
    }
  }
}
