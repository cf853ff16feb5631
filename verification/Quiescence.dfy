/** A reconcile that went through leaves nothing to do for the next one. */
module Quiescence {
  import opened Text
  import opened Ipv4
  import opened KeaServer
  import opened Service
  import opened Macs
  import opened Reservations
  import opened Controller

  ghost predicate Reliable(env: Env) {
    Truthful(env.fates) && forall n :: env.patchOk(n)
  }

  function InfoAt(k: Kea, id: int): Result<SubnetInfo> { InfoFrom(TrueAnswer(k, SubnetGet(id)), id) }

  lemma TruthfulInfo(fates: Fates, w: World, id: int, prefix: string)
    requires Truthful(fates) && FirstId(w.primary.subnets, prefix) == Some(id)
    ensures InfoAt(w.primary, id).Ok?
    ensures var (w', id', info) := ResolveInfo(fates, w, id, prefix);
      OnlyReads(w, w') && id' == id && info == Some(InfoAt(w.primary, id).value)
  {
    FirstIdListed(w.primary.subnets, prefix);
    FirstWithIdListed(w.primary.subnets, id);
    TruthfulSend(fates, w, SubnetGet(id));
  }

  lemma EnumerationsAgree(a: seq<string>, b: seq<string>, macs: set<string>)
    requires Enumerates(a, macs) && Enumerates(b, macs)
    ensures Elements(a) == Elements(b) && |a| == |b|
  {
    assert Elements(a) == macs == Elements(b);
    ElementsSize(a);
    ElementsSize(b);
  }

  /** What an error-free reservation stage leaves behind. */
  lemma ServedState(env: Env, site: Site, nc: Config, sid: int, prefix: string, order: seq<string>)
    requires Reliable(env) && FirstId(site.w.primary.subnets, prefix) == Some(sid)
    requires CanonicalMacs(order) && Distinct(order)
    requires Serve(env, site, nc, sid, prefix, order).verdict == Configured
    ensures var run := Serve(env, site, nc, sid, prefix, order);
      var p := ReserveAll(env.fates, ResolveInfo(env.fates, site.w, sid, prefix).0, order, sid, prefix);
      && p.errs == [] && run.site.w == p.w
      && run.site.w.primary.subnets == site.w.primary.subnets
      && InfoAt(run.site.w.primary, sid) == InfoAt(site.w.primary, sid)
      && run.nc.(status := nc.status) == nc
  {
    TruthfulInfo(env.fates, site.w, sid, prefix);
    var w1 := ResolveInfo(env.fates, site.w, sid, prefix).0;
    LoopCharacterised(env.fates, w1, order, sid, prefix);
  }

  /** The reservation stage against a truthful server: details of the resolved subnet, then the loop, then the report. */
  lemma ServeIs(env: Env, site: Site, nc: Config, sid: int, prefix: string, order: seq<string>)
    requires Truthful(env.fates) && FirstId(site.w.primary.subnets, prefix) == Some(sid)
    ensures InfoAt(site.w.primary, sid).Ok?
    ensures var w1 := ResolveInfo(env.fates, site.w, sid, prefix).0;
      var p := ReserveAll(env.fates, w1, order, sid, prefix);
      && OnlyReads(site.w, w1)
      && Serve(env, site, nc, sid, prefix, order) ==
           Conclude(env, site.(w := p.w), nc, p, |order|,
                    RowsFor(nc.interfaces, p.ips, p.sids, prefix, Some(InfoAt(site.w.primary, sid).value)))
  {
    TruthfulInfo(env.fates, site.w, sid, prefix);
  }

  /** The reservation stage again, in any order: queries only, no patch, the same result. */
  lemma ServeAgain(env: Env, env2: Env, site: Site, site2: Site, nc: Config, sid: int, prefix: string,
                   a: seq<string>, b: seq<string>)
    requires Reliable(env) && Truthful(env2.fates) && FirstId(site.w.primary.subnets, prefix) == Some(sid)
    requires CanonicalMacs(a) && Distinct(a) && Distinct(b) && Elements(a) == Elements(b) && |a| == |b|
    requires Serve(env, site, nc, sid, prefix, a).verdict == Configured
    requires site2.w.primary == Serve(env, site, nc, sid, prefix, a).site.w.primary
    ensures var first := Serve(env, site, nc, sid, prefix, a);
      var again := Serve(env2, site2, first.nc, sid, prefix, b);
      && OnlyReads(site2.w, again.site.w) && again.site.patches == site2.patches && again.nc == first.nc
      && again.ips == first.ips && again.sids == first.sids && again.verdict == Configured && again.requeue == first.requeue
      && FindCondition(first.nc.status.conditions, ReadyKind).Some?
      && FindCondition(first.nc.status.conditions, ReadyKind).value.generation == nc.generation
      && first.nc.(status := nc.status) == nc
  {
    var first := Serve(env, site, nc, sid, prefix, a);
    ServedState(env, site, nc, sid, prefix, a);
    ServeIs(env, site, nc, sid, prefix, a);
    ServeIs(env2, site2, first.nc, sid, prefix, b);
    var w1, v1 := ResolveInfo(env.fates, site.w, sid, prefix).0, ResolveInfo(env2.fates, site2.w, sid, prefix).0;
    SecondLoopIsQuiet(env.fates, env2.fates, w1, a, v1, b, sid, prefix);
    var p, q := ReserveAll(env.fates, w1, a, sid, prefix), ReserveAll(env2.fates, v1, b, sid, prefix);
    ConcludeAgain(env, env2, site.(w := p.w), site2.(w := q.w), nc, p, q, |a|,
                  RowsFor(nc.interfaces, p.ips, p.sids, prefix, Some(InfoAt(site.w.primary, sid).value)));
  }

  /** The same findings reported again: no patch, the same object and requeue. */
  lemma ConcludeAgain(env: Env, env2: Env, site: Site, site2: Site, nc: Config, p: Progress, q: Progress, total: nat, rows: seq<Row>)
    requires (forall n :: env.patchOk(n)) && p.errs == [] && q.errs == [] && q.ips == p.ips && q.sids == p.sids
    ensures var first := Conclude(env, site, nc, p, total, rows);
      && Conclude(env2, site2, first.nc, q, total, rows) == Run(site2, first.nc, Configured, first.requeue, p.ips, p.sids)
      && first.ips == p.ips && first.sids == p.sids
      && FindCondition(first.nc.status.conditions, ReadyKind).Some?
      && FindCondition(first.nc.status.conditions, ReadyKind).value.generation == nc.generation
      && first.nc.(status := nc.status) == nc
  {
    ReportTwice(env, env2, site, nc, site2, ReadyIs(true, ReasonConfigured, AllConfigured, nc), Ready, Success,
                Summary(total, |p.ips|), rows);
  }

  /**
   Quiescence. After a reconcile that set Ready=True, with the object, its namespace and Kea left alone and Kea
   answering truthfully, the next reconcile, ranging over the MACs in any order, sends no write to Kea and no
   status patch, leaves the object as it is and computes the same address and subnet maps.
   */
  lemma NextReconcileIsQuiet(env: Env, env2: Env, site: Site, site2: Site, nc: Config, nn: Option<Namespace>,
                             a: seq<string>, b: seq<string>)
    requires Reliable(env) && Truthful(env2.fates) && env2.strict == env.strict
    requires Enumerates(a, MacSet(nc.interfaces)) && Enumerates(b, MacSet(nc.interfaces))
    requires Reconcile(env, site, nc, nn, a).verdict == Configured
    requires site2.w.primary == Reconcile(env, site, nc, nn, a).site.w.primary
    ensures var first := Reconcile(env, site, nc, nn, a);
      var next := Reconcile(env2, site2, first.nc, nn, b);
      && OnlyReads(site2.w, next.site.w) && next.site.patches == site2.patches && next.nc == first.nc
      && next.ips == first.ips && next.sids == first.sids
      && next.verdict == Configured && next.requeue == first.requeue
  {
    var first := Reconcile(env, site, nc, nn, a);
    var prefix := nn.value.prefix;
    var pool := PoolFor(prefix).value;
    var (site1, nc1) := Announce(env, site, nc);
    AnnouncePatches(env, site, nc);
    EnumerationsAgree(a, b, MacSet(nc.interfaces));
    CanonicalOrder(nc.interfaces, a);
    ProvisionAgain(env, env2, site1, site2, nc1, prefix, pool, a, b);
  }

  lemma ProvisionAgain(env: Env, env2: Env, site: Site, site2: Site, nc: Config, prefix: string, pool: Pool,
                       a: seq<string>, b: seq<string>)
    requires Reliable(env) && Truthful(env2.fates) && prefix != ""
    requires CanonicalMacs(a) && Distinct(a) && Distinct(b) && Elements(a) == Elements(b) && |a| == |b|
    requires Provision(env, site, nc, prefix, pool, a).verdict == Configured
    requires site2.w.primary == Provision(env, site, nc, prefix, pool, a).site.w.primary
    ensures var first := Provision(env, site, nc, prefix, pool, a);
      var again := Provision(env2, site2, first.nc, prefix, pool, b);
      && OnlyReads(site2.w, again.site.w) && again.site.patches == site2.patches && again.nc == first.nc
      && again.ips == first.ips && again.sids == first.sids && again.verdict == Configured && again.requeue == first.requeue
      && Announce(env2, site2, first.nc) == (site2, first.nc)
      && first.nc.(status := nc.status) == nc
  {
    var first := Provision(env, site, nc, prefix, pool, a);
    FirstProvision(env, site, nc, prefix, pool, a);
    var (w1, subnet) := GetOrCreateSubnet(env.fates, site.w, SubnetFrom(prefix, pool, env.classes));
    var sid := subnet.value.id;
    SecondProvision(env2, site2, first.nc, prefix, pool, b, sid);
    var v1 := GetOrCreateSubnet(env2.fates, site2.w, SubnetFrom(prefix, pool, env2.classes)).0;
    ServeAgain(env, env2, site.(w := w1), site2.(w := v1), nc, sid, prefix, a, b);
  }

  lemma FirstProvision(env: Env, site: Site, nc: Config, prefix: string, pool: Pool, order: seq<string>)
    requires Reliable(env) && prefix != "" && CanonicalMacs(order) && Distinct(order)
    requires Provision(env, site, nc, prefix, pool, order).verdict == Configured
    ensures var run := Provision(env, site, nc, prefix, pool, order);
      var (w1, subnet) := GetOrCreateSubnet(env.fates, site.w, SubnetFrom(prefix, pool, env.classes));
      && subnet.Ok? && FirstId(w1.primary.subnets, prefix) == Some(subnet.value.id)
      && run == Serve(env, site.(w := w1), nc, subnet.value.id, prefix, order)
      && FirstId(run.site.w.primary.subnets, prefix) == Some(subnet.value.id)
  {
    TruthfulGetOrCreate(env.fates, site.w, SubnetFrom(prefix, pool, env.classes));
    var (w1, subnet) := GetOrCreateSubnet(env.fates, site.w, SubnetFrom(prefix, pool, env.classes));
    ServedState(env, site.(w := w1), nc, subnet.value.id, prefix, order);
  }

  lemma SecondProvision(env: Env, site: Site, nc: Config, prefix: string, pool: Pool, order: seq<string>, sid: int)
    requires Truthful(env.fates) && prefix != "" && FirstId(site.w.primary.subnets, prefix) == Some(sid)
    ensures var w1 := GetOrCreateSubnet(env.fates, site.w, SubnetFrom(prefix, pool, env.classes)).0;
      && OnlyReads(site.w, w1)
      && Provision(env, site, nc, prefix, pool, order) == Serve(env, site.(w := w1), nc, sid, prefix, order)
  {
    TruthfulGetOrCreate(env.fates, site.w, SubnetFrom(prefix, pool, env.classes));
  }

  /**
   With a truthful server a claimed object with a usable prefix is configured exactly when the hosts wanted for
   its MACs can stand together; the condition is on the table before the loop and mentions no order.
   */
  lemma ConfiguredExactly(env: Env, site: Site, nc: Config, nn: Option<Namespace>, order: seq<string>)
    requires Truthful(env.fates) && Enumerates(order, MacSet(nc.interfaces)) && order != []
    requires ToBeServed(env, nc, nn) && nn.value.prefix != "" && PoolFor(nn.value.prefix).Some?
    ensures var (w1, subnet) :=
        GetOrCreateSubnet(env.fates, site.w, SubnetFrom(nn.value.prefix, PoolFor(nn.value.prefix).value, env.classes));
      && subnet.Ok?
      && (Reconcile(env, site, nc, nn, order).verdict == Configured <==>
            Compatible(w1.primary, MacSet(nc.interfaces), subnet.value.id, nn.value.prefix))
  {
    var prefix := nn.value.prefix;
    var (site1, nc1) := Announce(env, site, nc);
    AnnouncePatches(env, site, nc);
    var cfg := SubnetFrom(prefix, PoolFor(prefix).value, env.classes);
    TruthfulGetOrCreate(env.fates, site.w, cfg);
    var (w1, subnet) := GetOrCreateSubnet(env.fates, site.w, cfg);
    ServedExactly(env, site1.(w := w1), nc1, subnet.value.id, prefix, order);
  }

  lemma ServedExactly(env: Env, site: Site, nc: Config, sid: int, prefix: string, order: seq<string>)
    requires Truthful(env.fates) && Enumerates(order, MacSet(nc.interfaces)) && FirstId(site.w.primary.subnets, prefix) == Some(sid)
    ensures Serve(env, site, nc, sid, prefix, order).verdict == Configured <==>
      Compatible(site.w.primary, MacSet(nc.interfaces), sid, prefix)
  {
    TruthfulInfo(env.fates, site.w, sid, prefix);
    var w1 := ResolveInfo(env.fates, site.w, sid, prefix).0;
    CanonicalOrder(nc.interfaces, order);
    LoopCharacterised(env.fates, w1, order, sid, prefix);
    assert Elements(order) == MacSet(nc.interfaces);
  }

  /**
   Order independence of a whole reconcile: if it is configured with one order of the MACs, it is with every
   order, with the same patches, object, maps and requeue, and the same subnets and hosts in Kea.
   */
  lemma AnyOrderSameOutcome(env: Env, site: Site, nc: Config, nn: Option<Namespace>, a: seq<string>, b: seq<string>)
    requires Truthful(env.fates) && Enumerates(a, MacSet(nc.interfaces)) && Enumerates(b, MacSet(nc.interfaces))
    requires Reconcile(env, site, nc, nn, a).verdict == Configured
    ensures var x, y := Reconcile(env, site, nc, nn, a), Reconcile(env, site, nc, nn, b);
      && y.verdict == Configured && y.nc == x.nc && y.site.patches == x.site.patches
      && y.ips == x.ips && y.sids == x.sids && y.requeue == x.requeue
      && multiset(y.site.w.primary.hosts) == multiset(x.site.w.primary.hosts)
      && y.site.w.primary.subnets == x.site.w.primary.subnets
  {
    var prefix := nn.value.prefix;
    var (site1, nc1) := Announce(env, site, nc);
    AnnouncePatches(env, site, nc);
    EnumerationsAgree(a, b, MacSet(nc.interfaces));
    CanonicalOrder(nc.interfaces, a);
    assert b != [];
    var cfg := SubnetFrom(prefix, PoolFor(prefix).value, env.classes);
    TruthfulGetOrCreate(env.fates, site1.w, cfg);
    var (w1, subnet) := GetOrCreateSubnet(env.fates, site1.w, cfg);
    ServeAnyOrder(env, site1.(w := w1), nc1, subnet.value.id, prefix, a, b);
  }

  lemma ServeAnyOrder(env: Env, site: Site, nc: Config, sid: int, prefix: string, a: seq<string>, b: seq<string>)
    requires Truthful(env.fates) && FirstId(site.w.primary.subnets, prefix) == Some(sid)
    requires CanonicalMacs(a) && Distinct(a) && Distinct(b) && Elements(a) == Elements(b) && |a| == |b|
    requires Serve(env, site, nc, sid, prefix, a).verdict == Configured
    ensures var x, y := Serve(env, site, nc, sid, prefix, a), Serve(env, site, nc, sid, prefix, b);
      && y.verdict == Configured && y.nc == x.nc && y.site.patches == x.site.patches
      && y.ips == x.ips && y.sids == x.sids && y.requeue == x.requeue
      && multiset(y.site.w.primary.hosts) == multiset(x.site.w.primary.hosts)
      && y.site.w.primary.subnets == x.site.w.primary.subnets
  {
    TruthfulInfo(env.fates, site.w, sid, prefix);
    var (w1, id, info) := ResolveInfo(env.fates, site.w, sid, prefix);
    OrderIndependent(env.fates, w1, a, b, sid, prefix);
    var p, q := ReserveAll(env.fates, w1, a, sid, prefix), ReserveAll(env.fates, w1, b, sid, prefix);
    assert q.w.primary.subnets == q.w.primary.(hosts := []).subnets == p.w.primary.(hosts := []).subnets;
    SamePatches(env, site.(w := p.w), site.(w := q.w), nc, ReadyIs(true, ReasonConfigured, AllConfigured, nc),
                Summary(|a|, |p.ips|), RowsFor(nc.interfaces, p.ips, p.sids, prefix, info));
  }

  lemma SamePatches(env: Env, s1: Site, s2: Site, nc: Config, c: Condition, message: Message, rows: seq<Row>)
    requires s1.patches == s2.patches
    ensures var (x, n1) := Report(env, s1, nc, c, Ready, Success, message, rows);
      var (y, n2) := Report(env, s2, nc, c, Ready, Success, message, rows);
      n1 == n2 && x.patches == y.patches && x.w == s1.w && y.w == s2.w
  {
  }

  /**
   Convergence. An object of ours with a usable prefix and compatible MACs, not yet claimed, is claimed by its
   first reconcile, configured by its second and left alone by its third.
   */
  lemma SettlesInTwo(env: Env, site: Site, nc: Config, nn: Option<Namespace>, a: seq<string>, b: seq<string>, c: seq<string>)
    requires Reliable(env) && env.finalizerOk && a != []
    requires Enumerates(a, MacSet(nc.interfaces)) && Enumerates(b, MacSet(nc.interfaces)) && Enumerates(c, MacSet(nc.interfaces))
    requires !nc.finalizer && ToBeServed(env, nc.(finalizer := true), nn)
    requires nn.value.prefix != "" && PoolFor(nn.value.prefix).Some?
    requires var (w1, subnet) :=
        GetOrCreateSubnet(env.fates, site.w, SubnetFrom(nn.value.prefix, PoolFor(nn.value.prefix).value, env.classes));
      subnet.Ok? ==> Compatible(w1.primary, MacSet(nc.interfaces), subnet.value.id, nn.value.prefix)
    ensures var first := Reconcile(env, site, nc, nn, a);
      var second := Reconcile(env, first.site, first.nc, nn, b);
      var third := Reconcile(env, second.site, second.nc, nn, c);
      && first.verdict == Claimed && first.site == site && first.nc == nc.(finalizer := true)
      && second.verdict == Configured
      && OnlyReads(second.site.w, third.site.w) && third.site.patches == second.site.patches && third.nc == second.nc
      && third.ips == second.ips && third.sids == second.sids
  {
    var claimed := nc.(finalizer := true);
    assert Reconcile(env, site, nc, nn, a) == Stop((site, claimed), Claimed, Never);
    EnumerationsAgree(a, b, MacSet(nc.interfaces));
    ConfiguredExactly(env, site, claimed, nn, b);
    var second := Reconcile(env, site, claimed, nn, b);
    NextReconcileIsQuiet(env, env, site, second.site, claimed, nn, b, c);
  }

  // ---------- What the rows say about the subnet ----------

  /** Every row shows this gateway and these name servers. */
  predicate RowsRoute(rows: seq<Row>, info: SubnetInfo) {
    forall i :: 0 <= i < |rows| ==> rows[i].gateway == info.gateway && rows[i].dns == info.dns
  }

  lemma ServedRows(env: Env, site: Site, nc: Config, sid: int, prefix: string, order: seq<string>)
    requires Reliable(env) && FirstId(site.w.primary.subnets, prefix) == Some(sid) && nc.interfaces != []
    requires Serve(env, site, nc, sid, prefix, order).verdict == Configured
    ensures InfoAt(site.w.primary, sid).Ok?
    ensures var rows := Serve(env, site, nc, sid, prefix, order).nc.status.rows;
      |rows| == |nc.interfaces| && RowsRoute(rows, InfoAt(site.w.primary, sid).value)
  {
    ServeIs(env, site, nc, sid, prefix, order);
    var p := ReserveAll(env.fates, ResolveInfo(env.fates, site.w, sid, prefix).0, order, sid, prefix);
    var info := Some(InfoAt(site.w.primary, sid).value);
    var rows := RowsFor(nc.interfaces, p.ips, p.sids, prefix, info);
    RowsAt(nc.interfaces, p.ips, p.sids, prefix, info);
    ReportTwice(env, env, site.(w := p.w), nc, site, ReadyIs(true, ReasonConfigured, AllConfigured, nc), Ready, Success,
                Summary(|order|, |p.ips|), rows);
  }

  /**
   The rows of a configured object show the gateway and the name servers of its prefix's subnet as Kea holds it; if
   the reconcile made that subnet, the gateway is the one computed from the prefix and there are no name servers.
   */
  lemma RowsShowSubnet(env: Env, site: Site, nc: Config, nn: Option<Namespace>, order: seq<string>)
    requires Reliable(env) && Enumerates(order, MacSet(nc.interfaces))
    requires Reconcile(env, site, nc, nn, order).verdict == Configured
    ensures var run, prefix := Reconcile(env, site, nc, nn, order), nn.value.prefix;
      var subnets := run.site.w.primary.subnets;
      && FirstId(subnets, prefix).Some? && InfoAt(run.site.w.primary, FirstId(subnets, prefix).value).Ok?
      && var info := InfoAt(run.site.w.primary, FirstId(subnets, prefix).value).value;
         && |run.nc.status.rows| == |nc.interfaces| && RowsRoute(run.nc.status.rows, info)
         && (FirstId(site.w.primary.subnets, prefix).None? ==>
               PoolFor(prefix).Some? && info.gateway == FormatIp(PoolFor(prefix).value.gateway) && info.dns == [])
  {
    var prefix := nn.value.prefix;
    var pool := PoolFor(prefix).value;
    var (site1, nc1) := Announce(env, site, nc);
    AnnouncePatches(env, site, nc);
    CanonicalOrder(nc.interfaces, order);
    assert order[0] in MacSet(nc.interfaces);
    FirstProvision(env, site1, nc1, prefix, pool, order);
    var cfg := SubnetFrom(prefix, pool, env.classes);
    var (w1, subnet) := GetOrCreateSubnet(env.fates, site1.w, cfg);
    ServedRows(env, site1.(w := w1), nc1, subnet.value.id, prefix, order);
    ServedState(env, site1.(w := w1), nc1, subnet.value.id, prefix, order);
    if FirstId(site.w.primary.subnets, prefix).None? { NewSubnetInfo(env.fates, site1.w, prefix, pool, env.classes); }
  }

  lemma NewSubnetInfo(fates: Fates, w: World, prefix: string, pool: Pool, classes: seq<string>)
    requires Truthful(fates) && prefix != "" && FirstId(w.primary.subnets, prefix).None?
    ensures var (w1, subnet) := GetOrCreateSubnet(fates, w, SubnetFrom(prefix, pool, classes));
      && subnet.Ok? && InfoAt(w1.primary, subnet.value.id).Ok?
      && var info := InfoAt(w1.primary, subnet.value.id).value;
         info.gateway == FormatIp(pool.gateway) && info.dns == []
  {
    var cfg := SubnetFrom(prefix, pool, classes);
    TruthfulGetOrCreate(fates, w, cfg);
    var (w1, subnet) := GetOrCreateSubnet(fates, w, cfg);
    var id := subnet.value.id;
    NewIdIsNew(fates, w, cfg);
    FirstWithIdListed(w.primary.subnets, id);
    FirstWithIdAppend(w.primary.subnets, Document(cfg, id), id);
    OptionRoundTrip(w1.primary, cfg, id);
  }

  /** An id made up by get-or-create is above all ids in use. */
  lemma NewIdIsNew(fates: Fates, w: World, cfg: SubnetConfig)
    requires Truthful(fates) && cfg.cidr != "" && cfg.id <= 0 && FirstId(w.primary.subnets, cfg.cidr).None?
    ensures var r := GetOrCreateSubnet(fates, w, cfg).1;
      r.Ok? && forall i :: 0 <= i < |w.primary.subnets| ==> w.primary.subnets[i].id < r.value.id
  {
    TruthfulGetOrCreate(fates, w, cfg);
    TruthfulSend(fates, w, SubnetList);
    var w1 := Send(fates, w, SubnetList).0;
    TruthfulSend(fates, w1, SubnetList);
    NextIdIsFree(w.primary.subnets);
  }
}
