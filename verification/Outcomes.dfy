/** What a reconcile tells the user and when it comes back, for every way it can end. */
module Outcomes {
  import opened Text
  import opened Ipv4
  import opened KeaServer
  import opened Service
  import opened Macs
  import opened Reservations
  import opened Controller

  ghost predicate PatchesTaken(env: Env) { forall n :: env.patchOk(n) }

  // ---------- What an object shows ----------

  predicate StatusIs(nc: Config, phase: Phase, state: State, message: Message) {
    nc.status.phase == phase && nc.status.state == state && nc.status.message == message && nc.status.created
  }

  /** The Ready condition, as observed at the given generation. */
  predicate ReadyShows(nc: Config, truth: bool, reason: Reason, message: Message, generation: int) {
    FindCondition(nc.status.conditions, ReadyKind) == Some(Condition(ReadyKind, truth, reason, message, generation))
  }

  predicate Observed(nc: Config) {
    var ready := FindCondition(nc.status.conditions, ReadyKind);
    ready.Some? && ready.value.generation == nc.generation
  }

  /** One row per interface, in order, showing the reservation and the address of its MAC. */
  predicate RowsShow(rows: seq<Row>, interfaces: seq<Interface>, ips: map<string, string>, sids: map<string, int>, prefix: string) {
    |rows| == |interfaces| && forall i :: 0 <= i < |rows| ==> RowShows(rows[i], interfaces[i], ips, sids, prefix)
  }

  predicate RowShows(row: Row, i: Interface, ips: map<string, string>, sids: map<string, int>, prefix: string) {
    var m := Normal(i.mac);
    && row.name == i.name && row.mac == i.mac && row.vlan == i.vlan && row.subnet == prefix
    && row.reserved == (m in sids)
    && row.ips == if m in ips then [ips[m]] else []
  }

  /**
   The report that goes with each verdict on an object nc. Where the code reports without a condition (missing
   prefix, no MACs, bad CIDR) the Ready condition is the one from before if it was observed at this generation.
   */
  ghost predicate Reported(nc: Config, prefix: string, run: Run) {
    var macs, m := MacSet(nc.interfaces), run.nc.status.message;
    match run.verdict
    case Configured =>
      && ReadyShows(run.nc, true, ReasonConfigured, AllConfigured, nc.generation)
      && StatusIs(run.nc, Ready, Success, Summary(|macs|, |run.ips|))
      && run.sids.Keys == macs && RowsShow(run.nc.status.rows, nc.interfaces, run.ips, run.sids, prefix)
    case Failing =>
      && m.ReservationErrors? && Failed(m.errs) == macs - run.sids.Keys != {} && FailuresDistinct(m.errs)
      && ReadyShows(run.nc, false, ReasonError, m, nc.generation) && StatusIs(run.nc, Error, FailState, m)
      && run.sids.Keys <= macs && RowsShow(run.nc.status.rows, nc.interfaces, run.ips, run.sids, prefix)
    case NoSubnet =>
      && m.SubnetError? && ReadyShows(run.nc, false, ReasonError, m, nc.generation) && StatusIs(run.nc, Error, FailState, m)
      && run.nc.status.rows == nc.status.rows
    case PrefixMissing => StatusIs(run.nc, Error, FailState, MissingPrefix) && Plain(nc, run.nc)
    case BadCidr => StatusIs(run.nc, Error, FailState, InvalidCidr) && Plain(nc, run.nc)
    case NoMacs => StatusIs(run.nc, Ready, Success, NothingToConfigure) && Plain(nc, run.nc)
    case _ => false
  }

  /** Rows as before, and a Ready condition observed at this generation: the old one, or "reconciling". */
  predicate Plain(before: Config, after: Config) {
    && after.status.rows == before.status.rows
    && (if Observed(before)
        then FindCondition(after.status.conditions, ReadyKind) == FindCondition(before.status.conditions, ReadyKind)
        else ReadyShows(after, false, ReasonReconciling, Working, before.generation))
  }

  // ---------- Stage by stage ----------

  lemma ReportShows(env: Env, site: Site, nc: Config, c: Condition, phase: Phase, state: State, message: Message, rows: seq<Row>)
    requires PatchesTaken(env)
    ensures var (site1, nc1) := Report(env, site, nc, c, phase, state, message, rows);
      && StatusIs(nc1, phase, state, message) && FindCondition(nc1.status.conditions, c.kind) == Some(c)
      && nc1.status.rows == (if rows != [] then rows else nc.status.rows)
      && nc1.(status := nc.status) == nc
  {
    PutThenFind(nc.status.conditions, c);
  }

  lemma RowsForShow(interfaces: seq<Interface>, ips: map<string, string>, sids: map<string, int>, prefix: string, info: Option<SubnetInfo>)
    ensures RowsShow(RowsFor(interfaces, ips, sids, prefix, info), interfaces, ips, sids, prefix)
  {
    RowsAt(interfaces, ips, sids, prefix, info);
    forall i | 0 <= i < |interfaces|
      ensures RowShows(RowFor(interfaces[i], ips, sids, prefix, info), interfaces[i], ips, sids, prefix)
    {
      NormalisationsAgree(interfaces[i].mac);
    }
  }

  lemma ServeReports(env: Env, site: Site, nc: Config, sid: int, prefix: string, order: seq<string>)
    requires PatchesTaken(env) && Enumerates(order, MacSet(nc.interfaces)) && order != []
    ensures var run := Serve(env, site, nc, sid, prefix, order);
      && Reported(nc, prefix, run) && run.nc.(status := nc.status) == nc
      && (run.verdict == Configured <==> run.sids.Keys == MacSet(nc.interfaces))
  {
    var (w1, id, info) := ResolveInfo(env.fates, site.w, sid, prefix);
    var p := ReserveAll(env.fates, w1, order, id, prefix);
    var rows := RowsFor(nc.interfaces, p.ips, p.sids, prefix, info);
    assert order[0] in MacSet(nc.interfaces);
    RowsForShow(nc.interfaces, p.ips, p.sids, prefix, info);
    Partition(env.fates, w1, order, id, prefix);
    assert Elements(order) == MacSet(nc.interfaces);
    ElementsSize(order);
    assert p.errs != [] ==> p.errs[0].0 in Failed(p.errs);
    ConcludeReports(env, site.(w := p.w), nc, p, |order|, rows, prefix);
  }

  lemma ConcludeReports(env: Env, site: Site, nc: Config, p: Progress, total: nat, rows: seq<Row>, prefix: string)
    requires PatchesTaken(env) && rows != [] && total == |MacSet(nc.interfaces)|
    requires RowsShow(rows, nc.interfaces, p.ips, p.sids, prefix) && FailuresDistinct(p.errs)
    requires p.sids.Keys !! Failed(p.errs) && p.sids.Keys + Failed(p.errs) == MacSet(nc.interfaces)
    requires p.errs == [] <==> Failed(p.errs) == {}
    ensures var run := Conclude(env, site, nc, p, total, rows);
      && Reported(nc, prefix, run) && run.nc.(status := nc.status) == nc
      && (run.verdict == Configured <==> run.sids.Keys == MacSet(nc.interfaces))
  {
    if p.errs != [] {
      ReportShows(env, site, nc, ReadyIs(false, ReasonError, ReservationErrors(p.errs), nc),
                  Error, FailState, ReservationErrors(p.errs), rows);
      assert MacSet(nc.interfaces) - p.sids.Keys == Failed(p.errs);
    } else {
      ReportShows(env, site, nc, ReadyIs(true, ReasonConfigured, AllConfigured, nc), Ready, Success, Summary(total, |p.ips|), rows);
    }
  }

  lemma ProvisionReports(env: Env, site: Site, nc: Config, prefix: string, pool: Pool, order: seq<string>)
    requires PatchesTaken(env) && Enumerates(order, MacSet(nc.interfaces)) && order != []
    ensures var run := Provision(env, site, nc, prefix, pool, order);
      Reported(nc, prefix, run) && run.nc.(status := nc.status) == nc
  {
    var (w1, subnet) := GetOrCreateSubnet(env.fates, site.w, SubnetFrom(prefix, pool, env.classes));
    match subnet
    case Err(why) =>
      ReportShows(env, site.(w := w1), nc, ReadyIs(false, ReasonError, SubnetError(why), nc), Error, FailState, SubnetError(why), []);
    case Ok(r) => ServeReports(env, site.(w := w1), nc, r.id, prefix, order);
  }

  lemma AnnounceShows(env: Env, site: Site, nc: Config)
    requires PatchesTaken(env)
    ensures var (site1, nc1) := Announce(env, site, nc);
      nc1.(status := nc.status) == nc && Plain(nc, nc1) && Observed(nc1)
  {
    ReportShows(env, site, nc, ReadyIs(false, ReasonReconciling, Working, nc), Reconciling, InProgress, Working, []);
  }

  lemma UpdateShows(env: Env, site: Site, nc: Config, phase: Phase, state: State, message: Message)
    requires PatchesTaken(env)
    ensures var nc1 := UpdateStatus(env, site, nc, phase, state, message, []).1;
      && StatusIs(nc1, phase, state, message) && nc1.(status := nc.status) == nc
      && nc1.status.rows == nc.status.rows && nc1.status.conditions == nc.status.conditions
  {
  }

  lemma WorkReports(env: Env, site: Site, nc: Config, prefix: string, order: seq<string>)
    requires PatchesTaken(env) && Enumerates(order, MacSet(nc.interfaces))
    ensures var run := Work(env, site, nc, prefix, order);
      Reported(nc, prefix, run) && run.nc.(status := nc.status) == nc
  {
    AnnounceShows(env, site, nc);
    var (site1, nc1) := Announce(env, site, nc);
    if prefix == "" {
      UpdateShows(env, site1, nc1, Error, FailState, MissingPrefix);
    } else if order == [] {
      UpdateShows(env, site1, nc1, Ready, Success, NothingToConfigure);
    } else if PoolFor(prefix).None? {
      UpdateShows(env, site1, nc1, Error, FailState, InvalidCidr);
    } else {
      ProvisionReports(env, site1, nc1, prefix, PoolFor(prefix).value, order);
    }
  }

  // ---------- Every way a reconcile can end ----------

  /** Of no other provider, and not being deleted. */
  predicate Considered(nc: Config) { !nc.provider.ProviderOther? && !nc.deleting }

  predicate StrictlyRefused(env: Env, nc: Config, nn: Namespace) {
    env.strict && (nc.provider.ProviderUnset? || nn.allocation.AllocationUnset?)
  }

  /** No pool can be computed: not an IPv4 prefix, or too small and not saved by a byte that wraps. */
  predicate NoPool(prefix: string) {
    var net := ParseNetwork(prefix);
    net.None? || (net.value.bits > 29 && !WrapsThrough(net.value))
  }

  lemma PoolMissing(prefix: string)
    ensures PoolFor(prefix).None? <==> NoPool(prefix)
  {
    if ParseNetwork(prefix).Some? { PoolAcceptance(ParseNetwork(prefix).value); }
  }

  /** Which objects are skipped, deleted, refused or claimed, in terms of what a user can see; all others are served. */
  lemma TriageExactly(env: Env, site: Site, nc: Config, nn: Option<Namespace>, order: seq<string>)
    ensures var v := Reconcile(env, site, nc, nn, order).verdict;
      && (v == NotOurs <==> nc.provider.ProviderOther?)
      && (v == Deleted <==> nc.deleting && !nc.provider.ProviderOther?)
      && (v == NoNamespace <==> Considered(nc) && nn.None?)
      && (v == OtherType <==> Considered(nc) && nn.Some? && nn.value.allocation.AllocationOther?)
      && (v == Refused <==> Considered(nc) && nn.Some? && !nn.value.allocation.AllocationOther? && StrictlyRefused(env, nc, nn.value))
      && (v == Claimed <==> !nc.finalizer && ToBeServed(env, nc.(finalizer := true), nn))
      && (v in {PrefixMissing, NoMacs, BadCidr, NoSubnet, Failing, Configured} <==> ToBeServed(env, nc, nn))
  {
    if ToBeServed(env, nc, nn) { WorkRequeue(env, site, nc, nn.value.prefix, order); }
  }

  /** What becomes of a served object; only the last three depend on Kea. */
  lemma ServedVerdictExactly(env: Env, site: Site, nc: Config, nn: Option<Namespace>, order: seq<string>)
    requires Enumerates(order, MacSet(nc.interfaces)) && ToBeServed(env, nc, nn)
    ensures var v, none, prefix := Reconcile(env, site, nc, nn, order).verdict, MacSet(nc.interfaces) == {}, nn.value.prefix;
      && (v == PrefixMissing <==> prefix == "")
      && (v == NoMacs <==> prefix != "" && none)
      && (v == BadCidr <==> prefix != "" && !none && NoPool(prefix))
      && (v in {NoSubnet, Failing, Configured} <==> prefix != "" && !none && !NoPool(prefix))
  {
    WorkVerdicts(env, site, nc, nn.value.prefix, order);
  }

  lemma WorkVerdicts(env: Env, site: Site, nc: Config, prefix: string, order: seq<string>)
    requires Enumerates(order, MacSet(nc.interfaces))
    ensures var v, none := Work(env, site, nc, prefix, order).verdict, MacSet(nc.interfaces) == {};
      && (v == PrefixMissing <==> prefix == "")
      && (v == NoMacs <==> prefix != "" && none)
      && (v == BadCidr <==> prefix != "" && !none && NoPool(prefix))
      && (v in {NoSubnet, Failing, Configured} <==> prefix != "" && !none && !NoPool(prefix))
  {
    assert order != [] ==> order[0] in MacSet(nc.interfaces);
    assert order == [] <==> MacSet(nc.interfaces) == {};
    PoolMissing(prefix);
    var (site1, nc1) := Announce(env, site, nc);
    if PoolFor(prefix).Some? { ProvisionVerdicts(env, site1, nc1, prefix, PoolFor(prefix).value, order); }
  }

  lemma ProvisionVerdicts(env: Env, site: Site, nc: Config, prefix: string, pool: Pool, order: seq<string>)
    ensures Provision(env, site, nc, prefix, pool, order).verdict in {NoSubnet, Failing, Configured}
  {
  }

  /**
   With patches taken, every reconcile reports what it came to: skipped objects are left alone, refusals and failures
   end with Ready false at the current generation, phase Error and a message naming the cause (for failed
   reservations exactly the MACs without one), success with Ready true; the rows follow the maps.
   */
  lemma EveryVerdictIsReported(env: Env, site: Site, nc: Config, nn: Option<Namespace>, order: seq<string>)
    requires PatchesTaken(env) && Enumerates(order, MacSet(nc.interfaces))
    ensures var run := Reconcile(env, site, nc, nn, order);
      match run.verdict
      case NotOurs => run.nc == nc && run.site == site
      case NoNamespace => run.nc == nc && run.site == site
      case OtherType => run.nc == nc && run.site == site
      case Claimed => run.nc == nc.(finalizer := env.finalizerOk) && run.site == site
      case Deleted => run.nc == nc.(finalizer := nc.finalizer && !env.finalizerOk) && run.site.patches == site.patches
      case Refused =>
        var m := if nc.provider.ProviderUnset? then ProviderRefused else AllocationRefused;
        && ReadyShows(run.nc, false, ReasonError, m, nc.generation) && StatusIs(run.nc, Error, FailState, m)
        && run.nc.(status := nc.status) == nc && run.nc.status.rows == nc.status.rows && run.site.w == site.w
      case _ => nn.Some? && Reported(nc, nn.value.prefix, run) && run.nc.(status := nc.status) == nc
  {
    TriageExactly(env, site, nc, nn, order);
    if ToBeServed(env, nc, nn) {
      WorkReports(env, site, nc, nn.value.prefix, order);
    } else {
      RefusalReports(env, site, nc, ProviderRefused);
      RefusalReports(env, site, nc, AllocationRefused);
    }
  }

  lemma RefusalReports(env: Env, site: Site, nc: Config, m: Message)
    requires PatchesTaken(env)
    ensures var run := Refuse(env, site, nc, m);
      && ReadyShows(run.nc, false, ReasonError, m, nc.generation) && StatusIs(run.nc, Error, FailState, m)
      && run.nc.(status := nc.status) == nc && run.nc.status.rows == nc.status.rows && run.site.w == site.w
  {
    ReportShows(env, site, nc, ReadyIs(false, ReasonError, m, nc), Error, FailState, m, []);
    ReportPatches(env, site, nc, ReadyIs(false, ReasonError, m, nc), Error, FailState, m, []);
  }

  /** A reconcile comes back soon exactly for what a retry may mend, whatever happens to its patches. */
  lemma RequeueExactly(env: Env, site: Site, nc: Config, nn: Option<Namespace>, order: seq<string>)
    requires Enumerates(order, MacSet(nc.interfaces))
    ensures var run := Reconcile(env, site, nc, nn, order);
      && (run.requeue == Soon <==>
            || run.verdict in {PrefixMissing, BadCidr, NoSubnet, Failing}
            || (run.verdict in {Claimed, Deleted} && !env.finalizerOk)
            || (run.verdict == Configured && exists m :: m in MacSet(nc.interfaces) && m !in run.ips))
      && (run.requeue == Never <==>
            || run.verdict in {NotOurs, NoNamespace, OtherType, Refused, NoMacs}
            || (run.verdict in {Claimed, Deleted} && env.finalizerOk))
  {
    LongRequeueMeansSettled(env, site, nc, nn, order);
    if ToBeServed(env, nc, nn) { WorkRequeue(env, site, nc, nn.value.prefix, order); }
  }

  lemma WorkRequeue(env: Env, site: Site, nc: Config, prefix: string, order: seq<string>)
    ensures var run := Work(env, site, nc, prefix, order);
      && (run.verdict in {PrefixMissing, BadCidr, NoSubnet, Failing} ==> run.requeue == Soon)
      && (run.verdict == NoMacs <==> run.requeue == Never)
      && run.verdict in {PrefixMissing, BadCidr, NoSubnet, Failing, NoMacs, Configured}
  {
    var (site1, nc1) := Announce(env, site, nc);
    if PoolFor(prefix).Some? { ProvisionRequeue(env, site1, nc1, prefix, PoolFor(prefix).value, order); }
  }

  lemma ProvisionRequeue(env: Env, site: Site, nc: Config, prefix: string, pool: Pool, order: seq<string>)
    ensures var run := Provision(env, site, nc, prefix, pool, order);
      && (run.verdict in {NoSubnet, Failing} ==> run.requeue == Soon) && run.requeue != Never
      && run.verdict in {NoSubnet, Failing, Configured}
  {
  }

  // ---------- Phase and condition ----------

  predicate SaysReady(nc: Config) {
    var ready := FindCondition(nc.status.conditions, ReadyKind);
    ready.Some? && ready.value.truth
  }

  /**
   The phase and the Ready condition of a served object agree, but for two holes, both where the code writes the
   phase alone: a prefix that goes missing or bad leaves an old Ready=True beside phase Error, and an object without
   MACs is in phase Ready although its condition was never made true.
   */
  lemma PhaseAgainstCondition(env: Env, site: Site, nc: Config, nn: Option<Namespace>, order: seq<string>)
    requires PatchesTaken(env) && Enumerates(order, MacSet(nc.interfaces)) && ToBeServed(env, nc, nn)
    ensures var run := Reconcile(env, site, nc, nn, order);
      (run.nc.status.phase == Ready <==> SaysReady(run.nc)) <==>
        && (Observed(nc) && SaysReady(nc) ==> run.verdict !in {PrefixMissing, BadCidr})
        && (run.verdict == NoMacs ==> Observed(nc) && SaysReady(nc))
  {
    TriageExactly(env, site, nc, nn, order);
    WorkReports(env, site, nc, nn.value.prefix, order);
  }

  // ---------- A new generation is announced ----------

  lemma ServeGrows(env: Env, site: Site, nc: Config, sid: int, prefix: string, order: seq<string>)
    ensures site.patches <= Serve(env, site, nc, sid, prefix, order).site.patches
  {
  }

  lemma ProvisionGrows(env: Env, site: Site, nc: Config, prefix: string, pool: Pool, order: seq<string>)
    ensures site.patches <= Provision(env, site, nc, prefix, pool, order).site.patches
  {
    var (w1, subnet) := GetOrCreateSubnet(env.fates, site.w, SubnetFrom(prefix, pool, env.classes));
    if subnet.Ok? { ServeGrows(env, site.(w := w1), nc, subnet.value.id, prefix, order); }
  }

  lemma WorkGrows(env: Env, site: Site, nc: Config, prefix: string, order: seq<string>)
    ensures Announce(env, site, nc).0.patches <= Work(env, site, nc, prefix, order).site.patches
  {
    var (site1, nc1) := Announce(env, site, nc);
    if prefix != "" && order != [] && PoolFor(prefix).Some? {
      ProvisionGrows(env, site1, nc1, prefix, PoolFor(prefix).value, order);
    }
  }

  /** The first patch of a reconcile withdraws Ready for this generation. */
  predicate Withdrawn(before: seq<Patch>, after: seq<Patch>, generation: int) {
    && |after| > |before|
    && after[|before|] == ConditionPatch(Condition(ReadyKind, false, ReasonReconciling, Working, generation))
  }

  lemma Announcement(env: Env, site: Site, nc: Config)
    ensures var after := Announce(env, site, nc).0.patches;
      site.patches <= after && (!Observed(nc) ==> Withdrawn(site.patches, after, nc.generation))
  {
  }

  /** Before anything else a generation not yet observed has Ready withdrawn. */
  lemma NewGenerationIsAnnounced(env: Env, site: Site, nc: Config, nn: Option<Namespace>, order: seq<string>)
    requires ToBeServed(env, nc, nn)
    ensures var after := Reconcile(env, site, nc, nn, order).site.patches;
      site.patches <= after && (!Observed(nc) ==> Withdrawn(site.patches, after, nc.generation))
  {
    Announcement(env, site, nc);
    WorkGrows(env, site, nc, nn.value.prefix, order);
  }
}
