/**
 One reconcile of a NetworkConfiguration (internal/controller/v1alpha1/networkconfiguration_controller.go),
 as a function of the object, the Kea servers and everything the environment decides.
 */
module Controller {
  import opened Text
  import opened Ipv4
  import opened KeaServer
  import opened Service
  import opened Macs
  import opened Reservations

  // ---------- The objects ----------

  datatype Provider = ProviderUnset | ProviderKea | ProviderOther
  datatype Allocation = AllocationUnset | AllocationDhcp | AllocationOther

  datatype Namespace = Namespace(allocation: Allocation, prefix: string)

  datatype Phase = NoPhase | Reconciling | Ready | Error
  datatype State = NoState | InProgress | Success | FailState

  /** The texts written to status and conditions. */
  datatype Message =
    | NoMessage | Working | ProviderRefused | AllocationRefused | MissingPrefix | NothingToConfigure | InvalidCidr
    | SubnetError(why: Failure) | ReservationErrors(errs: seq<(string, Failure)>) | AllConfigured
    | Summary(total: nat, resolved: nat)

  datatype Kind = ReadyKind | OtherKind(name: string)
  datatype Reason = ReasonReconciling | ReasonConfigured | ReasonError
  datatype Condition = Condition(kind: Kind, truth: bool, reason: Reason, message: Message, generation: int)

  datatype Row = Row(name: string, mac: string, vlan: string, reserved: bool, ips: seq<string>,
                     subnet: string, gateway: string, dns: seq<string>)

  datatype Status = Status(phase: Phase, state: State, message: Message, created: bool,
                           rows: seq<Row>, conditions: seq<Condition>)

  datatype Config = Config(provider: Provider, interfaces: seq<Interface>, finalizer: bool, deleting: bool,
                           generation: int, status: Status)

  /** Patches are logged whether or not the API server takes them. */
  datatype Patch = ConditionPatch(condition: Condition) | StatusPatch(status: Status)
  datatype Site = Site(w: World, patches: seq<Patch>)

  /** The fates of Kea commands, whether the n-th status patch and the finalizer update succeed, and the settings. */
  datatype Env = Env(fates: Fates, patchOk: nat -> bool, finalizerOk: bool, strict: bool, classes: seq<string>)

  datatype Requeue = Never | Soon | Later

  datatype Verdict =
    | NotOurs | Deleted | NoNamespace | OtherType | Refused | Claimed
    | PrefixMissing | NoMacs | BadCidr | NoSubnet | Failing | Configured

  datatype Run = Run(site: Site, nc: Config, verdict: Verdict, requeue: Requeue,
                     ips: map<string, string>, sids: map<string, int>)

  // ---------- Status writing ----------

  function FindCondition(conditions: seq<Condition>, kind: Kind): Option<Condition> {
    if conditions == [] then None
    else if conditions[0].kind == kind then Some(conditions[0])
    else FindCondition(conditions[1..], kind)
  }

  function PutCondition(conditions: seq<Condition>, c: Condition): seq<Condition> {
    if conditions == [] then [c]
    else if conditions[0].kind == c.kind then [c] + conditions[1..]
    else [conditions[0]] + PutCondition(conditions[1..], c)
  }

  function SetCondition(env: Env, site: Site, nc: Config, c: Condition): (Site, Config) {
    if FindCondition(nc.status.conditions, c.kind) == Some(c) then (site, nc)
    else
      (site.(patches := site.patches + [ConditionPatch(c)]),
       if env.patchOk(|site.patches|)
       then nc.(status := nc.status.(conditions := PutCondition(nc.status.conditions, c))) else nc)
  }

  function UpdatedStatus(s: Status, phase: Phase, state: State, message: Message, rows: seq<Row>): Status {
    s.(phase := phase, state := state, message := message, created := true, rows := if rows != [] then rows else s.rows)
  }

  function UpdateStatus(env: Env, site: Site, nc: Config, phase: Phase, state: State, message: Message, rows: seq<Row>)
    : (Site, Config)
  {
    var updated := UpdatedStatus(nc.status, phase, state, message, rows);
    if updated == nc.status then (site, nc)
    else (site.(patches := site.patches + [StatusPatch(updated)]),
          if env.patchOk(|site.patches|) then nc.(status := updated) else nc)
  }

  function ReadyIs(truth: bool, reason: Reason, message: Message, nc: Config): Condition {
    Condition(ReadyKind, truth, reason, message, nc.generation)
  }

  /** A Ready condition followed by the status fields. */
  function Report(env: Env, site: Site, nc: Config, c: Condition, phase: Phase, state: State, message: Message, rows: seq<Row>)
    : (Site, Config)
  {
    var (site1, nc1) := SetCondition(env, site, nc, c);
    UpdateStatus(env, site1, nc1, phase, state, message, rows)
  }

  // ---------- Status rows ----------

  function RowFor(i: Interface, ips: map<string, string>, sids: map<string, int>, prefix: string, info: Option<SubnetInfo>): Row {
    var m := StatusNormal(i.mac);
    Row(i.name, i.mac, i.vlan, m in sids, if m in ips then [ips[m]] else [], prefix,
        if info.Some? then info.value.gateway else "", if info.Some? then info.value.dns else [])
  }

  function RowsFor(interfaces: seq<Interface>, ips: map<string, string>, sids: map<string, int>, prefix: string,
                   info: Option<SubnetInfo>): seq<Row>
  {
    if interfaces == [] then []
    else RowsFor(interfaces[..|interfaces| - 1], ips, sids, prefix, info)
         + [RowFor(interfaces[|interfaces| - 1], ips, sids, prefix, info)]
  }

  // ---------- Subnet details, recovering from a stale id ----------

  function ResolveInfo(fates: Fates, w: World, id: int, prefix: string): (World, int, Option<SubnetInfo>) {
    var (w1, info) := GetSubnetInfo(fates, w, id);
    match info
    case Ok(i) => (w1, id, Some(i))
    case Err(why) =>
      if why != Absent then (w1, id, None)
      else
        var (w2, again) := GetSubnetId(fates, w1, prefix);
        if again.Err? || again.value == id then (w2, id, None)
        else
          var (w3, info2) := GetSubnetInfo(fates, w2, again.value);
          (w3, again.value, if info2.Ok? then Some(info2.value) else None)
  }

  // ---------- Deletion ----------

  function Cleanup(fates: Fates, w: World, nn: Option<Namespace>, order: seq<string>): World {
    if nn.None? then w
    else
      var (w1, id) := GetSubnetId(fates, w, nn.value.prefix);
      if id.Err? then w1 else DeleteAll(fates, w1, order, id.value)
  }

  function HandleDeletion(env: Env, site: Site, nc: Config, nn: Option<Namespace>, order: seq<string>): Run {
    Run(site.(w := Cleanup(env.fates, site.w, nn, order)),
        if env.finalizerOk then nc.(finalizer := false) else nc,
        Deleted, if env.finalizerOk then Never else Soon, map[], map[])
  }

  // ---------- Reconcile ----------

  function Announce(env: Env, site: Site, nc: Config): (Site, Config) {
    var ready := FindCondition(nc.status.conditions, ReadyKind);
    if ready.None? || ready.value.generation != nc.generation
    then Report(env, site, nc, ReadyIs(false, ReasonReconciling, Working, nc), Reconciling, InProgress, Working, [])
    else (site, nc)
  }

  function Stop(r: (Site, Config), verdict: Verdict, requeue: Requeue): Run {
    Run(r.0, r.1, verdict, requeue, map[], map[])
  }

  function PoolFor(prefix: string): Option<Pool> {
    var net := ParseNetwork(prefix);
    if net.None? then None else PoolOf(net.value)
  }

  function SubnetFrom(prefix: string, pool: Pool, classes: seq<string>): SubnetConfig {
    SubnetConfig(prefix, 0, FormatIp(pool.gateway), [], FormatIp(pool.start), FormatIp(pool.end), 0, 0, 0, classes)
  }

  /** The last stage: what to report once the loop is through. */
  function Conclude(env: Env, site: Site, nc: Config, p: Progress, total: nat, rows: seq<Row>): Run {
    if p.errs != [] then
      var (site1, nc1) := Report(env, site, nc, ReadyIs(false, ReasonError, ReservationErrors(p.errs), nc),
                                 Error, FailState, ReservationErrors(p.errs), rows);
      Run(site1, nc1, Failing, Soon, p.ips, p.sids)
    else
      var (site1, nc1) := Report(env, site, nc, ReadyIs(true, ReasonConfigured, AllConfigured, nc),
                                 Ready, Success, Summary(total, |p.ips|), rows);
      Run(site1, nc1, Configured, if |p.ips| < total then Soon else Later, p.ips, p.sids)
  }

  /** Reservations in a resolved subnet. */
  function Serve(env: Env, site: Site, nc: Config, sid: int, prefix: string, order: seq<string>): Run {
    var (w1, id, info) := ResolveInfo(env.fates, site.w, sid, prefix);
    var p := ReserveAll(env.fates, w1, order, id, prefix);
    Conclude(env, site.(w := p.w), nc, p, |order|, RowsFor(nc.interfaces, p.ips, p.sids, prefix, info))
  }

  function Provision(env: Env, site: Site, nc: Config, prefix: string, pool: Pool, order: seq<string>): Run {
    var (w1, subnet) := GetOrCreateSubnet(env.fates, site.w, SubnetFrom(prefix, pool, env.classes));
    var site1 := site.(w := w1);
    match subnet
    case Err(why) =>
      Stop(Report(env, site1, nc, ReadyIs(false, ReasonError, SubnetError(why), nc), Error, FailState, SubnetError(why), []),
           NoSubnet, Soon)
    case Ok(r) => Serve(env, site1, nc, r.id, prefix, order)
  }

  /** Past triage and with the finalizer in place. */
  function Work(env: Env, site0: Site, nc0: Config, prefix: string, order: seq<string>): Run {
    var (site, nc) := Announce(env, site0, nc0);
    if prefix == "" then Stop(UpdateStatus(env, site, nc, Error, FailState, MissingPrefix, []), PrefixMissing, Soon)
    else if order == [] then Stop(UpdateStatus(env, site, nc, Ready, Success, NothingToConfigure, []), NoMacs, Never)
    else match PoolFor(prefix)
      case None => Stop(UpdateStatus(env, site, nc, Error, FailState, InvalidCidr, []), BadCidr, Soon)
      case Some(pool) => Provision(env, site, nc, prefix, pool, order)
  }

  function Refuse(env: Env, site: Site, nc: Config, message: Message): Run {
    Stop(Report(env, site, nc, ReadyIs(false, ReasonError, message, nc), Error, FailState, message, []), Refused, Never)
  }

  /** `order` is the order in which the MACs of the object are ranged over. */
  function Reconcile(env: Env, site: Site, nc: Config, nn: Option<Namespace>, order: seq<string>): Run {
    if nc.provider.ProviderOther? then Stop((site, nc), NotOurs, Never)
    else if nc.deleting then HandleDeletion(env, site, nc, nn, order)
    else if nn.None? then Stop((site, nc), NoNamespace, Never)
    else if nn.value.allocation.AllocationOther? then Stop((site, nc), OtherType, Never)
    else if nc.provider.ProviderUnset? && env.strict then Refuse(env, site, nc, ProviderRefused)
    else if nn.value.allocation.AllocationUnset? && env.strict then Refuse(env, site, nc, AllocationRefused)
    else if !nc.finalizer then
      Stop((site, if env.finalizerOk then nc.(finalizer := true) else nc), Claimed, if env.finalizerOk then Never else Soon)
    else Work(env, site, nc, nn.value.prefix, order)
  }

  // ---------- Stale-id recovery ----------

  predicate ListedSomewhere(w: World, prefix: string, id: int) {
    || FirstId(w.primary.subnets, prefix) == Some(id)
    || (w.secondary.Some? && FirstId(w.secondary.value.subnets, prefix) == Some(id))
  }

  /** Whatever the failover pattern: the details belong to the returned id, which is the given one or one listed for the prefix. */
  lemma ResolvedIdIsSound(fates: Fates, w: World, id: int, prefix: string)
    ensures var (w', id', info) := ResolveInfo(fates, w, id, prefix);
      && w'.primary == w.primary && w'.secondary == w.secondary
      && (info.Some? ==> info.value.id == id')
      && (id' == id || ListedSomewhere(w, prefix, id'))
  {
    SendEffect(fates, w, SubnetGet(id));
    var w1 := GetSubnetInfo(fates, w, id).0;
    SubnetIdIsListed(fates, w1, prefix);
    var (w2, again) := GetSubnetId(fates, w1, prefix);
    if again.Ok? { SendEffect(fates, w2, SubnetGet(again.value)); }
  }

  /**
   If one peer answers, does not have the id and lists the prefix, its own id comes back, whatever happens to the
   second look at the details; the details come with it if that is answered, too.
   */
  lemma StaleIdRecovered(fates: Fates, w: World, id: int, prefix: string, peer: Peer)
    requires AnsweredBy(fates, w, |w.sent|, peer) && AnsweredBy(fates, w, |w.sent| + 1, peer)
    requires FirstWithId(PeerKea(w, peer).subnets, id).None? && FirstId(PeerKea(w, peer).subnets, prefix).Some?
    ensures var (w', id', info) := ResolveInfo(fates, w, id, prefix);
      && Some(id') == FirstId(PeerKea(w, peer).subnets, prefix)
      && w'.sent == w.sent + [SubnetGet(id), SubnetList, SubnetGet(id')]
      && (AnsweredBy(fates, w, |w.sent| + 2, peer) ==> info.Some? && info.value.id == id')
  {
    var subnets := PeerKea(w, peer).subnets;
    var found := FirstId(subnets, prefix).value;
    FirstIdListed(subnets, prefix);
    FirstWithIdListed(subnets, id);
    FirstWithIdListed(subnets, found);
    FindIdIsFirst(subnets, prefix);
    AnsweredByPeer(fates, w, peer, SubnetGet(id));
    var w1 := Send(fates, w, SubnetGet(id)).0;
    AnsweredByPeer(fates, w1, peer, SubnetList);
    var w2 := Send(fates, w1, SubnetList).0;
    SendEffect(fates, w2, SubnetGet(found));
    if AnsweredBy(fates, w, |w.sent| + 2, peer) { AnsweredByPeer(fates, w2, peer, SubnetGet(found)); }
  }

  /** The id given stays, after one query, unless that query says the id is absent; and it stays if the prefix cannot be listed either. */
  lemma IdKeptUnlessAbsent(fates: Fates, w: World, id: int, prefix: string)
    ensures var (w', id', info) := ResolveInfo(fates, w, id, prefix);
      var (w1, first) := GetSubnetInfo(fates, w, id);
      && (w' == w1 <==> first != Err(Absent))
      && (first != Err(Absent) ==> id' == id && info == if first.Ok? then Some(first.value) else None)
      && (first == Err(Absent) ==>
            && w'.sent[..|w.sent| + 2] == w.sent + [SubnetGet(id), SubnetList]
            && id' == (if GetSubnetId(fates, w1, prefix).1.Ok? then GetSubnetId(fates, w1, prefix).1.value else id)
            && (id' == id ==> info.None?))
  {
    SendEffect(fates, w, SubnetGet(id));
    var w1 := GetSubnetInfo(fates, w, id).0;
    SendEffect(fates, w1, SubnetList);
    var (w2, again) := GetSubnetId(fates, w1, prefix);
    if again.Ok? { SendEffect(fates, w2, SubnetGet(again.value)); }
  }

  // ---------- Status rows ----------

  lemma RowsSnoc(interfaces: seq<Interface>, i: nat, ips: map<string, string>, sids: map<string, int>,
                 prefix: string, info: Option<SubnetInfo>)
    requires i < |interfaces|
    ensures RowsFor(interfaces[..i + 1], ips, sids, prefix, info)
         == RowsFor(interfaces[..i], ips, sids, prefix, info) + [RowFor(interfaces[i], ips, sids, prefix, info)]
  {
    assert interfaces[..i + 1][..i] == interfaces[..i];
  }

  lemma {:induction false} RowsAt(interfaces: seq<Interface>, ips: map<string, string>, sids: map<string, int>,
                                  prefix: string, info: Option<SubnetInfo>)
    ensures var rows := RowsFor(interfaces, ips, sids, prefix, info);
      |rows| == |interfaces| && forall i :: 0 <= i < |rows| ==> rows[i] == RowFor(interfaces[i], ips, sids, prefix, info)
  {
    if interfaces != [] { RowsAt(interfaces[..|interfaces| - 1], ips, sids, prefix, info); }
  }

  /**
   One row per interface, in order; a row says reserved exactly when its MAC is valid and the loop reserved it,
   and shows an address exactly when the loop found one in the prefix.
   */
  lemma RowsAreExact(fates: Fates, w: World, interfaces: seq<Interface>, order: seq<string>, sid: int, prefix: string,
                     info: Option<SubnetInfo>)
    requires Enumerates(order, MacSet(interfaces))
    ensures var p := ReserveAll(fates, w, order, sid, prefix);
      var rows := RowsFor(interfaces, p.ips, p.sids, prefix, info);
      && |rows| == |interfaces|
      && (forall i :: 0 <= i < |rows| ==>
            && rows[i].name == interfaces[i].name && rows[i].mac == interfaces[i].mac && rows[i].vlan == interfaces[i].vlan
            && rows[i].subnet == prefix
            && (info.Some? ==> rows[i].gateway == info.value.gateway && rows[i].dns == info.value.dns)
            && (info.None? ==> rows[i].gateway == "" && rows[i].dns == [])
            && (rows[i].reserved <==> ValidMac(Normal(interfaces[i].mac)) && Normal(interfaces[i].mac) !in Failed(p.errs))
            && rows[i].ips == (if Normal(interfaces[i].mac) in p.ips then [p.ips[Normal(interfaces[i].mac)]] else [])
            && (rows[i].ips != [] ==> rows[i].reserved))
  {
    var p := ReserveAll(fates, w, order, sid, prefix);
    var rows := RowsFor(interfaces, p.ips, p.sids, prefix, info);
    RowsAt(interfaces, p.ips, p.sids, prefix, info);
    Partition(fates, w, order, sid, prefix);
    forall i | 0 <= i < |rows|
      ensures rows[i].reserved <==> ValidMac(Normal(interfaces[i].mac)) && Normal(interfaces[i].mac) !in Failed(p.errs)
      ensures rows[i].ips == (if Normal(interfaces[i].mac) in p.ips then [p.ips[Normal(interfaces[i].mac)]] else [])
    {
      var m := Normal(interfaces[i].mac);
      NormalisationsAgree(interfaces[i].mac);
      assert m in Elements(order) <==> m in MacSet(interfaces);
      if ValidMac(m) { assert m in MacSet(interfaces); }
      if m in MacSet(interfaces) { MacSetCanon(interfaces); }
    }
  }

  // ---------- Status patches ----------

  lemma {:induction false} PutThenFind(conditions: seq<Condition>, c: Condition)
    ensures FindCondition(PutCondition(conditions, c), c.kind) == Some(c)
  {
    if conditions != [] && conditions[0].kind != c.kind {
      assert PutCondition(conditions, c)[1..] == PutCondition(conditions[1..], c);
      PutThenFind(conditions[1..], c);
    }
  }

  /** Conditions of other kinds are found as before. */
  lemma {:induction false} PutKeepsOthers(conditions: seq<Condition>, c: Condition, kind: Kind)
    requires kind != c.kind
    ensures FindCondition(PutCondition(conditions, c), kind) == FindCondition(conditions, kind)
  {
    if conditions != [] && conditions[0].kind != c.kind {
      assert PutCondition(conditions, c)[1..] == PutCondition(conditions[1..], c);
      PutKeepsOthers(conditions[1..], c, kind);
    } else if conditions == [] {
      assert [c][1..] == [];
    } else {
      assert PutCondition(conditions, c)[1..] == conditions[1..];
    }
  }

  /** No condition is lost, moved or doubled. */
  lemma {:induction false} PutKeepsPlaces(conditions: seq<Condition>, c: Condition)
    ensures var after := PutCondition(conditions, c);
      && |after| == |conditions| + (if FindCondition(conditions, c.kind).None? then 1 else 0)
      && (forall i :: 0 <= i < |conditions| ==> after[i].kind == conditions[i].kind)
      && (forall i :: 0 <= i < |conditions| && conditions[i].kind != c.kind ==> after[i] == conditions[i])
  {
    if conditions != [] && conditions[0].kind != c.kind { PutKeepsPlaces(conditions[1..], c); }
  }

  /**
   Under any pattern of refused patches a report leaves other conditions alone, keeps the rows if it brings none,
   sends a condition patch exactly when the condition changes, and changes the object only by patches taken.
   */
  lemma ReportKeeps(env: Env, site: Site, nc: Config, c: Condition, phase: Phase, state: State, message: Message, rows: seq<Row>)
    ensures var (site1, nc1) := Report(env, site, nc, c, phase, state, message, rows);
      && (forall kind :: kind != c.kind ==>
            FindCondition(nc1.status.conditions, kind) == FindCondition(nc.status.conditions, kind))
      && (rows == [] ==> nc1.status.rows == nc.status.rows)
      && (nc.status.created ==> nc1.status.created)
      && (ConditionPatch(c) in site1.patches[|site.patches|..] <==> FindCondition(nc.status.conditions, c.kind) != Some(c))
      && ((forall n :: n >= |site.patches| ==> !env.patchOk(n)) ==> nc1 == nc)
      && |site1.patches| <= |site.patches| + 2
  {
    forall kind | kind != c.kind
      ensures FindCondition(PutCondition(nc.status.conditions, c), kind) == FindCondition(nc.status.conditions, kind)
    {
      PutKeepsOthers(nc.status.conditions, c, kind);
    }
    var sent := Report(env, site, nc, c, phase, state, message, rows).0.patches[|site.patches|..];
    if FindCondition(nc.status.conditions, c.kind) != Some(c) { assert sent[0] == ConditionPatch(c); }
  }

  /** No-op suppression: once a report has been taken, the same report patches nothing; nothing but status is ever written. */
  lemma ReportTwice(env: Env, env2: Env, site: Site, nc: Config, site2: Site, c: Condition,
                    phase: Phase, state: State, message: Message, rows: seq<Row>)
    requires forall n :: env.patchOk(n)
    ensures var nc1 := Report(env, site, nc, c, phase, state, message, rows).1;
      && Report(env2, site2, nc1, c, phase, state, message, rows) == (site2, nc1)
      && FindCondition(nc1.status.conditions, c.kind) == Some(c)
      && nc1.status.phase == phase && nc1.status.state == state && nc1.status.message == message
      && (rows != [] ==> nc1.status.rows == rows)
      && nc1.(status := nc.status) == nc
  {
    PutThenFind(nc.status.conditions, c);
  }

  /** Reporting attempts no patch but the given condition and a status. */
  lemma ReportPatches(env: Env, site: Site, nc: Config, c: Condition, phase: Phase, state: State, message: Message, rows: seq<Row>)
    ensures var (site1, nc1) := Report(env, site, nc, c, phase, state, message, rows);
      && site1.w == site.w && site.patches <= site1.patches && nc1.(status := nc.status) == nc
      && (forall i :: |site.patches| <= i < |site1.patches| && site1.patches[i].ConditionPatch? ==> site1.patches[i].condition == c)
  {
  }

  /** A Ready=True condition was sent to the API server in between. */
  ghost predicate ClaimedReady(before: seq<Patch>, after: seq<Patch>) {
    exists i :: |before| <= i < |after| && after[i].ConditionPatch?
      && after[i].condition.kind == ReadyKind && after[i].condition.truth
  }

  // ---------- Ready soundness ----------

  /**
   Under any pattern of failed queries, lost replies and failovers: a reconcile sends Ready=True only if every
   valid MAC of the spec has a recorded subnet id and a reservation for that pair on some peer.
   */
  lemma ReadySound(env: Env, site: Site, nc: Config, nn: Option<Namespace>, order: seq<string>)
    requires Enumerates(order, MacSet(nc.interfaces))
    ensures var run := Reconcile(env, site, nc, nn, order);
      ClaimedReady(site.patches, run.site.patches) ==>
        && run.verdict == Configured
        && (forall m :: m in MacSet(nc.interfaces) ==> m in run.sids && SomePeerHas(run.site.w, m, run.sids[m]))
  {
    var run := Reconcile(env, site, nc, nn, order);
    if !ToBeServed(env, nc, nn) {
      QuietTriage(env, site, nc, nn, order);
    } else {
      var (site1, nc1) := Announce(env, site, nc);
      AnnouncePatches(env, site, nc);
      var prefix := nn.value.prefix;
      if prefix != "" && order != [] && PoolFor(prefix).Some? {
        ReadyAfterProvision(env, site.patches, site1, nc1, prefix, PoolFor(prefix).value, order);
      }
    }
  }

  predicate ToBeServed(env: Env, nc: Config, nn: Option<Namespace>) {
    && !nc.provider.ProviderOther? && !nc.deleting && nn.Some? && !nn.value.allocation.AllocationOther?
    && !(nc.provider.ProviderUnset? && env.strict) && !(nn.value.allocation.AllocationUnset? && env.strict) && nc.finalizer
  }

  /** Patches between two points of a run, none of which claims Ready. */
  ghost predicate QuietPatches(before: seq<Patch>, after: seq<Patch>) {
    before <= after && forall i :: |before| <= i < |after| && after[i].ConditionPatch? ==> !after[i].condition.truth
  }

  lemma QuietTriage(env: Env, site: Site, nc: Config, nn: Option<Namespace>, order: seq<string>)
    requires !ToBeServed(env, nc, nn)
    ensures QuietPatches(site.patches, Reconcile(env, site, nc, nn, order).site.patches)
  {
    ReportPatches(env, site, nc, ReadyIs(false, ReasonError, ProviderRefused, nc), Error, FailState, ProviderRefused, []);
    ReportPatches(env, site, nc, ReadyIs(false, ReasonError, AllocationRefused, nc), Error, FailState, AllocationRefused, []);
  }

  lemma AnnouncePatches(env: Env, site: Site, nc: Config)
    ensures var (site1, nc1) := Announce(env, site, nc);
      site1.w == site.w && QuietPatches(site.patches, site1.patches) && nc1.(status := nc.status) == nc
  {
    ReportPatches(env, site, nc, ReadyIs(false, ReasonReconciling, Working, nc), Reconciling, InProgress, Working, []);
  }

  lemma ReadyAfterProvision(env: Env, before: seq<Patch>, site: Site, nc: Config, prefix: string, pool: Pool, order: seq<string>)
    requires Enumerates(order, MacSet(nc.interfaces)) && QuietPatches(before, site.patches)
    ensures var run := Provision(env, site, nc, prefix, pool, order);
      ClaimedReady(before, run.site.patches) ==>
        && run.verdict == Configured
        && (forall m :: m in MacSet(nc.interfaces) ==> m in run.sids && SomePeerHas(run.site.w, m, run.sids[m]))
  {
    var (w1, subnet) := GetOrCreateSubnet(env.fates, site.w, SubnetFrom(prefix, pool, env.classes));
    var site1 := site.(w := w1);
    if subnet.Err? {
      var why := subnet.why;
      ReportPatches(env, site1, nc, ReadyIs(false, ReasonError, SubnetError(why), nc), Error, FailState, SubnetError(why), []);
    } else {
      ReadyAfterServe(env, before, site1, nc, subnet.value.id, prefix, order);
    }
  }

  lemma ReadyAfterServe(env: Env, before: seq<Patch>, site: Site, nc: Config, sid: int, prefix: string, order: seq<string>)
    requires Enumerates(order, MacSet(nc.interfaces)) && QuietPatches(before, site.patches)
    ensures var run := Serve(env, site, nc, sid, prefix, order);
      ClaimedReady(before, run.site.patches) ==>
        && run.verdict == Configured
        && (forall m :: m in MacSet(nc.interfaces) ==> m in run.sids && SomePeerHas(run.site.w, m, run.sids[m]))
  {
    var (w1, id, info) := ResolveInfo(env.fates, site.w, sid, prefix);
    var p := ReserveAll(env.fates, w1, order, id, prefix);
    var rows := RowsFor(nc.interfaces, p.ips, p.sids, prefix, info);
    var site1 := site.(w := p.w);
    ReportPatches(env, site1, nc, ReadyIs(false, ReasonError, ReservationErrors(p.errs), nc),
                  Error, FailState, ReservationErrors(p.errs), rows);
    ReportPatches(env, site1, nc, ReadyIs(true, ReasonConfigured, AllConfigured, nc),
                  Ready, Success, Summary(|order|, |p.ips|), rows);
    MacSetCanon(nc.interfaces);
    ReservedIsHeld(env.fates, w1, order, id, prefix);
    Partition(env.fates, w1, order, id, prefix);
    assert p.errs == [] ==> Failed(p.errs) == {};
    assert forall m :: m in Elements(order) <==> m in MacSet(nc.interfaces);
  }

  // ---------- Requeueing ----------

  /** The long requeue is chosen exactly when the object is configured and every MAC of the spec has an address. */
  lemma LongRequeueMeansSettled(env: Env, site: Site, nc: Config, nn: Option<Namespace>, order: seq<string>)
    requires Enumerates(order, MacSet(nc.interfaces))
    ensures var run := Reconcile(env, site, nc, nn, order);
      && (run.requeue == Later <==> run.verdict == Configured && forall m :: m in MacSet(nc.interfaces) ==> m in run.ips)
      && run.ips.Keys <= run.sids.Keys
  {
    if ToBeServed(env, nc, nn) {
      var (site1, nc1) := Announce(env, site, nc);
      AnnouncePatches(env, site, nc);
      var prefix := nn.value.prefix;
      if prefix != "" && order != [] && PoolFor(prefix).Some? {
        var (w1, subnet) := GetOrCreateSubnet(env.fates, site1.w, SubnetFrom(prefix, PoolFor(prefix).value, env.classes));
        if subnet.Ok? { RequeueAfterServe(env, site1.(w := w1), nc1, subnet.value.id, prefix, order); }
      }
    }
  }

  lemma RequeueAfterServe(env: Env, site: Site, nc: Config, sid: int, prefix: string, order: seq<string>)
    requires Enumerates(order, MacSet(nc.interfaces))
    ensures var run := Serve(env, site, nc, sid, prefix, order);
      && (run.requeue == Later <==> run.verdict == Configured && forall m :: m in MacSet(nc.interfaces) ==> m in run.ips)
      && run.ips.Keys <= run.sids.Keys
  {
    var (w1, id, info) := ResolveInfo(env.fates, site.w, sid, prefix);
    var p := ReserveAll(env.fates, w1, order, id, prefix);
    Partition(env.fates, w1, order, id, prefix);
    AllResolved(p.ips, order, MacSet(nc.interfaces));
  }

  /** Comparing the two counts is comparing the two sets. */
  lemma AllResolved(ips: map<string, string>, order: seq<string>, macs: set<string>)
    requires Enumerates(order, macs)
    ensures ips.Keys <= Elements(order) ==> (|ips| >= |order| <==> forall m :: m in macs ==> m in ips)
  {
    ElementsSize(order);
    assert Elements(order) == macs;
    assert |ips| == |ips.Keys|;
    if ips.Keys <= Elements(order) {
      SubsetSize(ips.Keys, Elements(order));
      if forall m :: m in macs ==> m in ips { assert ips.Keys == macs; }
    }
  }

  // ---------- The pool that is written to Kea ----------

  /**
   Up to /29 the subnet4-add that a prefix leads to carries one pool whose written ends read back as addresses,
   in order, with everything between them inside the prefix and the written gateway below it.
   */
  lemma WrittenPoolIsInside(prefix: string, classes: seq<string>, id: int, a: int)
    requires ParseNetwork(prefix).Some? && ParseNetwork(prefix).value.bits <= 29
    ensures PoolFor(prefix).Some?
    ensures var net, doc := ParseNetwork(prefix).value, Document(SubnetFrom(prefix, PoolFor(prefix).value, classes), id);
      && doc.cidr == prefix && doc.id == id && doc.validLife == 4000 && doc.renewTimer == 0 && doc.rebindTimer == 0
      && |doc.pools| == 1 && doc.pools[0].classes == classes
      && ParseIp(doc.pools[0].start).Some? && ParseIp(doc.pools[0].end).Some?
      && |doc.options| == 1 && doc.options[0].code == 3 && ParseIp(doc.options[0].data).Some?
      && net.First() < Value(ParseIp(doc.options[0].data).value) < Value(ParseIp(doc.pools[0].start).value)
           < Value(ParseIp(doc.pools[0].end).value) < net.Last()
      && (Value(ParseIp(doc.pools[0].start).value) <= a <= Value(ParseIp(doc.pools[0].end).value) ==> net.Contains(a))
  {
    var net := ParseNetwork(prefix).value;
    PoolUpTo29(net);
    PoolInside(net, a);
    var pool := PoolOf(net).value;
    IpRoundTrip(pool.gateway);
    IpRoundTrip(pool.start);
    IpRoundTrip(pool.end);
    ParsedIpIsTrimmed(FormatIp(pool.gateway));
    ParsedIpIsTrimmed(FormatIp(pool.start));
    ParsedIpIsTrimmed(FormatIp(pool.end));
  }
}
