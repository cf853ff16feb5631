/**
 One NetworkConfiguration over its whole life: users create, edit and delete it at any time, other controllers
 hold and release it, Kea changes on its own, and reconciles of it run one at a time on the copy they read.
 */
module Lifecycle {
  import opened Text
  import opened Ipv4
  import opened KeaServer
  import opened Service
  import opened Macs
  import opened Reservations
  import opened Controller

  /** AddSent: a reconcile sent reservation-add. CleanupRan: handleDeletion ran. Gone: the object left the cluster. */
  datatype Event = AddSent | CleanupRan | Gone

  /** `others`: finalizers of other controllers. `inflight`: the copy a running reconcile has read. */
  datatype Cluster = Cluster(nc: Option<Config>, others: bool, inflight: Option<Config>, site: Site, history: seq<Event>)

  datatype Action =
    | Create(provider: Provider, interfaces: seq<Interface>, held: bool)
    | Edit(provider: Provider, interfaces: seq<Interface>)
    | Delete
    | Hold(held: bool)
    | KeaMoves(primary: Kea, secondary: Option<Kea>)
    | Begin
    | Finish(env: Env, nn: Option<Namespace>, order: seq<string>)

  const FRESH_STATUS := Status(NoPhase, NoState, NoMessage, false, [], [])

  /** An object being deleted disappears once nobody holds it. */
  function Settle(c: Cluster): Cluster {
    if c.nc.Some? && c.nc.value.deleting && !c.nc.value.finalizer && !c.others
    then c.(nc := None, history := c.history + [Gone]) else c
  }

  function Sent(before: World, after: World): seq<Command> {
    if |before.sent| <= |after.sent| then after.sent[|before.sent|..] else []
  }

  predicate SentAdd(before: World, after: World) {
    exists i :: 0 <= i < |Sent(before, after)| && Sent(before, after)[i].ReservationAdd?
  }

  /** What a finished reconcile writes to the object as it is by then. Finalizers cannot be added to an object being deleted. */
  function WriteBack(o: Config, run: Run): Config {
    var finalizer := if run.verdict == Claimed then o.finalizer || (run.nc.finalizer && !o.deleting)
                     else if run.verdict == Deleted then o.finalizer && run.nc.finalizer
                     else o.finalizer;
    o.(finalizer := finalizer, status := run.nc.status)
  }

  function Finished(c: Cluster, run: Run): Cluster {
    Settle(Cluster(
      if c.nc.Some? then Some(WriteBack(c.nc.value, run)) else None, c.others, None, run.site,
      c.history + (if SentAdd(c.site.w, run.site.w) then [AddSent] else []) + (if run.verdict == Deleted then [CleanupRan] else [])))
  }

  ghost predicate Enabled(c: Cluster, a: Action) {
    match a
    case Create(_, _, _) => c.nc.None?
    case Edit(_, _) => c.nc.Some?
    case Delete => c.nc.Some?
    case Hold(_) => c.nc.Some?
    case KeaMoves(_, _) => true
    case Begin => c.nc.Some? && c.inflight.None?
    case Finish(_, _, order) => c.inflight.Some? && Enumerates(order, MacSet(c.inflight.value.interfaces))
  }

  ghost function Next(c: Cluster, a: Action): Cluster {
    if !Enabled(c, a) then c
    else match a
      case Create(p, ifs, held) => c.(nc := Some(Config(p, ifs, false, false, 1, FRESH_STATUS)), others := held)
      case Edit(p, ifs) => c.(nc := Some(c.nc.value.(provider := p, interfaces := ifs,
                                                             generation := c.nc.value.generation + 1)))
      case Delete => Settle(c.(nc := Some(c.nc.value.(deleting := true))))
      case Hold(held) => Settle(c.(others := held))
      case KeaMoves(k1, k2) => c.(site := c.site.(w := c.site.w.(primary := k1, secondary := k2)))
      case Begin => c.(inflight := c.nc)
      case Finish(env, nn, order) => Finished(c, Reconcile(env, c.site, c.inflight.value, nn, order))
  }

  function Start(w: World): Cluster { Cluster(None, false, None, Site(w, []), []) }

  ghost function Life(w: World, actions: seq<Action>): Cluster {
    if actions == [] then Start(w) else Next(Life(w, actions[..|actions| - 1]), actions[|actions| - 1])
  }

  // ---------- What a reconcile sends ----------

  /** Nothing but queries and deletions. */
  predicate NoAdds(before: World, after: World) {
    before.sent <= after.sent && forall i :: |before.sent| <= i < |after.sent| ==> IsRead(after.sent[i]) || after.sent[i].ReservationDel?
  }

  lemma {:induction false} DeletionsAddNothing(fates: Fates, w: World, macs: seq<string>, sid: int)
    ensures NoAdds(w, DeleteAll(fates, w, macs, sid))
  {
    if macs != [] {
      var n := |macs| - 1;
      DeletionsAddNothing(fates, w, macs[..n], sid);
      SendEffect(fates, DeleteAll(fates, w, macs[..n], sid), ReservationDel(Canon(macs[n]), sid));
    }
  }

  lemma CleanupAddsNothing(fates: Fates, w: World, nn: Option<Namespace>, order: seq<string>)
    ensures NoAdds(w, Cleanup(fates, w, nn, order))
  {
    if nn.Some? {
      SendEffect(fates, w, SubnetList);
      var (w1, id) := GetSubnetId(fates, w, nn.value.prefix);
      if id.Ok? { DeletionsAddNothing(fates, w1, order, id.value); }
    }
  }

  /**
   A reconcile of an object that it neither serves nor deletes (other provider, no namespace, non-DHCP type,
   strict refusal, finalizer not yet there) sends Kea nothing at all.
   */
  lemma SkippedSendsNothing(env: Env, site: Site, nc: Config, nn: Option<Namespace>, order: seq<string>)
    requires !ToBeServed(env, nc, nn) && (nc.provider.ProviderOther? || !nc.deleting)
    ensures var run := Reconcile(env, site, nc, nn, order);
      && run.site.w == site.w
      && QuietPatches(site.patches, run.site.patches)
      && (nc.provider.ProviderOther? || nn.None? || nn.value.allocation.AllocationOther? ==>
            run.nc == nc && run.site == site && run.requeue == Never)
  {
    ReportPatches(env, site, nc, ReadyIs(false, ReasonError, ProviderRefused, nc), Error, FailState, ProviderRefused, []);
    ReportPatches(env, site, nc, ReadyIs(false, ReasonError, AllocationRefused, nc), Error, FailState, AllocationRefused, []);
  }

  /**
   The exception: an object of no other provider that is being deleted has the reservations of its MACs removed
   in the resolved subnet even if it was never served: the namespace type, strictness and our finalizer play no part.
   */
  lemma DeletionIgnoresTriage(env: Env, site: Site, nc: Config, nn: Namespace, order: seq<string>)
    requires Truthful(env.fates) && nc.deleting && !nc.provider.ProviderOther?
    requires Enumerates(order, MacSet(nc.interfaces)) && FirstId(site.w.primary.subnets, nn.prefix).Some?
    ensures Reconcile(env, site, nc, Some(nn), order).site.w.primary.hosts ==
      Without(site.w.primary.hosts, MacSet(nc.interfaces), FirstId(site.w.primary.subnets, nn.prefix).value)
  {
    TruthfulSend(env.fates, site.w, SubnetList);
    FindIdIsFirst(site.w.primary.subnets, nn.prefix);
    var (w1, id) := GetSubnetId(env.fates, site.w, nn.prefix);
    CanonicalOrder(nc.interfaces, order);
    CleanupRemovesExactly(env.fates, w1, order, id.value);
    assert Elements(order) == MacSet(nc.interfaces);
  }

  lemma DeleteSends(fates: Fates, w: World, mac: string, sid: int)
    requires mac != "" && Canon(mac) == mac
    ensures DeleteReservation(fates, w, mac, sid).sent == w.sent + [ReservationDel(mac, sid)]
  {
    SendEffect(fates, w, ReservationDel(mac, sid));
  }

  function Deletions(macs: seq<string>, sid: int): seq<Command> {
    if macs == [] then [] else Deletions(macs[..|macs| - 1], sid) + [ReservationDel(macs[|macs| - 1], sid)]
  }

  lemma {:induction false} DeletionsSent(fates: Fates, w: World, macs: seq<string>, sid: int)
    requires CanonicalMacs(macs)
    ensures DeleteAll(fates, w, macs, sid).sent == w.sent + Deletions(macs, sid)
  {
    if macs != [] {
      var n := |macs| - 1;
      DeletionsSent(fates, w, macs[..n], sid);
      DeleteSends(fates, DeleteAll(fates, w, macs[..n], sid), macs[n], sid);
      AppendOne(w.sent, Deletions(macs[..n], sid), ReservationDel(macs[n], sid));
    }
  }

  lemma AppendOne(a: seq<Command>, b: seq<Command>, c: Command)
    ensures (a + b) + [c] == a + (b + [c])
  {
  }

  lemma {:induction false} DeletionFor(macs: seq<string>, sid: int, mac: string)
    requires mac in macs
    ensures ReservationDel(mac, sid) in Deletions(macs, sid)
  {
    if macs[|macs| - 1] != mac { DeletionFor(macs[..|macs| - 1], sid, mac); }
  }

  lemma CleanupSent(fates: Fates, w: World, nn: Namespace, order: seq<string>)
    requires CanonicalMacs(order) && GetSubnetId(fates, w, nn.prefix).1.Ok?
    ensures Cleanup(fates, w, Some(nn), order).sent ==
      w.sent + [SubnetList] + Deletions(order, GetSubnetId(fates, w, nn.prefix).1.value)
  {
    var (w1, id) := GetSubnetId(fates, w, nn.prefix);
    SendEffect(fates, w, SubnetList);
    DeletionsSent(fates, w1, order, id.value);
  }

  /** The cleanup attempt: once the subnet is resolved, a deletion is sent for every MAC of the spec, whatever fails on the way. */
  lemma CleanupAttemptsAll(env: Env, site: Site, nc: Config, nn: Namespace, order: seq<string>)
    requires nc.deleting && !nc.provider.ProviderOther? && Enumerates(order, MacSet(nc.interfaces))
    requires GetSubnetId(env.fates, site.w, nn.prefix).1.Ok?
    ensures var sid := GetSubnetId(env.fates, site.w, nn.prefix).1.value;
      && Reconcile(env, site, nc, Some(nn), order).site.w.sent == site.w.sent + [SubnetList] + Deletions(order, sid)
      && forall m :: m in MacSet(nc.interfaces) ==> ReservationDel(m, sid) in Deletions(order, sid)
  {
    var sid := GetSubnetId(env.fates, site.w, nn.prefix).1.value;
    CanonicalOrder(nc.interfaces, order);
    CleanupSent(env.fates, site.w, nn, order);
    forall m | m in MacSet(nc.interfaces) ensures ReservationDel(m, sid) in Deletions(order, sid) {
      DeletionFor(order, sid, m);
    }
  }

  /** Without a namespace cleanup does nothing; without a resolved subnet it sends no deletion and no table changes. */
  lemma CleanupNeedsSubnet(env: Env, site: Site, nc: Config, nn: Option<Namespace>, order: seq<string>)
    requires nc.deleting && !nc.provider.ProviderOther?
    requires nn.Some? ==> GetSubnetId(env.fates, site.w, nn.value.prefix).1.Err?
    ensures var w' := Reconcile(env, site, nc, nn, order).site.w;
      && w'.primary == site.w.primary && w'.secondary == site.w.secondary
      && w'.sent == site.w.sent + (if nn.Some? then [SubnetList] else [])
  {
    if nn.Some? { SendEffect(env.fates, site.w, SubnetList); }
  }

  // ---------- The invariant ----------

  /** A reservation-add was sent after the last cleanup. */
  predicate Owed(history: seq<Event>) {
    history != [] &&
    match history[|history| - 1]
    case AddSent => true
    case CleanupRan => false
    case Gone => Owed(history[..|history| - 1])
  }

  predicate Held(nc: Option<Config>) { nc.Some? && nc.value.finalizer }

  ghost predicate Inv(c: Cluster) {
    && (c.inflight.Some? && c.inflight.value.finalizer ==> Held(c.nc))
    && (Owed(c.history) ==> Held(c.nc))
    && GoneOnlyWhenSquare(c.history)
  }

  lemma OwedAppend(history: seq<Event>, e: Event)
    ensures Owed(history + [e]) == (e == AddSent || (e == Gone && Owed(history)))
  {
    assert (history + [e])[..|history|] == history;
  }

  ghost predicate GoneOnlyWhenSquare(history: seq<Event>) {
    forall j :: 0 <= j < |history| && history[j] == Gone ==> !Owed(history[..j])
  }

  lemma GoneAppend(history: seq<Event>, e: Event)
    requires GoneOnlyWhenSquare(history) && (e == Gone ==> !Owed(history))
    ensures GoneOnlyWhenSquare(history + [e])
  {
    forall j | 0 <= j < |history + [e]| && (history + [e])[j] == Gone ensures !Owed((history + [e])[..j]) {
      if j < |history| {
        assert (history + [e])[..j] == history[..j];
      } else {
        assert (history + [e])[..j] == history;
      }
    }
  }

  lemma SettleKeeps(c: Cluster)
    requires Inv(c)
    ensures Inv(Settle(c))
  {
    var s := Settle(c);
    if s != c {
      OwedAppend(c.history, Gone);
      GoneAppend(c.history, Gone);
    }
  }

  /** Only a served object, which carries our finalizer, is sent a reservation-add. */
  lemma AddsNeedFinalizer(env: Env, site: Site, nc: Config, nn: Option<Namespace>, order: seq<string>)
    ensures var run := Reconcile(env, site, nc, nn, order);
      SentAdd(site.w, run.site.w) ==> nc.finalizer && !nc.deleting && run.verdict != Claimed && run.verdict != Deleted
  {
    if !ToBeServed(env, nc, nn) {
      if nc.deleting && !nc.provider.ProviderOther? {
        CleanupAddsNothing(env.fates, site.w, nn, order);
      } else {
        SkippedSendsNothing(env, site, nc, nn, order);
      }
    } else {
      ServedVerdict(env, site, nc, nn, order);
    }
  }

  lemma ServedVerdict(env: Env, site: Site, nc: Config, nn: Option<Namespace>, order: seq<string>)
    ensures var v := Reconcile(env, site, nc, nn, order).verdict;
      && (v == Claimed ==> !nc.finalizer && !nc.deleting)
      && (v == Deleted <==> nc.deleting && !nc.provider.ProviderOther?)
  {
    if ToBeServed(env, nc, nn) { WorkVerdict(env, site, nc, nn.value.prefix, order); }
  }

  lemma WorkVerdict(env: Env, site: Site, nc: Config, prefix: string, order: seq<string>)
    ensures Work(env, site, nc, prefix, order).verdict !in {Claimed, Deleted}
  {
    var (site1, nc1) := Announce(env, site, nc);
    if PoolFor(prefix).Some? { ProvisionVerdict(env, site1, nc1, prefix, PoolFor(prefix).value, order); }
  }

  lemma ProvisionVerdict(env: Env, site: Site, nc: Config, prefix: string, pool: Pool, order: seq<string>)
    ensures Provision(env, site, nc, prefix, pool, order).verdict !in {Claimed, Deleted}
  {
  }

  lemma FinishKeeps(c: Cluster, env: Env, nn: Option<Namespace>, order: seq<string>)
    requires Inv(c) && c.inflight.Some?
    ensures Inv(Finished(c, Reconcile(env, c.site, c.inflight.value, nn, order)))
  {
    var snap := c.inflight.value;
    var run := Reconcile(env, c.site, snap, nn, order);
    AddsNeedFinalizer(env, c.site, snap, nn, order);
    ServedVerdict(env, c.site, snap, nn, order);
    var adds := if SentAdd(c.site.w, run.site.w) then [AddSent] else [];
    var cleaned := if run.verdict == Deleted then [CleanupRan] else [];
    var written := if c.nc.Some? then Some(WriteBack(c.nc.value, run)) else None;
    var mid := Cluster(written, c.others, None, run.site, c.history + adds + cleaned);
    OwedAppend(c.history, AddSent);
    GoneAppend(c.history, AddSent);
    OwedAppend(c.history, CleanupRan);
    GoneAppend(c.history, CleanupRan);
    assert c.history + [] == c.history && c.history + [AddSent] + [] == c.history + [AddSent];
    assert Inv(mid);
    SettleKeeps(mid);
  }

  lemma StepKeeps(c: Cluster, a: Action)
    requires Inv(c)
    ensures Inv(Next(c, a))
  {
    if Enabled(c, a) {
      match a
      case Finish(env, nn, order) => FinishKeeps(c, env, nn, order);
      case Delete => SettleKeeps(c.(nc := Some(c.nc.value.(deleting := true))));
      case Hold(held) => SettleKeeps(c.(others := held));
      case _ =>
    }
  }

  lemma {:induction false} LifeKeeps(w: World, actions: seq<Action>)
    ensures Inv(Life(w, actions))
  {
    if actions != [] {
      var n := |actions| - 1;
      LifeKeeps(w, actions[..n]);
      StepKeeps(Life(w, actions[..n]), actions[n]);
    }
  }

  // ---------- Theorems over whole lives ----------

  /** Every reservation-add is sent while our finalizer is on the object, from the read that started the reconcile to its end. */
  lemma AddsUnderFinalizer(w: World, actions: seq<Action>, a: Action)
    requires Enabled(Life(w, actions), a) && a.Finish?
    ensures var c := Life(w, actions);
      SentAdd(c.site.w, Next(c, a).site.w) ==>
        c.inflight.value.finalizer && Held(c.nc) && Held(Next(c, a).nc)
  {
    LifeKeeps(w, actions);
    var c := Life(w, actions);
    AddsNeedFinalizer(a.env, c.site, c.inflight.value, a.nn, a.order);
    var run := Reconcile(a.env, c.site, c.inflight.value, a.nn, a.order);
    assert Next(c, a).site == run.site;
  }

  lemma {:induction false} OwedUntilCleanup(history: seq<Event>, i: nat)
    requires i < |history| && history[i] == AddSent && !Owed(history)
    ensures exists k :: i < k < |history| && history[k] == CleanupRan
  {
    var n := |history| - 1;
    if history[n] == Gone {
      OwedUntilCleanup(history[..n], i);
      var k :| i < k < n && history[..n][k] == CleanupRan;
      assert history[k] == CleanupRan;
    }
  }

  /** A configuration for which reservations were ever sent never disappears without a cleanup attempt in between. */
  lemma NeverGoneWithoutCleanup(w: World, actions: seq<Action>, i: nat, j: nat)
    requires i < j < |Life(w, actions).history|
    requires Life(w, actions).history[i] == AddSent && Life(w, actions).history[j] == Gone
    ensures exists k :: i < k < j && Life(w, actions).history[k] == CleanupRan
  {
    LifeKeeps(w, actions);
    var history := Life(w, actions).history;
    OwedUntilCleanup(history[..j], i);
    var k :| i < k < j && history[..j][k] == CleanupRan;
    assert history[k] == CleanupRan;
  }

  // ---------- Deletion releases the object ----------

  /** A reconcile of a deleted object removes our finalizer and is done, unless the update fails: then it comes back. No patch is sent. */
  lemma DeletionReleases(env: Env, site: Site, nc: Config, nn: Option<Namespace>, order: seq<string>)
    requires nc.deleting && !nc.provider.ProviderOther?
    ensures var run := Reconcile(env, site, nc, nn, order);
      && run.nc == nc.(finalizer := nc.finalizer && !env.finalizerOk)
      && run.requeue == (if env.finalizerOk then Never else Soon)
      && run.site.patches == site.patches
  {
  }

  /** Being deleted, and held by nobody but us. */
  ghost predicate Leaving(c: Cluster) {
    && c.nc.Some? && c.nc.value.deleting && c.nc.value.finalizer && !c.nc.value.provider.ProviderOther?
    && !c.others && c.inflight.None?
  }

  /** A reconcile of the object, in some order of its MACs. */
  ghost predicate IsAttempt(c: Cluster, a: Action)
    requires c.nc.Some?
  {
    a.Finish? && Enumerates(a.order, MacSet(c.nc.value.interfaces))
  }

  /** One attempt: the object is read and the reconcile runs. */
  ghost function Attempt(c: Cluster, a: Action): Cluster { Next(Next(c, Begin), a) }

  /** The attempt cleans up; the object is gone right after exactly if its finalizer could be removed, else it is as before. */
  lemma AttemptReleases(c: Cluster, a: Action)
    requires Leaving(c) && IsAttempt(c, a)
    ensures var c' := Attempt(c, a);
      && c'.inflight.None?
      && (a.env.finalizerOk ==> c'.nc.None? && c'.history == c.history + [CleanupRan, Gone])
      && (!a.env.finalizerOk ==> Leaving(c') && c'.nc == c.nc && c'.history == c.history + [CleanupRan])
  {
    var run := Reconcile(a.env, c.site, c.nc.value, a.nn, a.order);
    DeletionReleases(a.env, c.site, c.nc.value, a.nn, a.order);
    CleanupAddsNothing(a.env.fates, c.site.w, a.nn, a.order);
    AddsNeedFinalizer(a.env, c.site, c.nc.value, a.nn, a.order);
    assert !SentAdd(c.site.w, run.site.w);
    assert c.history + [] + [CleanupRan] + [Gone] == c.history + [CleanupRan, Gone];
    assert c.history + [] + [CleanupRan] == c.history + [CleanupRan];
  }

  /** Attempts until one of them removes the finalizer. */
  ghost function Attempts(c: Cluster, attempts: seq<Action>): Cluster {
    if attempts == [] then c else Attempt(Attempts(c, attempts[..|attempts| - 1]), attempts[|attempts| - 1])
  }

  function Cleanups(n: nat): seq<Event> { if n == 0 then [] else Cleanups(n - 1) + [CleanupRan] }

  /**
   A deleted object of ours, held by nobody else, goes exactly when an attempt gets to remove the finalizer. Every
   attempt before and including that one ran the cleanup, and the object is gone right after the last of them.
   */
  lemma DeletedObjectGoes(c: Cluster, attempts: seq<Action>, last: Action)
    requires Leaving(c) && IsAttempt(c, last)
    requires forall i :: 0 <= i < |attempts| ==> IsAttempt(c, attempts[i]) && !attempts[i].env.finalizerOk
    ensures var c' := Attempt(Attempts(c, attempts), last);
      && (c'.nc.None? <==> last.env.finalizerOk)
      && c'.history == c.history + Cleanups(|attempts|) + [CleanupRan] + (if last.env.finalizerOk then [Gone] else [])
  {
    FailedAttempts(c, attempts);
    AttemptReleases(Attempts(c, attempts), last);
  }

  lemma {:induction false} FailedAttempts(c: Cluster, attempts: seq<Action>)
    requires Leaving(c)
    requires forall i :: 0 <= i < |attempts| ==> IsAttempt(c, attempts[i]) && !attempts[i].env.finalizerOk
    ensures var c' := Attempts(c, attempts);
      Leaving(c') && c'.nc == c.nc && c'.history == c.history + Cleanups(|attempts|)
  {
    if attempts != [] {
      var n := |attempts| - 1;
      FailedAttempts(c, attempts[..n]);
      AttemptReleases(Attempts(c, attempts[..n]), attempts[n]);
    }
  }

  /** From the user's delete on: an idle object of ours that carries our finalizer is leaving; one that never did goes at once. */
  lemma DeleteStartsLeaving(c: Cluster)
    requires c.nc.Some? && !c.others && c.inflight.None? && !c.nc.value.provider.ProviderOther?
    ensures var c' := Next(c, Delete);
      if c.nc.value.finalizer then Leaving(c') && c'.history == c.history && c'.nc.value.interfaces == c.nc.value.interfaces
      else c'.nc.None? && c'.history == c.history + [Gone]
  {
  }

  /**
   The whole way out of a claimed object against a truthful Kea: deleted, read, reconciled, it is gone, the cleanup ran
   right before, and of its MACs no reservation is left in the subnet of its prefix; nothing else in the table changed.
   */
  lemma DeletedAndCleanedUp(c: Cluster, env: Env, nn: Namespace, order: seq<string>)
    requires c.nc.Some? && !c.others && c.inflight.None? && !c.nc.value.provider.ProviderOther? && c.nc.value.finalizer
    requires env.finalizerOk && Truthful(env.fates) && Enumerates(order, MacSet(c.nc.value.interfaces))
    requires FirstId(c.site.w.primary.subnets, nn.prefix).Some?
    ensures var end := Attempt(Next(c, Delete), Finish(env, Some(nn), order));
      && end.nc.None? && end.history == c.history + [CleanupRan, Gone]
      && end.site.w.primary.hosts ==
           Without(c.site.w.primary.hosts, MacSet(c.nc.value.interfaces), FirstId(c.site.w.primary.subnets, nn.prefix).value)
  {
    DeleteStartsLeaving(c);
    var mid := Next(c, Delete);
    AttemptReleases(mid, Finish(env, Some(nn), order));
    DeletionIgnoresTriage(env, mid.site, mid.nc.value, nn, order);
  }

  // ---------- An object that is never released ----------

  ghost predicate Stuck(c: Cluster) {
    && c.nc.Some? && c.nc.value.finalizer && c.nc.value.deleting && c.nc.value.provider.ProviderOther?
    && (c.inflight.Some? ==> c.inflight.value.provider.ProviderOther?)
  }

  ghost function LifeFrom(c: Cluster, actions: seq<Action>): Cluster {
    if actions == [] then c else Next(LifeFrom(c, actions[..|actions| - 1]), actions[|actions| - 1])
  }

  /**
   The provider check comes before the deletion check: once a claimed object names another provider and is being
   deleted, no run without a further edit ever removes our finalizer, so the object stays.
   */
  lemma {:induction false} OtherProviderIsNeverReleased(c: Cluster, actions: seq<Action>)
    requires Stuck(c) && forall i :: 0 <= i < |actions| ==> !actions[i].Edit?
    ensures Stuck(LifeFrom(c, actions))
  {
    if actions != [] {
      var n := |actions| - 1;
      OtherProviderIsNeverReleased(c, actions[..n]);
      var before := LifeFrom(c, actions[..n]);
      assert !actions[n].Edit?;
      if Enabled(before, actions[n]) && actions[n].Finish? {
        var run := Reconcile(actions[n].env, before.site, before.inflight.value, actions[n].nn, actions[n].order);
        assert run.verdict == NotOurs;
      }
    }
  }
}
