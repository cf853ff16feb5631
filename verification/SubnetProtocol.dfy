/**
 Any number of GetOrCreateSubnet calls running at once (internal/services/kea/service.go:176-210), in any
 number of processes, against one server. Each process holds one mutex per CIDR; every command is one atomic
 step whose delivery is chosen by the environment.
 */
module SubnetProtocol {
  import opened Text
  import opened KeaServer
  import opened Service

  datatype Outcome = Got(id: int, created: bool) | Failed

  /** Where a call stands: before the lock, inside it (four program points), or returned. */
  datatype Pc = Waiting | Locked | Missing | Chosen(id: int) | AddFailed | Done(outcome: Outcome)

  datatype Call = Call(process: nat, cfg: SubnetConfig, pc: Pc)

  /** `applied` logs the CIDR of every subnet4-add of a call that took effect. */
  datatype System = System(kea: Kea, calls: seq<Call>, applied: seq<string>)

  datatype Action =
    | Arrive(process: nat, cfg: SubnetConfig)
    | Enter(call: nat)
    | Move(call: nat, delivery: Delivery)
    | Foreign(subnet: Subnet)

  predicate Inside(pc: Pc) { pc.Locked? || pc.Missing? || pc.Chosen? || pc.AddFailed? }

  predicate SameLock(a: Call, b: Call) { a.process == b.process && a.cfg.cidr == b.cfg.cidr }

  function ReplyTo(k: Kea, c: Command, d: Delivery): Reply {
    match Heard(k, c, d) case Some(r) => r case None => NoReply(OtherFailure)
  }

  /** One step of a call that holds its lock. Returning releases the lock. */
  function Advance(k: Kea, call: Call, d: Delivery): (Kea, Pc)
    requires Inside(call.pc)
  {
    match call.pc
    case Locked => (
      match SubnetIdFrom(ReplyTo(k, SubnetList, d), call.cfg.cidr)
      case Ok(id) => (k, Done(Got(id, false)))
      case Err(why) => (k, if why == NoMatchingSubnet then Missing else Done(Failed)))
    case Missing =>
      if call.cfg.cidr == "" then (k, AddFailed)
      else if call.cfg.id > 0 then (k, Chosen(call.cfg.id))
      else (k, Chosen(NextIdFrom(ReplyTo(k, SubnetList, d))))
    case Chosen(id) =>
      var add := SubnetAdd(Document(call.cfg, id));
      (After(k, add, d), if ReplyTo(k, add, d).Answer? then Done(Got(id, true)) else AddFailed)
    case AddFailed => (
      match SubnetIdFrom(ReplyTo(k, SubnetList, d), call.cfg.cidr)
      case Ok(id) => (k, Done(Got(id, false)))
      case Err(_) => (k, Done(Failed)))
  }

  predicate Enabled(s: System, a: Action) {
    match a
    case Arrive(_, _) => true
    case Enter(i) =>
      && i < |s.calls| && s.calls[i].pc.Waiting?
      && forall j :: 0 <= j < |s.calls| && Inside(s.calls[j].pc) ==> !SameLock(s.calls[j], s.calls[i])
    case Move(i, _) => i < |s.calls| && Inside(s.calls[i].pc)
    case Foreign(_) => true
  }

  function Next(s: System, a: Action): System {
    if !Enabled(s, a) then s
    else match a
      case Arrive(p, cfg) => s.(calls := s.calls + [Call(p, cfg, Waiting)])
      case Enter(i) => s.(calls := s.calls[i := s.calls[i].(pc := Locked)])
      case Move(i, d) =>
        var (k, pc) := Advance(s.kea, s.calls[i], d);
        System(k, s.calls[i := s.calls[i].(pc := pc)],
               if k == s.kea then s.applied else s.applied + [s.calls[i].cfg.cidr])
      case Foreign(sub) => s.(kea := Apply(s.kea, SubnetAdd(sub)))
  }

  function Start(k: Kea): System { System(k, [], []) }

  /** Every sequence of actions is an interleaving; actions that are not enabled do nothing. */
  function Run(k: Kea, actions: seq<Action>): System {
    if actions == [] then Start(k) else Next(Run(k, actions[..|actions| - 1]), actions[|actions| - 1])
  }

  // ---------- What every step keeps ----------

  predicate MutualExclusion(calls: seq<Call>) {
    forall i, j :: 0 <= i < j < |calls| && Inside(calls[i].pc) && Inside(calls[j].pc) ==> !SameLock(calls[i], calls[j])
  }

  /** A returned id is the one the table lists for the CIDR. */
  predicate ReturnsListed(s: System) {
    forall i :: 0 <= i < |s.calls| && s.calls[i].pc.Done? && s.calls[i].pc.outcome.Got? ==>
      FirstId(s.kea.subnets, s.calls[i].cfg.cidr) == Some(s.calls[i].pc.outcome.id)
  }

  predicate AboutToAdd(pc: Pc) { pc.Missing? || pc.Chosen? }

  /** In one process: a call between its listing and its add knows that nobody else has added the CIDR. */
  predicate OneProcess(s: System, p: nat) {
    && MutualExclusion(s.calls)
    && ReturnsListed(s)
    && (forall i :: 0 <= i < |s.calls| ==> s.calls[i].process == p)
    && (forall i :: 0 <= i < |s.calls| && AboutToAdd(s.calls[i].pc) ==> FirstId(s.kea.subnets, s.calls[i].cfg.cidr).None?)
    && (forall i :: 0 <= i < |s.applied| ==> FirstId(s.kea.subnets, s.applied[i]).Some?)
    && (forall i, j :: 0 <= i < j < |s.applied| ==> s.applied[i] != s.applied[j])
  }

  predicate Bijective(subnets: seq<Subnet>) {
    forall i, j :: 0 <= i < j < |subnets| ==> !SubnetClash(subnets[i], subnets[j])
  }

  predicate Shared(s: System) {
    s.kea.uniqueSubnets && Bijective(s.kea.subnets) && MutualExclusion(s.calls) && ReturnsListed(s)
  }

  predicate InProcess(a: Action, p: nat) {
    !a.Foreign? && (a.Arrive? ==> a.process == p)
  }

  /** The table only ever grows at its end, so what it lists for a CIDR never changes. */
  lemma FirstIdStable(s: seq<Subnet>, x: Subnet)
    ensures forall c :: FirstId(s, c).Some? ==> FirstId(s + [x], c) == FirstId(s, c)
    ensures forall c :: FirstId(s, c).None? && x.cidr != c ==> FirstId(s + [x], c).None?
    ensures FirstId(s, x.cidr).None? ==> FirstId(s + [x], x.cidr) == Some(x.id)
  {
    forall c ensures FirstId(s + [x], c) ==
      if FirstId(s, c).Some? then FirstId(s, c) else if x.cidr == c then Some(x.id) else None
    {
      FirstIdAppend(s, x, c);
    }
  }

  /** What one step inside the lock does to the table and what it may return. */
  lemma AdvanceFacts(k: Kea, call: Call, d: Delivery)
    requires Inside(call.pc)
    ensures var (k', pc) := Advance(k, call, d);
      && (k' == k || (call.pc.Chosen? && k' == Apply(k, SubnetAdd(Document(call.cfg, call.pc.id))) && k' != k))
      && !pc.Waiting? && !pc.Locked?
      && (AboutToAdd(pc) ==> k' == k && (call.pc.Missing? || FirstId(k.subnets, call.cfg.cidr).None?))
      && (pc.Done? && pc.outcome.Got? ==>
            if pc.outcome.created
            then call.pc == Chosen(pc.outcome.id) && k' == k.(subnets := k.subnets + [Document(call.cfg, pc.outcome.id)])
            else k' == k && FirstId(k.subnets, call.cfg.cidr) == Some(pc.outcome.id))
  {
    FindIdIsFirst(k.subnets, call.cfg.cidr);
  }

  lemma OneProcessStep(s: System, a: Action, p: nat)
    requires OneProcess(s, p) && InProcess(a, p)
    ensures OneProcess(Next(s, a), p)
  {
    if Enabled(s, a) && a.Move? {
      var call := s.calls[a.call];
      AdvanceFacts(s.kea, call, a.delivery);
      var (k', pc) := Advance(s.kea, call, a.delivery);
      if k' != s.kea {
        var doc := Document(call.cfg, call.pc.id);
        assert FirstId(s.kea.subnets, call.cfg.cidr).None?;
        FirstIdStable(s.kea.subnets, doc);
        OtherCallsElsewhere(s, a.call, p);
      }
    }
  }

  /** Two calls about to add the same CIDR in one process would hold the same lock. */
  lemma OtherCallsElsewhere(s: System, i: nat, p: nat)
    requires OneProcess(s, p) && i < |s.calls| && Inside(s.calls[i].pc)
    ensures forall j :: 0 <= j < |s.calls| && j != i && AboutToAdd(s.calls[j].pc) ==> s.calls[j].cfg.cidr != s.calls[i].cfg.cidr
  {
    forall j | 0 <= j < |s.calls| && j != i && AboutToAdd(s.calls[j].pc)
      ensures s.calls[j].cfg.cidr != s.calls[i].cfg.cidr
    {
      assert !SameLock(s.calls[if i < j then i else j], s.calls[if i < j then j else i]);
    }
  }

  lemma SharedStep(s: System, a: Action)
    requires Shared(s)
    ensures Shared(Next(s, a))
  {
    if Enabled(s, a) && (a.Move? || a.Foreign?) {
      if a.Move? { AdvanceFacts(s.kea, s.calls[a.call], a.delivery); }
      var k' := Next(s, a).kea;
      if k' != s.kea {
        var doc := k'.subnets[|s.kea.subnets|];
        assert k'.subnets == s.kea.subnets + [doc] && AdmitsSubnet(s.kea, doc);
        FirstIdListed(s.kea.subnets, doc.cidr);
        FirstIdStable(s.kea.subnets, doc);
      }
    }
  }

  // ---------- Theorems over whole runs ----------

  lemma {:induction false} OneProcessRun(k: Kea, actions: seq<Action>, p: nat)
    requires forall i :: 0 <= i < |actions| ==> InProcess(actions[i], p)
    ensures OneProcess(Run(k, actions), p)
  {
    if actions != [] {
      var n := |actions| - 1;
      OneProcessRun(k, actions[..n], p);
      OneProcessStep(Run(k, actions[..n]), actions[n], p);
    }
  }

  /**
   In one process, over every interleaving with arbitrary delivery failures, at most one subnet4-add per CIDR
   takes effect, and all successful calls for a CIDR return the same id, even if the server would take duplicates.
   */
  lemma AtMostOneAddPerCidr(k: Kea, actions: seq<Action>, p: nat)
    requires forall i :: 0 <= i < |actions| ==> InProcess(actions[i], p)
    ensures var s := Run(k, actions);
      && (forall i, j :: 0 <= i < j < |s.applied| ==> s.applied[i] != s.applied[j])
      && (forall i, j :: 0 <= i < |s.calls| && 0 <= j < |s.calls| && Succeeded(s.calls[i]) && Succeeded(s.calls[j]) ==>
            (s.calls[i].cfg.cidr == s.calls[j].cfg.cidr ==> s.calls[i].pc.outcome.id == s.calls[j].pc.outcome.id))
  {
    OneProcessRun(k, actions, p);
  }

  predicate Succeeded(c: Call) { c.pc.Done? && c.pc.outcome.Got? }

  lemma {:induction false} SharedRun(k: Kea, actions: seq<Action>)
    requires k.uniqueSubnets && Bijective(k.subnets)
    ensures Shared(Run(k, actions))
  {
    if actions != [] {
      var n := |actions| - 1;
      SharedRun(k, actions[..n]);
      SharedStep(Run(k, actions[..n]), actions[n]);
    }
  }

  lemma BijectiveIds(subnets: seq<Subnet>, c1: string, c2: string)
    requires Bijective(subnets) && FirstId(subnets, c1).Some? && FirstId(subnets, c2).Some?
    ensures c1 == c2 <==> FirstId(subnets, c1) == FirstId(subnets, c2)
  {
    FirstIdListed(subnets, c1);
    FirstIdListed(subnets, c2);
    var i :| 0 <= i < |subnets| && subnets[i].cidr == c1 && subnets[i].id == FirstId(subnets, c1).value;
    var j :| 0 <= j < |subnets| && subnets[j].cidr == c2 && subnets[j].id == FirstId(subnets, c2).value;
    if c1 != c2 {
      assert !SubnetClash(subnets[if i < j then i else j], subnets[if i < j then j else i]);
    }
  }

  /**
   With any number of processes and foreign writers, against a server that refuses a second id or CIDR: the
   table stays one-to-one, and two successful calls return the same id exactly when they asked for the same CIDR,
   although different CIDRs hold different locks and may choose the same id.
   */
  lemma IdsMatchCidrs(k: Kea, actions: seq<Action>)
    requires k.uniqueSubnets && Bijective(k.subnets)
    ensures var s := Run(k, actions);
      && Bijective(s.kea.subnets)
      && (forall i, j :: 0 <= i < |s.calls| && 0 <= j < |s.calls| && Succeeded(s.calls[i]) && Succeeded(s.calls[j]) ==>
            (s.calls[i].cfg.cidr == s.calls[j].cfg.cidr <==> s.calls[i].pc.outcome.id == s.calls[j].pc.outcome.id))
  {
    SharedRun(k, actions);
    var s := Run(k, actions);
    forall i, j | 0 <= i < |s.calls| && 0 <= j < |s.calls| && Succeeded(s.calls[i]) && Succeeded(s.calls[j])
      ensures s.calls[i].cfg.cidr == s.calls[j].cfg.cidr <==> s.calls[i].pc.outcome.id == s.calls[j].pc.outcome.id
    {
      BijectiveIds(s.kea.subnets, s.calls[i].cfg.cidr, s.calls[j].cfg.cidr);
    }
  }

  /** The locks alone do not keep ids apart: two CIDRs on a server that takes duplicates can both be given id 1. */
  lemma LocksAloneDoNotSeparateIds(a: SubnetConfig, b: SubnetConfig)
    requires a.cidr != b.cidr && a.cidr != "" && b.cidr != "" && a.id <= 0 && b.id <= 0
    ensures exists actions :: var s := Run(Kea([], [], [], false, false), actions);
      |s.calls| == 2 && s.calls[0].pc == Done(Got(1, true)) && s.calls[1].pc == Done(Got(1, true))
  {
    var k := Kea([], [], [], false, false);
    var locked := ReachLocked(k, a, b);
    BothMove(k, a, b, locked, Locked, Missing);
    var missing := locked + [Move(0, Answered)] + [Move(1, Answered)];
    BothMove(k, a, b, missing, Missing, Chosen(1));
    BothAdd(k, a, b, missing + [Move(0, Answered)] + [Move(1, Answered)]);
  }

  lemma ReachLocked(k: Kea, a: SubnetConfig, b: SubnetConfig) returns (locked: seq<Action>)
    requires a.cidr != b.cidr
    ensures Run(k, locked) == Pair(k, a, b, Locked)
  {
    var first, arrived := [] + [Arrive(0, a)], [] + [Arrive(0, a)] + [Arrive(0, b)];
    RunAppend(k, [], Arrive(0, a));
    RunAppend(k, first, Arrive(0, b));
    assert Run(k, arrived) == Pair(k, a, b, Waiting);
    RunAppend(k, arrived, Enter(0));
    RunAppend(k, arrived + [Enter(0)], Enter(1));
    PairEnters(k, a, b);
    locked := arrived + [Enter(0)] + [Enter(1)];
  }

  function Pair(k: Kea, a: SubnetConfig, b: SubnetConfig, pc: Pc): System {
    System(k, [Call(0, a, pc), Call(0, b, pc)], [])
  }

  lemma RunAppend(k: Kea, actions: seq<Action>, a: Action)
    ensures Run(k, actions + [a]) == Next(Run(k, actions), a)
  {
    assert (actions + [a])[..|actions|] == actions;
  }

  lemma PairEnters(k: Kea, a: SubnetConfig, b: SubnetConfig)
    requires a.cidr != b.cidr
    ensures Next(Next(Pair(k, a, b, Waiting), Enter(0)), Enter(1)) == Pair(k, a, b, Locked)
  {
  }

  lemma BothMove(k: Kea, a: SubnetConfig, b: SubnetConfig, before: seq<Action>, from: Pc, to: Pc)
    requires k.subnets == [] && a.cidr != "" && b.cidr != "" && a.id <= 0 && b.id <= 0
    requires (from == Locked && to == Missing) || (from == Missing && to == Chosen(1))
    requires Run(k, before) == Pair(k, a, b, from)
    ensures Run(k, before + [Move(0, Answered)] + [Move(1, Answered)]) == Pair(k, a, b, to)
  {
    RunAppend(k, before, Move(0, Answered));
    RunAppend(k, before + [Move(0, Answered)], Move(1, Answered));
    assert Advance(k, Call(0, a, from), Answered) == (k, to);
    assert Advance(k, Call(0, b, from), Answered) == (k, to);
  }

  lemma BothAdd(k: Kea, a: SubnetConfig, b: SubnetConfig, before: seq<Action>)
    requires !k.uniqueSubnets && Run(k, before) == Pair(k, a, b, Chosen(1))
    ensures var s := Run(k, before + [Move(0, Answered)] + [Move(1, Answered)]);
      |s.calls| == 2 && s.calls[0].pc == Done(Got(1, true)) && s.calls[1].pc == Done(Got(1, true))
  {
    RunAppend(k, before, Move(0, Answered));
    RunAppend(k, before + [Move(0, Answered)], Move(1, Answered));
    var s := Next(Pair(k, a, b, Chosen(1)), Move(0, Answered));
    assert s.calls == [Call(0, a, Done(Got(1, true))), Call(0, b, Chosen(1))];
  }

  // ---------- Progress ----------

  function Rank(pc: Pc): nat {
    match pc
    case Waiting => 5 case Locked => 4 case Missing => 3 case Chosen(_) => 2 case AddFailed => 1 case Done(_) => 0
  }

  /** No deadlock: while a call has not returned, some call can step. */
  lemma SomeCallCanStep(s: System, i: nat, d: Delivery)
    requires i < |s.calls| && !s.calls[i].pc.Done?
    ensures exists j :: 0 <= j < |s.calls| && (Enabled(s, Enter(j)) || Enabled(s, Move(j, d)))
  {
    if exists j :: 0 <= j < |s.calls| && Inside(s.calls[j].pc) {
      var j :| 0 <= j < |s.calls| && Inside(s.calls[j].pc);
      assert Enabled(s, Move(j, d));
    } else {
      assert Enabled(s, Enter(i));
    }
  }

  function TotalRank(calls: seq<Call>): nat {
    if calls == [] then 0 else Rank(calls[0].pc) + TotalRank(calls[1..])
  }

  lemma {:induction false} TotalRankUpdate(calls: seq<Call>, i: nat, c: Call)
    requires i < |calls|
    ensures TotalRank(calls[i := c]) == TotalRank(calls) - Rank(calls[i].pc) + Rank(c.pc)
  {
    if i == 0 {
      assert calls[i := c][1..] == calls[1..];
    } else {
      assert calls[i := c][1..] == calls[1..][i - 1 := c];
      TotalRankUpdate(calls[1..], i - 1, c);
    }
  }

  /** Every step of a call uses up rank, so without new arrivals all calls return after finitely many steps. */
  lemma StepsUseUpRank(s: System, a: Action)
    requires Enabled(s, a) && (a.Enter? || a.Move?)
    ensures TotalRank(Next(s, a).calls) < TotalRank(s.calls)
  {
    var i := a.call;
    var c := Next(s, a).calls[i];
    assert Next(s, a).calls == s.calls[i := c];
    TotalRankUpdate(s.calls, i, c);
  }

  // ---------- A call running alone ----------

  predicate Sends(call: Call) {
    !call.pc.Missing? || (call.cfg.cidr != "" && call.cfg.id <= 0)
  }

  /** A call that holds its lock, stepped to its return with nobody else moving. */
  function RunAlone(k: Kea, call: Call, fates: Fates, n: nat): (Kea, Outcome)
    requires Inside(call.pc) || call.pc.Done?
    decreases Rank(call.pc)
  {
    if call.pc.Done? then (k, call.pc.outcome)
    else
      var (k', pc) := Advance(k, call, fates(n).primary);
      RunAlone(k', call.(pc := pc), fates, if Sends(call) then n + 1 else n)
  }

  function OutcomeOf(r: Result<Resolved>): Outcome {
    if r.Ok? then Got(r.value.id, r.value.created) else Failed
  }

  /** The stepwise call, undisturbed, is GetOrCreateSubnet: same outcome, same table. */
  lemma AloneIsGetOrCreate(fates: Fates, w: World, cfg: SubnetConfig, p: nat)
    requires w.secondary.None?
    ensures var (w', r) := GetOrCreateSubnet(fates, w, cfg);
      RunAlone(w.primary, Call(p, cfg, Locked), fates, |w.sent|) == (w'.primary, OutcomeOf(r))
  {
    var n := |w.sent|;
    SameReply(fates, w, SubnetList);
    var (w1, found) := GetSubnetId(fates, w, cfg.cidr);
    if found == Err(NoMatchingSubnet) {
      AloneCreate(fates, w1, cfg, p);
    }
  }

  lemma SameReply(fates: Fates, w: World, c: Command)
    requires w.secondary.None?
    ensures var (w', r) := Send(fates, w, c);
      var r' := ReplyTo(w.primary, c, fates(|w.sent|).primary);
      && w'.primary == After(w.primary, c, fates(|w.sent|).primary) && w'.secondary.None? && |w'.sent| == |w.sent| + 1
      && (r == r' || (r.NoReply? && r'.NoReply?))
      && (c.SubnetList? ==> w'.primary == w.primary)
      && r != NoReply(NoMatchingSubnet) && r != Refusal(NoMatchingSubnet)
  {
  }

  lemma AloneCreate(fates: Fates, w: World, cfg: SubnetConfig, p: nat)
    requires w.secondary.None?
    ensures var (w2, made) := CreateSubnet(fates, w, cfg);
      var (w3, again) := GetSubnetId(fates, w2, cfg.cidr);
      RunAlone(w.primary, Call(p, cfg, Missing), fates, |w.sent|) ==
        if made.Ok? then (w2.primary, Got(made.value, true))
        else (w3.primary, if again.Ok? then Got(again.value, false) else Failed)
  {
    var call := Call(p, cfg, Missing);
    if cfg.cidr == "" {
      AloneRelist(fates, w, cfg, p);
    } else {
      SameReply(fates, w, SubnetList);
      var w1 := if cfg.id > 0 then w else Send(fates, w, SubnetList).0;
      var id := if cfg.id > 0 then cfg.id else NextIdFrom(Send(fates, w, SubnetList).1);
      AloneAdd(fates, w1, cfg, id, p);
    }
  }

  lemma AloneAdd(fates: Fates, w: World, cfg: SubnetConfig, id: int, p: nat)
    requires w.secondary.None?
    ensures var (w2, r) := Send(fates, w, SubnetAdd(Document(cfg, id)));
      var (w3, again) := GetSubnetId(fates, w2, cfg.cidr);
      RunAlone(w.primary, Call(p, cfg, Chosen(id)), fates, |w.sent|) ==
        if r.Answer? then (w2.primary, Got(id, true))
        else (w3.primary, if again.Ok? then Got(again.value, false) else Failed)
  {
    SameReply(fates, w, SubnetAdd(Document(cfg, id)));
    AloneRelist(fates, Send(fates, w, SubnetAdd(Document(cfg, id))).0, cfg, p);
  }

  lemma AloneRelist(fates: Fates, w: World, cfg: SubnetConfig, p: nat)
    requires w.secondary.None?
    ensures var (w3, again) := GetSubnetId(fates, w, cfg.cidr);
      RunAlone(w.primary, Call(p, cfg, AddFailed), fates, |w.sent|) ==
        (w3.primary, if again.Ok? then Got(again.value, false) else Failed)
  {
    SameReply(fates, w, SubnetList);
  }
}
