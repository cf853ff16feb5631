/**
 The Kea operations the controller uses (internal/services/kea/service.go), as functions of the world they
 start in and the fates of the commands they send.
 */
module Service {
  import opened Text
  import opened KeaServer

  datatype SubnetConfig = SubnetConfig(cidr: string, id: int, gateway: string, dns: seq<string>,
                                       poolStart: string, poolEnd: string, validLife: int,
                                       renewTimer: int, rebindTimer: int, classes: seq<string>)

  datatype Resolved = Resolved(id: int, created: bool)
  datatype SubnetInfo = SubnetInfo(id: int, cidr: string, gateway: string, dns: seq<string>)

  /** An address found for a MAC; the empty address stands for "no lease found". */
  datatype Found = Found(ip: string, subnetId: int)

  function Canon(mac: string): string { Lower(TrimSpace(mac)) }

  // ---------- Subnets ----------

  function FindId(entries: seq<SubnetEntry>, cidr: string): Option<int> {
    if entries == [] then None
    else if entries[0].SubnetEntry? && entries[0].cidr == cidr && entries[0].id.Some? then entries[0].id
    else FindId(entries[1..], cidr)
  }

  function EntryId(e: SubnetEntry): int {
    if e.SubnetEntry? && e.id.Some? then e.id.value else 0
  }

  function MaxId(entries: seq<SubnetEntry>): (m: nat)
    ensures forall i :: 0 <= i < |entries| ==> EntryId(entries[i]) <= m
    ensures m == 0 || exists i :: 0 <= i < |entries| && EntryId(entries[i]) == m
  {
    if entries == [] then 0
    else
      var n := |entries| - 1;
      var m := MaxId(entries[..n]);
      assert forall i :: 0 <= i < n ==> entries[..n][i] == entries[i];
      if EntryId(entries[n]) > m then EntryId(entries[n]) else m
  }

  function SubnetIdFrom(r: Reply, cidr: string): Result<int> {
    match r
    case NoReply(why) => Err(why)
    case Refusal(why) => Err(why)
    case Answer(Subnets(entries)) =>
      (match FindId(entries, cidr) case Some(id) => Ok(id) case None => Err(NoMatchingSubnet))
    case Answer(_) => Err(OtherFailure)
  }

  function NextIdFrom(r: Reply): int {
    match r
    case Answer(Subnets(entries)) => MaxId(entries) + 1
    case _ => 1
  }

  function GetSubnetId(fates: Fates, w: World, cidr: string): (World, Result<int>) {
    var (w1, r) := Send(fates, w, SubnetList);
    (w1, SubnetIdFrom(r, cidr))
  }

  function OptionsFor(gateway: string, dns: seq<string>): seq<DhcpOption> {
    (if gateway != "" then [DhcpOption(3, gateway)] else []) +
    (if dns != [] then [DhcpOption(6, Join(dns, ", "))] else [])
  }

  /** The subnet4 document that CreateSubnet sends. */
  function Document(cfg: SubnetConfig, id: int): Subnet {
    Subnet(id, cfg.cidr,
           if cfg.validLife > 0 then cfg.validLife else 4000,
           if cfg.renewTimer > 0 then cfg.renewTimer else 0,
           if cfg.rebindTimer > 0 then cfg.rebindTimer else 0,
           if cfg.poolStart != "" && cfg.poolEnd != "" then [PoolRange(cfg.poolStart, cfg.poolEnd, cfg.classes)] else [],
           OptionsFor(cfg.gateway, cfg.dns))
  }

  function CreatedFrom(r: Reply, id: int): Result<int> {
    match r
    case NoReply(why) => Err(why)
    case Refusal(why) => Err(why)
    case Answer(_) => Ok(id)
  }

  function CreateSubnet(fates: Fates, w: World, cfg: SubnetConfig): (World, Result<int>) {
    if cfg.cidr == "" then (w, Err(OtherFailure))
    else if cfg.id > 0 then
      var (w1, r) := Send(fates, w, SubnetAdd(Document(cfg, cfg.id)));
      (w1, CreatedFrom(r, cfg.id))
    else
      var (w1, listed) := Send(fates, w, SubnetList);
      var id := NextIdFrom(listed);
      var (w2, r) := Send(fates, w1, SubnetAdd(Document(cfg, id)));
      (w2, CreatedFrom(r, id))
  }

  function GetOrCreateSubnet(fates: Fates, w: World, cfg: SubnetConfig): (World, Result<Resolved>) {
    var (w1, found) := GetSubnetId(fates, w, cfg.cidr);
    match found
    case Ok(id) => (w1, Ok(Resolved(id, false)))
    case Err(why) =>
      if why != NoMatchingSubnet then (w1, Err(why))
      else
        var (w2, made) := CreateSubnet(fates, w1, cfg);
        match made
        case Ok(id) => (w2, Ok(Resolved(id, true)))
        case Err(createErr) =>
          var (w3, again) := GetSubnetId(fates, w2, cfg.cidr);
          (w3, if again.Ok? then Ok(Resolved(again.value, false)) else Err(createErr))
  }

  // ---------- Subnet details ----------

  function DnsFields(pieces: seq<string>): seq<string> {
    if pieces == [] then []
    else (if TrimSpace(pieces[0]) != "" then [TrimSpace(pieces[0])] else []) + DnsFields(pieces[1..])
  }

  datatype Routing = Routing(gateway: string, dns: seq<string>)

  function ReadOption(r: Routing, e: OptionEntry): Routing {
    if e.OptionEntry? && e.code == 3 && e.data != "" then r.(gateway := e.data)
    else if e.OptionEntry? && e.code == 6 && e.data != "" then r.(dns := r.dns + DnsFields(Split(e.data, ',')))
    else r
  }

  function ReadOptions(entries: seq<OptionEntry>): Routing {
    if entries == [] then Routing("", [])
    else ReadOption(ReadOptions(entries[..|entries| - 1]), entries[|entries| - 1])
  }

  function InfoFrom(r: Reply, id: int): Result<SubnetInfo> {
    match r
    case NoReply(why) => Err(why)
    case Refusal(why) => Err(why)
    case Answer(Details(details)) =>
      if details == [] || details[0].JunkDetail? then Err(OtherFailure)
      else
        var routing := ReadOptions(details[0].options);
        Ok(SubnetInfo(id, details[0].cidr, routing.gateway, routing.dns))
    case Answer(_) => Err(OtherFailure)
  }

  function GetSubnetInfo(fates: Fates, w: World, id: int): (World, Result<SubnetInfo>) {
    var (w1, r) := Send(fates, w, SubnetGet(id));
    (w1, InfoFrom(r, id))
  }

  // ---------- Reservations ----------

  predicate EntryMatches(e: HostEntry, mac: string, sid: int) {
    e.HostEntry? && e.hw.Some? && EqualFold(e.hw.value, mac) && (e.subnetId.Some? ==> e.subnetId.value == sid)
  }

  /** What the by-id answer settles; None sends the caller to the fallback query. */
  function ByIdVerdict(r: Reply, mac: string, sid: int): Option<bool> {
    match r
    case Answer(Hosts(entries)) => Some(exists i :: 0 <= i < |entries| && EntryMatches(entries[i], mac, sid))
    case Answer(_) => Some(false)
    case Refusal(Absent) => Some(false)
    case _ => None
  }

  function ScanVerdict(r: Reply, mac: string): bool {
    match r
    case Answer(Hosts(entries)) =>
      exists i :: 0 <= i < |entries| && entries[i].HostEntry? && entries[i].hw.Some? && EqualFold(entries[i].hw.value, mac)
    case _ => false
  }

  function MacReservationExists(fates: Fates, w: World, mac: string, sid: int): (World, bool) {
    var m := Canon(mac);
    if m == "" then (w, false)
    else
      var (w1, r1) := Send(fates, w, ReservationById(m));
      match ByIdVerdict(r1, m, sid)
      case Some(verdict) => (w1, verdict)
      case None =>
        var (w2, r2) := Send(fates, w1, ReservationAll(sid));
        (w2, ScanVerdict(r2, m))
  }

  function AddedFrom(r: Reply): Result<bool> {
    match r
    case NoReply(why) => Err(why)
    case Refusal(why) => Err(why)
    case Answer(_) => Ok(true)
  }

  /** Ok(created) or an error. */
  function EnsureReservation(fates: Fates, w: World, mac: string, sid: int, ip: string): (World, Result<bool>) {
    var m := Canon(mac);
    if m == "" then (w, Err(OtherFailure))
    else
      var (w1, exists_) := MacReservationExists(fates, w, m, sid);
      if exists_ then (w1, Ok(false))
      else
        var (w2, r) := Send(fates, w1, ReservationAdd(Host(m, sid, TrimSpace(ip))));
        (w2, AddedFrom(r))
  }

  function DeleteReservation(fates: Fates, w: World, mac: string, sid: int): World {
    if Canon(mac) == "" then w else Send(fates, w, ReservationDel(Canon(mac), sid)).0
  }

  // ---------- Leases ----------

  predicate LeaseMatches(e: LeaseEntry, mac: string) {
    e.LeaseEntry? && EqualFold(TrimSpace(e.hw), mac) && e.ip != ""
  }

  /** The first matching lease with the largest cltt. */
  function BestLease(entries: seq<LeaseEntry>, mac: string): (r: Option<nat>)
    ensures r.Some? ==> r.value < |entries| && LeaseMatches(entries[r.value], mac)
  {
    if entries == [] then None
    else
      var n := |entries| - 1;
      var best := BestLease(entries[..n], mac);
      if LeaseMatches(entries[n], mac) && (best.None? || entries[n].cltt > entries[best.value].cltt) then Some(n) else best
  }

  function LeaseFrom(r: Reply, mac: string): Found {
    match r
    case Answer(Leases(entries)) =>
      (match BestLease(entries, mac) case Some(i) => Found(entries[i].ip, entries[i].subnetId) case None => Found("", 0))
    case Answer(OneLease(e)) => if e.LeaseEntry? && e.ip != "" then Found(e.ip, e.subnetId) else Found("", 0)
    case _ => Found("", 0)
  }

  predicate Addressed(e: HostEntry) { e.HostEntry? && e.ip != "" }

  function FirstAddress(entries: seq<HostEntry>): Found {
    if entries == [] then Found("", 0)
    else if entries[0].HostEntry? && entries[0].ip != "" then
      Found(entries[0].ip, if entries[0].subnetId.Some? then entries[0].subnetId.value else 0)
    else FirstAddress(entries[1..])
  }

  function AddressFrom(r: Reply): Found {
    match r
    case Answer(Hosts(entries)) => FirstAddress(entries)
    case _ => Found("", 0)
  }

  function GetLease(fates: Fates, w: World, mac: string): (World, Found) {
    var m := Canon(mac);
    if m == "" then (w, Found("", 0))
    else
      var (w1, r1) := Send(fates, w, LeaseByMac(m));
      if LeaseFrom(r1, m).ip != "" then (w1, LeaseFrom(r1, m))
      else
        var (w2, r2) := Send(fates, w1, ReservationById(m));
        (w2, AddressFrom(r2))
  }

  // ---------- Listings ----------

  lemma CanonFixed(mac: string)
    ensures Canon(Canon(mac)) == Canon(mac) && Lower(Canon(mac)) == Canon(mac)
  {
    LowerIdempotent(TrimSpace(mac));
    TrimFacts(mac);
    forall c ensures IsSpace(LowerChar(c)) <==> IsSpace(c) {}
    TrimMap(LowerChar, TrimSpace(mac));
    TrimFacts(TrimSpace(mac));
  }

  /** On a truthful listing the scan finds the first subnet with the CIDR. */
  lemma {:induction false} FindIdIsFirst(subnets: seq<Subnet>, cidr: string)
    ensures FindId(ListSubnets(subnets), cidr) == FirstId(subnets, cidr)
  {
    if subnets != [] {
      assert ListSubnets(subnets)[1..] == ListSubnets(subnets[1..]);
      FindIdIsFirst(subnets[1..], cidr);
    }
  }

  lemma {:induction false} ListSubnetsAt(subnets: seq<Subnet>)
    ensures |ListSubnets(subnets)| == |subnets|
    ensures forall i :: 0 <= i < |subnets| ==> ListSubnets(subnets)[i] == SubnetEntry(subnets[i].cidr, Some(subnets[i].id))
  {
    if subnets != [] { ListSubnetsAt(subnets[1..]); }
  }

  /** The id chosen from a truthful listing is positive and larger than every id in use. */
  lemma NextIdIsFree(subnets: seq<Subnet>)
    ensures var id := NextIdFrom(Answer(Subnets(ListSubnets(subnets))));
      id >= 1 && forall i :: 0 <= i < |subnets| ==> subnets[i].id < id
  {
    ListSubnetsAt(subnets);
    var entries := ListSubnets(subnets);
    forall i | 0 <= i < |subnets| ensures subnets[i].id < MaxId(entries) + 1 {
      assert EntryId(entries[i]) <= MaxId(entries);
    }
  }

  // ---------- Get or create, one caller ----------

  /** A successful lookup is listed on the peer that answered it. */
  lemma SubnetIdIsListed(fates: Fates, w: World, cidr: string)
    ensures var (w', r) := GetSubnetId(fates, w, cidr);
      && w'.primary == w.primary && w'.secondary == w.secondary
      && (r.Ok? ==> w'.current.Some? && FirstId(CurrentKea(w').subnets, cidr) == Some(r.value))
      && (r == Err(NoMatchingSubnet) ==> w'.current.Some? && FirstId(CurrentKea(w').subnets, cidr) == None)
  {
    var (w', r) := Send(fates, w, SubnetList);
    SendEffect(fates, w, SubnetList);
    if r.Answer? {
      AnswerIsTrue(fates, w, SubnetList);
      FindIdIsFirst(CurrentKea(w').subnets, cidr);
    }
  }

  /** Whatever the failures and failovers: a subnet reported as resolved or created is held by the peer that answered last. */
  lemma ResolvedIsHeld(fates: Fates, w: World, cfg: SubnetConfig)
    ensures var (w', r) := GetOrCreateSubnet(fates, w, cfg);
      r.Ok? ==>
        && w'.current.Some?
        && (exists s :: s in CurrentKea(w').subnets && s.cidr == cfg.cidr && s.id == r.value.id)
        && (r.value.created ==>
              && |w'.sent| > |w.sent| && w'.sent[|w'.sent| - 1] == SubnetAdd(Document(cfg, r.value.id))
              && Document(cfg, r.value.id) in CurrentKea(w').subnets)
        && (!r.value.created ==> FirstId(CurrentKea(w').subnets, cfg.cidr) == Some(r.value.id))
  {
    var (w', r) := GetOrCreateSubnet(fates, w, cfg);
    if r.Ok? {
      var (w1, found) := GetSubnetId(fates, w, cfg.cidr);
      SubnetIdIsListed(fates, w, cfg.cidr);
      SendEffect(fates, w, SubnetList);
      if found.Err? {
        var (w2, made) := CreateSubnet(fates, w1, cfg);
        if made.Ok? {
          CreatedIsHeld(fates, w1, cfg);
        } else {
          SubnetIdIsListed(fates, w2, cfg.cidr);
        }
      }
      FirstIdListed(CurrentKea(w').subnets, cfg.cidr);
    }
  }

  lemma CreatedIsHeld(fates: Fates, w: World, cfg: SubnetConfig)
    requires CreateSubnet(fates, w, cfg).1.Ok?
    ensures var (w', r) := CreateSubnet(fates, w, cfg);
      && w'.current.Some?
      && |w'.sent| > |w.sent| && w'.sent[|w'.sent| - 1] == SubnetAdd(Document(cfg, r.value))
      && Document(cfg, r.value) in CurrentKea(w').subnets
  {
    var w1 := if cfg.id > 0 then w else Send(fates, w, SubnetList).0;
    var id := if cfg.id > 0 then cfg.id else NextIdFrom(Send(fates, w, SubnetList).1);
    SendEffect(fates, w, SubnetList);
    SendEffect(fates, w1, SubnetAdd(Document(cfg, id)));
    AnswerIsTrue(fates, w1, SubnetAdd(Document(cfg, id)));
  }

  /** With a truthful server the call always succeeds, and it creates exactly when the CIDR was not listed. */
  lemma TruthfulGetOrCreate(fates: Fates, w: World, cfg: SubnetConfig)
    requires Truthful(fates) && cfg.cidr != "" && cfg.id <= 0
    ensures var (w', r) := GetOrCreateSubnet(fates, w, cfg);
      && r.Ok?
      && w'.secondary == w.secondary && w'.current == Some(Primary)
      && (r.value.created <==> FirstId(w.primary.subnets, cfg.cidr).None?)
      && w'.primary == (if r.value.created then w.primary.(subnets := w.primary.subnets + [Document(cfg, r.value.id)])
                        else w.primary)
      && FirstId(w'.primary.subnets, cfg.cidr) == Some(r.value.id)
      && (!r.value.created ==> w'.sent == w.sent + [SubnetList])
  {
    var subnets := w.primary.subnets;
    TruthfulSend(fates, w, SubnetList);
    FindIdIsFirst(subnets, cfg.cidr);
    if FirstId(subnets, cfg.cidr).None? {
      var w1 := Send(fates, w, SubnetList).0;
      TruthfulSend(fates, w1, SubnetList);
      var w2 := Send(fates, w1, SubnetList).0;
      var id := NextIdFrom(TrueAnswer(w.primary, SubnetList));
      var doc := Document(cfg, id);
      TruthfulSend(fates, w2, SubnetAdd(doc));
      NextIdIsFree(subnets);
      FirstIdListed(subnets, cfg.cidr);
      assert AdmitsSubnet(w.primary, doc);
      FirstIdAppend(subnets, doc, cfg.cidr);
    }
  }

  // ---------- What get-or-create sends ----------

  /** Only an answered listing without the CIDR counts as "no matching subnet". */
  lemma NoMatchingOnlyFromListing(r: Reply, cidr: string)
    requires r.Answer? || r.why != NoMatchingSubnet
    ensures SubnetIdFrom(r, cidr) == Err(NoMatchingSubnet) <==>
      r.Answer? && r.args.Subnets? && forall i :: 0 <= i < |r.args.subnets| ==>
        var e := r.args.subnets[i]; e.SubnetEntry? && e.cidr == cidr ==> e.id.None?
  {
    if r.Answer? && r.args.Subnets? { FindIdMisses(r.args.subnets, cidr); }
  }

  lemma {:induction false} FindIdMisses(entries: seq<SubnetEntry>, cidr: string)
    ensures FindId(entries, cidr).None? <==> forall i :: 0 <= i < |entries| ==>
      var e := entries[i]; e.SubnetEntry? && e.cidr == cidr ==> e.id.None?
  {
    if entries != [] { FindIdMisses(entries[1..], cidr); }
  }

  /** The id that goes into a subnet4-add: the given one, or one above everything listed, or 1 if nothing could be listed. */
  ghost predicate IsChosenId(cfg: SubnetConfig, w: World, fates: Fates, id: int) {
    var (w1, listed) := Send(fates, w, SubnetList);
    if cfg.id > 0 then id == cfg.id
    else if !listed.Answer? then id == 1
    else
      && id >= 1 && (forall s :: s in CurrentKea(w1).subnets ==> s.id < id)
      && (id == 1 || exists s :: s in CurrentKea(w1).subnets && s.id == id - 1)
  }

  /** CreateSubnet sends one subnet4-add, of the chosen id, and returns that id only if some peer took it; without a CIDR it does nothing. */
  lemma CreateSends(fates: Fates, w: World, cfg: SubnetConfig) returns (id: int)
    ensures var (w', r) := CreateSubnet(fates, w, cfg);
      if cfg.cidr == "" then w' == w && r.Err?
      else
        && IsChosenId(cfg, w, fates, id)
        && w'.sent == w.sent + (if cfg.id > 0 then [] else [SubnetList]) + [SubnetAdd(Document(cfg, id))]
        && (r.Ok? ==> r.value == id && Document(cfg, id) in CurrentKea(w').subnets)
  {
    var (w1, listed) := Send(fates, w, SubnetList);
    SendEffect(fates, w, SubnetList);
    id := if cfg.id > 0 then cfg.id else NextIdFrom(listed);
    SendEffect(fates, if cfg.id > 0 then w else w1, SubnetAdd(Document(cfg, id)));
    if CreateSubnet(fates, w, cfg).1.Ok? { CreatedIsHeld(fates, w, cfg); }
    if listed.Answer? {
      AnswerIsTrue(fates, w, SubnetList);
      NextIdIsNext(CurrentKea(w1).subnets);
    }
  }

  lemma NextIdIsNext(subnets: seq<Subnet>)
    ensures var id := NextIdFrom(Answer(Subnets(ListSubnets(subnets))));
      && id >= 1 && (forall s :: s in subnets ==> s.id < id)
      && (id == 1 || exists s :: s in subnets && s.id == id - 1)
  {
    NextIdIsFree(subnets);
    ListSubnetsAt(subnets);
    var entries := ListSubnets(subnets);
    if MaxId(entries) != 0 {
      var i :| 0 <= i < |entries| && EntryId(entries[i]) == MaxId(entries);
      assert subnets[i] in subnets && subnets[i].id == MaxId(entries);
    }
  }

  /**
   Nothing is created blindly, and no failure is reported without a last look. A subnet4-add is sent only after an
   answered listing without the CIDR; an error means that the last command was a listing that did not show the CIDR,
   and once an add was tried it is the add's own error.
   */
  lemma CreatesOnlyUnlisted(fates: Fates, w: World, cfg: SubnetConfig)
    ensures var (w1, found) := GetSubnetId(fates, w, cfg.cidr);
      var (w', r) := GetOrCreateSubnet(fates, w, cfg);
      && |w'.sent| > |w.sent|
      && (found != Err(NoMatchingSubnet) ==> w' == w1)
      && (w' != w1 ==> w1.current.Some? && FirstId(CurrentKea(w1).subnets, cfg.cidr).None?)
      && (r.Err? ==> w'.sent[|w'.sent| - 1] == SubnetList)
      && (r.Err? ==> r.why == (if w' == w1 then found.why else CreateSubnet(fates, w1, cfg).1.why))
  {
    var (w1, found) := GetSubnetId(fates, w, cfg.cidr);
    SubnetIdIsListed(fates, w, cfg.cidr);
    SendEffect(fates, w, SubnetList);
    var w2 := CreateSubnet(fates, w1, cfg).0;
    SendEffect(fates, w2, SubnetList);
    var _ := CreateSends(fates, w1, cfg);
  }

  /** With one peer or two: if a peer answers the last listing of a failed call, it does not list the CIDR. */
  lemma FailedMeansUnlisted(fates: Fates, w: World, cfg: SubnetConfig, peer: Peer)
    requires var (w', r) := GetOrCreateSubnet(fates, w, cfg);
      r.Err? && |w'.sent| > 0 && AnsweredBy(fates, w, |w'.sent| - 1, peer)
    ensures var w' := GetOrCreateSubnet(fates, w, cfg).0;
      FirstId(PeerKea(w', peer).subnets, cfg.cidr).None?
  {
    var (w1, found) := GetSubnetId(fates, w, cfg.cidr);
    SendEffect(fates, w, SubnetList);
    var w2 := CreateSubnet(fates, w1, cfg).0;
    var _ := CreateSends(fates, w1, cfg);
    CreateKeepsPeers(fates, w1, cfg);
    SendEffect(fates, w2, SubnetList);
    if found == Err(NoMatchingSubnet) {
      AnsweredByPeer(fates, w2, peer, SubnetList);
      FindIdIsFirst(PeerKea(w2, peer).subnets, cfg.cidr);
    } else {
      AnsweredByPeer(fates, w, peer, SubnetList);
      FindIdIsFirst(PeerKea(w, peer).subnets, cfg.cidr);
    }
  }

  lemma CreateKeepsPeers(fates: Fates, w: World, cfg: SubnetConfig)
    ensures CreateSubnet(fates, w, cfg).0.secondary.Some? == w.secondary.Some?
  {
  }

  /** The settings that a document carries: those given, the default lifetime, the pool only with both ends, options 3 and 6. */
  lemma DocumentCarries(cfg: SubnetConfig, id: int)
    ensures var doc := Document(cfg, id);
      && doc.id == id && doc.cidr == cfg.cidr
      && (doc.validLife == cfg.validLife <==> cfg.validLife > 0 || cfg.validLife == 4000)
      && (cfg.validLife <= 0 ==> doc.validLife == 4000)
      && (if cfg.renewTimer > 0 then doc.renewTimer == cfg.renewTimer else doc.renewTimer == 0)
      && (if cfg.rebindTimer > 0 then doc.rebindTimer == cfg.rebindTimer else doc.rebindTimer == 0)
      && (doc.pools != [] <==> cfg.poolStart != "" && cfg.poolEnd != "")
      && (doc.pools != [] ==> doc.pools == [PoolRange(cfg.poolStart, cfg.poolEnd, cfg.classes)])
      && (forall data :: DhcpOption(3, data) in doc.options <==> data == cfg.gateway && data != "")
      && (forall data :: DhcpOption(6, data) in doc.options <==> data == Join(cfg.dns, ", ") && cfg.dns != [])
      && (forall o :: o in doc.options ==> o.code in {3, 6})
  {
    var doc := Document(cfg, id);
    if cfg.gateway != "" { assert doc.options[0] == DhcpOption(3, cfg.gateway); }
    if cfg.dns != [] { assert doc.options[|doc.options| - 1] == DhcpOption(6, Join(cfg.dns, ", ")); }
  }

  // ---------- Options written and read back ----------

  predicate CleanDns(dns: seq<string>) {
    forall i :: 0 <= i < |dns| ==> dns[i] != "" && Trimmed(dns[i]) && ',' !in dns[i]
  }

  lemma {:induction false} DnsFieldsLeadingSpace(s: string)
    ensures DnsFields(Split([' '] + s, ',')) == DnsFields(Split(s, ','))
  {
    var p := Split(s, ',');
    assert ([' '] + s)[1..] == s;
    TrimLeadingSpace(p[0]);
    var q := Split([' '] + s, ',');
    assert q == [[' '] + p[0]] + p[1..];
    assert q[1..] == p[1..];
  }

  lemma DnsFieldsCons(entry: string, pieces: seq<string>)
    requires entry != "" && Trimmed(entry)
    ensures DnsFields([entry] + pieces) == [entry] + DnsFields(pieces)
  {
    TrimFacts(entry);
    assert ([entry] + pieces)[1..] == pieces;
  }

  lemma {:induction false} JoinSplit(dns: seq<string>)
    requires dns != [] && CleanDns(dns)
    ensures Join(dns, ", ") != "" && DnsFields(Split(Join(dns, ", "), ',')) == dns
  {
    if |dns| == 1 {
      SplitWhole(dns[0], ',');
      DnsFieldsCons(dns[0], []);
    } else {
      JoinSplit(dns[1..]);
      var rest := Join(dns[1..], ", ");
      assert Join(dns, ", ") == dns[0] + [','] + ([' '] + rest);
      FirstField(dns[0], rest);
      assert [dns[0]] + dns[1..] == dns;
    }
  }

  lemma FirstField(entry: string, rest: string)
    requires entry != "" && Trimmed(entry) && ',' !in entry
    ensures DnsFields(Split(entry + [','] + ([' '] + rest), ',')) == [entry] + DnsFields(Split(rest, ','))
  {
    SplitPrefix(entry, [' '] + rest, ',');
    DnsFieldsCons(entry, Split([' '] + rest, ','));
    DnsFieldsLeadingSpace(rest);
  }

  lemma {:induction false} DnsFieldsClean(pieces: seq<string>)
    requires forall p :: p in pieces ==> ',' !in p
    ensures CleanDns(DnsFields(pieces))
  {
    if pieces != [] {
      TrimFacts(pieces[0]);
      DnsFieldsClean(pieces[1..]);
    }
  }

  lemma ReadWritten(gateway: string, dns: seq<string>)
    ensures ReadOptions(ListOptions(OptionsFor(gateway, dns))) ==
      Routing(gateway, if dns != [] && Join(dns, ", ") != "" then DnsFields(Split(Join(dns, ", "), ',')) else [])
  {
    var g, d := OptionEntry(3, gateway), OptionEntry(6, Join(dns, ", "));
    assert ReadOptions([]) == Routing("", []);
    assert [g][..0] == [] && [d][..0] == [] && [g, d][..1] == [g];
    var options := OptionsFor(gateway, dns);
    if gateway != "" && dns != [] {
      assert options[1..] == [DhcpOption(6, Join(dns, ", "))] && options[1..][1..] == [];
      assert ListOptions(options[1..]) == [d];
      assert ListOptions(options) == [g, d];
      assert ReadOptions([g]) == Routing(gateway, []);
    } else if gateway != "" || dns != [] {
      assert options[1..] == [];
      assert ListOptions(options) == [if gateway != "" then g else d];
    }
  }

  predicate Gives(e: OptionEntry, code: int) { e.OptionEntry? && e.code == code && e.data != "" }

  /**
   Any list of options, junk and repetitions included: the gateway is the last router option, and the DNS list holds
   exactly the trimmed, non-empty fields of all DNS options.
   */
  lemma {:induction false} OptionsReadExactly(entries: seq<OptionEntry>)
    ensures var r := ReadOptions(entries);
      && (r.gateway == "" <==> forall i :: 0 <= i < |entries| ==> !Gives(entries[i], 3))
      && (forall i :: 0 <= i < |entries| && Gives(entries[i], 3) && (forall j :: i < j < |entries| ==> !Gives(entries[j], 3)) ==>
            r.gateway == entries[i].data)
      && (forall d :: d in r.dns <==> exists i :: 0 <= i < |entries| && Gives(entries[i], 6) && d in DnsFields(Split(entries[i].data, ',')))
  {
    if entries != [] {
      var n := |entries| - 1;
      OptionsReadExactly(entries[..n]);
      assert forall i :: 0 <= i < n ==> entries[..n][i] == entries[i];
      DnsStep(ReadOptions(entries[..n]), entries[n]);
    }
  }

  lemma DnsStep(r: Routing, e: OptionEntry)
    ensures forall d :: d in ReadOption(r, e).dns <==> d in r.dns || (Gives(e, 6) && d in DnsFields(Split(e.data, ',')))
  {
  }

  lemma {:induction false} FieldsExact(pieces: seq<string>, d: string)
    ensures d in DnsFields(pieces) <==> d != "" && exists i :: 0 <= i < |pieces| && TrimSpace(pieces[i]) == d
  {
    if pieces != [] {
      FieldsExact(pieces[1..], d);
      if d in DnsFields(pieces[1..]) {
        var i :| 0 <= i < |pieces[1..]| && TrimSpace(pieces[1..][i]) == d;
        assert TrimSpace(pieces[i + 1]) == d;
      }
    }
  }

  /**
   What CreateSubnet writes, GetSubnetInfo reads back: always the gateway, and the DNS list exactly when
   every entry is non-empty, trimmed and free of commas.
   */
  lemma OptionRoundTrip(k: Kea, cfg: SubnetConfig, id: int)
    requires FirstWithId(k.subnets, id) == Some(Document(cfg, id))
    ensures var info := InfoFrom(TrueAnswer(k, SubnetGet(id)), id);
      && info.Ok? && info.value.id == id && info.value.cidr == cfg.cidr && info.value.gateway == cfg.gateway
      && (info.value.dns == cfg.dns <==> CleanDns(cfg.dns))
  {
    ReadWritten(cfg.gateway, cfg.dns);
    var joined := Join(cfg.dns, ", ");
    if CleanDns(cfg.dns) && cfg.dns != [] { JoinSplit(cfg.dns); }
    SplitPieces(joined, ',');
    DnsFieldsClean(Split(joined, ','));
  }

  // ---------- The existence check ----------

  lemma ByIdVerdictExact(k: Kea, mac: string, sid: int)
    ensures ByIdVerdict(TrueAnswer(k, ReservationById(mac)), mac, sid) == Some(HasHost(k.hosts, mac, sid))
  {
    var mine := HostsOf(k.hosts, mac);
    HostsOfMembers(k.hosts, mac);
    ListHostsAt(mine);
    var entries := ListHosts(mine);
    if HasHost(k.hosts, mac, sid) {
      var i :| 0 <= i < |k.hosts| && IsHost(k.hosts[i], mac, sid);
      assert k.hosts[i] in mine;
      var j :| 0 <= j < |mine| && mine[j] == k.hosts[i];
      assert EntryMatches(entries[j], mac, sid);
    } else if mine != [] {
      forall j | 0 <= j < |entries| ensures !EntryMatches(entries[j], mac, sid) {
        assert mine[j] in k.hosts;
        var i :| 0 <= i < |k.hosts| && k.hosts[i] == mine[j];
        assert !IsHost(k.hosts[i], mac, sid);
      }
    }
  }

  predicate OfMac(e: HostEntry, mac: string) { e.HostEntry? && e.hw.Some? && EqualFold(e.hw.value, mac) }

  /** In any by-id answer a host of the MAC that names no subnet counts for every subnet; hosts elsewhere and junk do not count. */
  lemma ByIdAnswerExact(entries: seq<HostEntry>, mac: string, sid: int)
    ensures ByIdVerdict(Answer(Hosts(entries)), mac, sid) == Some(true) <==>
      exists i :: 0 <= i < |entries| && OfMac(entries[i], mac) && entries[i].subnetId in {None, Some(sid)}
  {
    if i :| 0 <= i < |entries| && OfMac(entries[i], mac) && entries[i].subnetId in {None, Some(sid)} {
      assert EntryMatches(entries[i], mac, sid);
    }
  }

  lemma ScanVerdictExact(k: Kea, mac: string, sid: int)
    ensures ScanVerdict(TrueAnswer(k, ReservationAll(sid)), mac) == HasHost(k.hosts, mac, sid)
  {
    var here := HostsIn(k.hosts, sid);
    HostsInMembers(k.hosts, sid);
    ListHostsAt(here);
    var entries := ListHosts(here);
    if HasHost(k.hosts, mac, sid) {
      var i :| 0 <= i < |k.hosts| && IsHost(k.hosts[i], mac, sid);
      assert k.hosts[i] in here;
      var j :| 0 <= j < |here| && here[j] == k.hosts[i];
      assert entries[j].hw == Some(here[j].mac);
    } else {
      forall j | 0 <= j < |entries| ensures !EqualFold(here[j].mac, mac) {
        assert here[j] in k.hosts;
        var i :| 0 <= i < |k.hosts| && k.hosts[i] == here[j];
        assert !IsHost(k.hosts[i], mac, sid);
      }
    }
  }

  /** The check changes nothing, is never wrongly true, and with one server is wrongly false only if both queries fail. */
  lemma ExistsRefines(fates: Fates, w: World, mac: string, sid: int)
    requires Canon(mac) != ""
    ensures var (w', found) := MacReservationExists(fates, w, mac, sid);
      && w'.primary == w.primary && w'.secondary == w.secondary
      && |w.sent| < |w'.sent| <= |w.sent| + 2
      && w'.sent[..|w.sent|] == w.sent && (forall i :: |w.sent| <= i < |w'.sent| ==> IsRead(w'.sent[i]))
      && (found ==> SomePeerHas(w, Canon(mac), sid))
      && (w.secondary.None? && found != HasHost(w.primary.hosts, Canon(mac), sid) ==>
            !fates(|w.sent|).primary.Answered? && !fates(|w.sent| + 1).primary.Answered?)
  {
    var m := Canon(mac);
    var (w1, r1) := Send(fates, w, ReservationById(m));
    SendEffect(fates, w, ReservationById(m));
    ByIdVerdictExact(w.primary, m, sid);
    if w.secondary.Some? { ByIdVerdictExact(w.secondary.value, m, sid); }
    if ByIdVerdict(r1, m, sid).None? {
      var (w2, r2) := Send(fates, w1, ReservationAll(sid));
      SendEffect(fates, w1, ReservationAll(sid));
      ScanVerdictExact(w.primary, m, sid);
      if w.secondary.Some? { ScanVerdictExact(w.secondary.value, m, sid); }
    }
  }

  // ---------- Ensuring a reservation ----------

  predicate GrewBy(before: seq<Host>, after: seq<Host>, h: Host) { after == before + [h] }

  /**
   Under any fates: an error-free call leaves the host on some peer; created means that the answering peer's
   table grew by exactly that host; and no peer's table changes in any other way.
   */
  lemma EnsureSound(fates: Fates, w: World, mac: string, sid: int, ip: string)
    ensures var (w', r) := EnsureReservation(fates, w, mac, sid, ip);
      var h := Host(Canon(mac), sid, TrimSpace(ip));
      && (r.Ok? ==> SomePeerHas(w', Canon(mac), sid))
      && (r == Ok(true) ==>
            && w'.current.Some?
            && (w'.current == Some(Primary) ==> GrewBy(w.primary.hosts, w'.primary.hosts, h))
            && (w'.current == Some(Secondary) ==>
                  && w.secondary.Some? && w'.secondary.Some?
                  && GrewBy(w.secondary.value.hosts, w'.secondary.value.hosts, h)))
      && (r == Ok(false) ==> w'.primary == w.primary && w'.secondary == w.secondary)
      && OnlyAdded(w, w', h)
  {
    var m := Canon(mac);
    if m != "" {
      CanonFixed(mac);
      ExistsRefines(fates, w, m, sid);
      var (w1, found) := MacReservationExists(fates, w, m, sid);
      if !found {
        AddSound(fates, w1, Host(m, sid, TrimSpace(ip)));
      }
    }
  }

  /** What sending one reservation-add does. */
  lemma AddSound(fates: Fates, w: World, h: Host)
    ensures var (w', r) := Send(fates, w, ReservationAdd(h));
      && OnlyAdded(w, w', h)
      && (r.Answer? ==>
            && SomePeerHas(w', h.mac, h.subnetId)
            && w'.current.Some?
            && (w'.current == Some(Primary) ==> GrewBy(w.primary.hosts, w'.primary.hosts, h))
            && (w'.current == Some(Secondary) ==>
                  && w.secondary.Some? && w'.secondary.Some?
                  && GrewBy(w.secondary.value.hosts, w'.secondary.value.hosts, h)))
  {
    SendEffect(fates, w, ReservationAdd(h));
    var (w', r) := Send(fates, w, ReservationAdd(h));
    if r.Answer? {
      AnswerIsTrue(fates, w, ReservationAdd(h));
      var hosts := CurrentKea(w').hosts;
      assert IsHost(hosts[|hosts| - 1], h.mac, h.subnetId);
    }
  }

  /** Each peer's tables are as before, or with the one host appended. */
  predicate OnlyAdded(w: World, w': World, h: Host) {
    && (w'.primary == w.primary || w'.primary == w.primary.(hosts := w.primary.hosts + [h]))
    && w'.secondary.Some? == w.secondary.Some?
    && (w'.secondary == w.secondary
        || w'.secondary == Some(w.secondary.value.(hosts := w.secondary.value.hosts + [h])))
  }

  /** With one server: created exactly when the table grew by that host; not created exactly when it was there already or an error came back. */
  lemma EnsureSingleServer(fates: Fates, w: World, mac: string, sid: int, ip: string)
    requires w.secondary.None?
    ensures var (w', r) := EnsureReservation(fates, w, mac, sid, ip);
      r.Ok? ==>
        && HasHost(w'.primary.hosts, Canon(mac), sid)
        && (r.value <==> w'.primary.hosts == w.primary.hosts + [Host(Canon(mac), sid, TrimSpace(ip))])
        && (r.value <==> !HasHost(w.primary.hosts, Canon(mac), sid))
  {
    EnsureSound(fates, w, mac, sid, ip);
    var m := Canon(mac);
    var (w', r) := EnsureReservation(fates, w, mac, sid, ip);
    if m != "" && r == Ok(true) {
      CanonFixed(mac);
      ExistsRefines(fates, w, m, sid);
      var w1 := MacReservationExists(fates, w, m, sid).0;
      var h := Host(m, sid, TrimSpace(ip));
      AnswerIsTrue(fates, w1, ReservationAdd(h));
      assert AdmitsHost(w.primary, h);
      forall i | 0 <= i < |w.primary.hosts| ensures !IsHost(w.primary.hosts[i], m, sid) {
        assert !HostClash(w.primary.hosts[i], h, w.primary.uniqueIps);
      }
    }
  }

  // ---------- The lease scan ----------

  /** The scan picks the first of the newest matching leases, whatever else the answer holds; none only if none matches. */
  lemma {:induction false} BestLeaseIsFirstNewest(entries: seq<LeaseEntry>, mac: string)
    ensures match BestLease(entries, mac)
      case None => forall j :: 0 <= j < |entries| ==> !LeaseMatches(entries[j], mac)
      case Some(i) =>
        && (forall j :: 0 <= j < |entries| && LeaseMatches(entries[j], mac) ==> entries[j].cltt <= entries[i].cltt)
        && (forall j :: 0 <= j < i && LeaseMatches(entries[j], mac) ==> entries[j].cltt < entries[i].cltt)
  {
    if entries != [] {
      var n := |entries| - 1;
      BestLeaseIsFirstNewest(entries[..n], mac);
      assert forall j :: 0 <= j < n ==> entries[..n][j] == entries[j];
    }
  }

  /** A single lease object reads as the list holding it exactly when it has no address or carries the MAC: the MAC is not checked. */
  lemma SingleLeaseReads(e: LeaseEntry, mac: string)
    ensures LeaseFrom(Answer(OneLease(e)), mac) == LeaseFrom(Answer(Leases([e])), mac) <==>
      e.JunkLease? || e.ip == "" || EqualFold(TrimSpace(e.hw), mac)
    ensures e.LeaseEntry? && e.ip != "" ==> LeaseFrom(Answer(OneLease(e)), mac) == Found(e.ip, e.subnetId)
  {
    assert [e][..0] == [];
    assert BestLease([], mac).None?;
  }

  // ---------- The address a peer leads to ----------

  /** The first reservation of a MAC that stores an address. */
  predicate IsFirstAddressed(hosts: seq<Host>, mac: string, i: nat) {
    && i < |hosts| && EqualFold(hosts[i].mac, mac) && hosts[i].ip != ""
    && forall j :: 0 <= j < i && EqualFold(hosts[j].mac, mac) ==> hosts[j].ip == ""
  }

  lemma {:induction false} FirstAddressedLeads(hosts: seq<Host>, mac: string, i: nat)
    requires IsFirstAddressed(hosts, mac, i)
    ensures FirstAddress(ListHosts(HostsOf(hosts, mac))) == Found(hosts[i].ip, hosts[i].subnetId)
  {
    var mine, rest := HostsOf(hosts, mac), HostsOf(hosts[1..], mac);
    if EqualFold(hosts[0].mac, mac) {
      assert mine[1..] == rest && ListHosts(mine)[1..] == ListHosts(rest);
    }
    if i > 0 { FirstAddressedLeads(hosts[1..], mac, i - 1); }
  }

  lemma {:induction false} NoneAddressedLeads(hosts: seq<Host>, mac: string)
    requires forall j :: 0 <= j < |hosts| && EqualFold(hosts[j].mac, mac) ==> hosts[j].ip == ""
    ensures FirstAddress(ListHosts(HostsOf(hosts, mac))) == Found("", 0)
  {
    if hosts != [] {
      var mine, rest := HostsOf(hosts, mac), HostsOf(hosts[1..], mac);
      if EqualFold(hosts[0].mac, mac) {
        assert mine[1..] == rest && ListHosts(mine)[1..] == ListHosts(rest);
      }
      NoneAddressedLeads(hosts[1..], mac);
    }
  }

  /**
   The fallback, under any fates: a lease query that was refused, lost, or found no address is followed by the
   reservation query, and if some server answers that one, the result is its first stored address for the MAC, with
   that host's subnet.
   */
  lemma FallbackFindsReservation(fates: Fates, w: World, mac: string, k: Kea, i: nat)
    requires Canon(mac) != "" && IsFirstAddressed(k.hosts, Canon(mac), i)
    requires var r := Send(fates, w, LeaseByMac(Canon(mac))).1;
      r.Answer? ==> r.args.Leases? && forall j :: 0 <= j < |r.args.leases| ==> !LeaseMatches(r.args.leases[j], Canon(mac))
    requires var w1 := Send(fates, w, LeaseByMac(Canon(mac))).0;
      Send(fates, w1, ReservationById(Canon(mac))).1 == TrueAnswer(k, ReservationById(Canon(mac)))
    ensures GetLease(fates, w, mac).1 == Found(k.hosts[i].ip, k.hosts[i].subnetId)
    ensures GetLease(fates, w, mac).0.sent == w.sent + [LeaseByMac(Canon(mac)), ReservationById(Canon(mac))]
  {
    var m := Canon(mac);
    var r := Send(fates, w, LeaseByMac(m)).1;
    if r.Answer? { BestLeaseIsFirstNewest(r.args.leases, m); }
    HostsOfMembers(k.hosts, m);
    assert k.hosts[i] in HostsOf(k.hosts, m);
    FirstAddressedLeads(k.hosts, m, i);
    SendEffect(fates, w, LeaseByMac(m));
    SendEffect(fates, Send(fates, w, LeaseByMac(m)).0, ReservationById(m));
  }
}
