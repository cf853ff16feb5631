/**
 A Kea DHCPv4 server as the operator sees it: its tables, the commands it takes, the typed answers it
 gives, and what can happen to one command on its way. The answers keep the loose shape of decoded JSON:
 an entry may be no object at all, and a missing field reads as Go's zero value.
 */
module KeaServer {
  import opened Text

  // ---------- Tables ----------

  datatype DhcpOption = DhcpOption(code: int, data: string)
  datatype PoolRange = PoolRange(start: string, end: string, classes: seq<string>)
  datatype Subnet = Subnet(id: int, cidr: string, validLife: int, renewTimer: int, rebindTimer: int,
                           pools: seq<PoolRange>, options: seq<DhcpOption>)

  /** A host reservation; an empty ip is a MAC-only reservation. */
  datatype Host = Host(mac: string, subnetId: int, ip: string)

  /** The two flags say what the server refuses: a second subnet with an id or CIDR, a second host with an address. */
  datatype Kea = Kea(subnets: seq<Subnet>, hosts: seq<Host>, leases: seq<LeaseEntry>,
                     uniqueSubnets: bool, uniqueIps: bool)

  // ---------- Commands and answers ----------

  datatype Command =
    | SubnetList
    | SubnetGet(id: int)
    | SubnetAdd(subnet: Subnet)
    | ReservationById(mac: string)
    | ReservationAll(subnetId: int)
    | ReservationAdd(host: Host)
    | ReservationDel(mac: string, subnetId: int)
    | LeaseByMac(mac: string)

  datatype SubnetEntry = JunkSubnet | SubnetEntry(cidr: string, id: Option<int>)
  datatype OptionEntry = JunkOption | OptionEntry(code: int, data: string)
  datatype DetailEntry = JunkDetail | DetailEntry(cidr: string, options: seq<OptionEntry>)
  datatype HostEntry = JunkHost | HostEntry(hw: Option<string>, subnetId: Option<int>, ip: string)
  datatype LeaseEntry = JunkLease | LeaseEntry(hw: string, ip: string, cltt: real, subnetId: int)

  datatype Args =
    | Subnets(subnets: seq<SubnetEntry>)
    | Details(details: seq<DetailEntry>)
    | Hosts(hosts: seq<HostEntry>)
    | Leases(leases: seq<LeaseEntry>)
    | OneLease(lease: LeaseEntry)
    | NoArgs

  /** What the operator can tell apart about an error: its wording, as far as it is ever inspected. */
  datatype Failure = NoMatchingSubnet | Absent | OtherFailure

  /** Answer: result 0. Refusal: an answer with another result. NoReply: Send returned an error. */
  datatype Reply = Answer(args: Args) | Refusal(why: Failure) | NoReply(why: Failure)

  datatype Result<+T> = Ok(value: T) | Err(why: Failure)

  predicate IsRead(c: Command) {
    c.SubnetList? || c.SubnetGet? || c.ReservationById? || c.ReservationAll? || c.LeaseByMac?
  }

  // ---------- Queries on the tables ----------

  /** The id of the first subnet listed for a CIDR. */
  function FirstId(subnets: seq<Subnet>, cidr: string): Option<int> {
    if subnets == [] then None
    else if subnets[0].cidr == cidr then Some(subnets[0].id)
    else FirstId(subnets[1..], cidr)
  }

  function FirstWithId(subnets: seq<Subnet>, id: int): Option<Subnet> {
    if subnets == [] then None
    else if subnets[0].id == id then Some(subnets[0])
    else FirstWithId(subnets[1..], id)
  }

  predicate IsHost(h: Host, mac: string, subnetId: int) {
    EqualFold(h.mac, mac) && h.subnetId == subnetId
  }

  /** Is there a reservation for this MAC in this subnet? */
  predicate HasHost(hosts: seq<Host>, mac: string, subnetId: int) {
    exists i :: 0 <= i < |hosts| && IsHost(hosts[i], mac, subnetId)
  }

  function HostsOf(hosts: seq<Host>, mac: string): seq<Host> {
    if hosts == [] then []
    else if EqualFold(hosts[0].mac, mac) then [hosts[0]] + HostsOf(hosts[1..], mac)
    else HostsOf(hosts[1..], mac)
  }

  function HostsIn(hosts: seq<Host>, subnetId: int): seq<Host> {
    if hosts == [] then []
    else if hosts[0].subnetId == subnetId then [hosts[0]] + HostsIn(hosts[1..], subnetId)
    else HostsIn(hosts[1..], subnetId)
  }

  /** The table without the hosts of the given MACs in the given subnet. */
  function Without(hosts: seq<Host>, macs: set<string>, subnetId: int): seq<Host> {
    if hosts == [] then []
    else if Lower(hosts[0].mac) in macs && hosts[0].subnetId == subnetId then Without(hosts[1..], macs, subnetId)
    else [hosts[0]] + Without(hosts[1..], macs, subnetId)
  }

  predicate SubnetClash(a: Subnet, b: Subnet) { a.id == b.id || a.cidr == b.cidr }

  predicate AdmitsSubnet(k: Kea, s: Subnet) {
    k.uniqueSubnets ==> forall i :: 0 <= i < |k.subnets| ==> !SubnetClash(k.subnets[i], s)
  }

  /** Two reservations cannot stand together: same MAC and subnet or, where addresses are unique, same address. */
  predicate HostClash(a: Host, b: Host, uniqueIps: bool) {
    a.subnetId == b.subnetId && (EqualFold(a.mac, b.mac) || (uniqueIps && a.ip != "" && a.ip == b.ip))
  }

  predicate AdmitsHost(k: Kea, h: Host) {
    forall i :: 0 <= i < |k.hosts| ==> !HostClash(k.hosts[i], h, k.uniqueIps)
  }

  // ---------- Effects and truthful answers ----------

  function Apply(k: Kea, c: Command): Kea {
    match c
    case SubnetAdd(s) => if AdmitsSubnet(k, s) then k.(subnets := k.subnets + [s]) else k
    case ReservationAdd(h) => if AdmitsHost(k, h) then k.(hosts := k.hosts + [h]) else k
    case ReservationDel(mac, sid) => k.(hosts := Without(k.hosts, {Lower(mac)}, sid))
    case _ => k
  }

  function ListSubnets(subnets: seq<Subnet>): seq<SubnetEntry> {
    if subnets == [] then []
    else [SubnetEntry(subnets[0].cidr, Some(subnets[0].id))] + ListSubnets(subnets[1..])
  }

  function ListOptions(options: seq<DhcpOption>): seq<OptionEntry> {
    if options == [] then []
    else [OptionEntry(options[0].code, options[0].data)] + ListOptions(options[1..])
  }

  function ListHosts(hosts: seq<Host>): seq<HostEntry> {
    if hosts == [] then []
    else [HostEntry(Some(hosts[0].mac), Some(hosts[0].subnetId), hosts[0].ip)] + ListHosts(hosts[1..])
  }

  /** The answer a server gives when nothing goes wrong. A lease query may return foreign leases as well. */
  function TrueAnswer(k: Kea, c: Command): Reply {
    match c
    case SubnetList => Answer(Subnets(ListSubnets(k.subnets)))
    case SubnetGet(id) => (
      match FirstWithId(k.subnets, id)
      case Some(s) => Answer(Details([DetailEntry(s.cidr, ListOptions(s.options))]))
      case None => Refusal(Absent))
    case SubnetAdd(s) => if AdmitsSubnet(k, s) then Answer(NoArgs) else Refusal(OtherFailure)
    case ReservationById(mac) =>
      if HostsOf(k.hosts, mac) == [] then Refusal(Absent) else Answer(Hosts(ListHosts(HostsOf(k.hosts, mac))))
    case ReservationAll(sid) => Answer(Hosts(ListHosts(HostsIn(k.hosts, sid))))
    case ReservationAdd(h) => if AdmitsHost(k, h) then Answer(NoArgs) else Refusal(OtherFailure)
    case ReservationDel(mac, sid) => if HasHost(k.hosts, mac, sid) then Answer(NoArgs) else Refusal(Absent)
    case LeaseByMac(mac) => Answer(Leases(k.leases))
  }

  // ---------- One command on its way to one peer ----------

  /**
   Answered: applied and truthfully answered. Refusing: not applied, answered with an error.
   Garbled: a body was read but cannot be parsed. Silent: no readable answer came back. The last two may
   or may not have been applied.
   */
  datatype Delivery = Answered | Refusing | Garbled(applied: bool) | Silent(applied: bool)

  function After(k: Kea, c: Command, d: Delivery): Kea {
    if d.Answered? || (d.Garbled? && d.applied) || (d.Silent? && d.applied) then Apply(k, c) else k
  }

  /** None: no answer could be read. */
  function Heard(k: Kea, c: Command, d: Delivery): Option<Reply> {
    match d
    case Answered => Some(TrueAnswer(k, c))
    case Refusing => Some(Refusal(OtherFailure))
    case Garbled(_) => Some(NoReply(OtherFailure))
    case Silent(_) => None
  }

  // ---------- The failover client: primary first, then secondary ----------

  datatype Peer = Primary | Secondary

  /** What happens to one Send at each peer it reaches, and whether the final transport error reads "not found". */
  datatype Fate = Fate(primary: Delivery, secondary: Delivery, saysNotFound: bool)
  type Fates = nat -> Fate

  datatype World = World(primary: Kea, secondary: Option<Kea>, current: Option<Peer>, sent: seq<Command>)

  function Wording(f: Fate): Failure { if f.saysNotFound then Absent else OtherFailure }

  /** Send: the n-th command meets the n-th fate. */
  function Send(fates: Fates, w: World, c: Command): (World, Reply) {
    var f := fates(|w.sent|);
    var w1 := w.(primary := After(w.primary, c, f.primary), sent := w.sent + [c]);
    match Heard(w.primary, c, f.primary)
    case Some(reply) => (w1.(current := Some(Primary)), reply)
    case None =>
      if w.secondary.None? then (w1, NoReply(Wording(f)))
      else
        var w2 := w1.(secondary := Some(After(w.secondary.value, c, f.secondary)));
        match Heard(w.secondary.value, c, f.secondary)
        case Some(reply) => (w2.(current := Some(Secondary)), reply)
        case None => (w2, NoReply(Wording(f)))
  }

  /** The server the last answer came from. */
  function CurrentKea(w: World): Kea {
    if w.current == Some(Secondary) && w.secondary.Some? then w.secondary.value else w.primary
  }

  /** Some peer's table has the property. */
  predicate SomePeerHas(w: World, mac: string, subnetId: int) {
    HasHost(w.primary.hosts, mac, subnetId) || (w.secondary.Some? && HasHost(w.secondary.value.hosts, mac, subnetId))
  }

  ghost predicate Truthful(fates: Fates) {
    forall n :: fates(n).primary == Answered
  }

  // ---------- Facts about one Send ----------

  /** A read changes no table; a write is applied at most once per peer, and to the secondary only in silence. */
  lemma SendEffect(fates: Fates, w: World, c: Command)
    ensures var (w', r) := Send(fates, w, c);
      && w'.sent == w.sent + [c]
      && w'.secondary.Some? == w.secondary.Some?
      && (w'.primary == w.primary || w'.primary == Apply(w.primary, c))
      && (w'.secondary == w.secondary || w'.secondary == Some(Apply(w.secondary.value, c)))
      && (w'.secondary != w.secondary ==> fates(|w.sent|).primary.Silent?)
      && (w'.current != w.current && w'.current == Some(Secondary) ==> fates(|w.sent|).primary.Silent?)
      && (IsRead(c) ==> w'.primary == w.primary && w'.secondary == w.secondary)
      && (r.NoReply? || w'.current.Some?)
  {
  }

  /** An answer is the truth about the peer that gave it, and that peer has carried out the command. */
  lemma AnswerIsTrue(fates: Fates, w: World, c: Command)
    requires Send(fates, w, c).1.Answer?
    ensures var (w', r) := Send(fates, w, c);
      && w'.current.Some?
      && (w'.current == Some(Primary) ==> r == TrueAnswer(w.primary, c) && w'.primary == Apply(w.primary, c))
      && (w'.current == Some(Secondary) ==>
            w.secondary.Some? && r == TrueAnswer(w.secondary.value, c) && w'.secondary == Some(Apply(w.secondary.value, c)))
  {
  }

  /** No answer that could be used came back over this delivery. */
  predicate Unreadable(d: Delivery) { d.Garbled? || d.Silent? }

  /** The peer has carried out what reached it. */
  predicate Takes(d: Delivery) { d.Answered? || ((d.Garbled? || d.Silent?) && d.applied) }

  /** The secondary gets to see the command. */
  predicate FailsOver(w: World, f: Fate) { f.primary.Silent? && w.secondary.Some? }

  /** What a caller can rely on, given what happens to the command at each peer. */
  predicate FailoverRule(w: World, f: Fate, c: Command, w': World, r: Reply) {
    && (f.primary.Answered? ==> r == TrueAnswer(w.primary, c))
    && (FailsOver(w, f) && f.secondary.Answered? ==> r == TrueAnswer(w.secondary.value, c))
    && (f.primary.Refusing? || (FailsOver(w, f) && f.secondary.Refusing?) ==> r == Refusal(OtherFailure))
    && (r.NoReply? <==> Unreadable(f.primary) && (FailsOver(w, f) ==> Unreadable(f.secondary)))
    && w'.primary == (if Takes(f.primary) then Apply(w.primary, c) else w.primary)
    && w'.secondary == (if FailsOver(w, f) && Takes(f.secondary) then Some(Apply(w.secondary.value, c)) else w.secondary)
    && w'.current == (if !f.primary.Silent? then Some(Primary)
                      else if FailsOver(w, f) && !f.secondary.Silent? then Some(Secondary) else w.current)
  }

  /**
   Failover, for reads and writes alike. A silent primary hands the command to the secondary, if there is one:
   its answer comes back, its table has the effect and it becomes the current peer. Send fails exactly when every
   peer reached gave nothing readable.
   */
  lemma FailoverExact(fates: Fates, w: World, c: Command)
    ensures var (w', r) := Send(fates, w, c); FailoverRule(w, fates(|w.sent|), c, w', r)
  {
  }

  /** The n-th command is answered, truthfully, by this peer. */
  predicate AnsweredBy(fates: Fates, w: World, n: nat, peer: Peer) {
    if peer.Primary? then fates(n).primary.Answered?
    else w.secondary.Some? && fates(n).primary.Silent? && fates(n).secondary.Answered?
  }

  function PeerKea(w: World, peer: Peer): Kea {
    if peer.Primary? || w.secondary.None? then w.primary else w.secondary.value
  }

  /** Any command, read or write, is answered and carried out by the peer that answers. */
  lemma AnsweredByPeer(fates: Fates, w: World, peer: Peer, c: Command)
    requires AnsweredBy(fates, w, |w.sent|, peer)
    ensures var (w', r) := Send(fates, w, c);
      && r == TrueAnswer(PeerKea(w, peer), c) && PeerKea(w', peer) == Apply(PeerKea(w, peer), c)
      && w'.current == Some(peer) && w'.sent == w.sent + [c]
      && (IsRead(c) ==> w'.primary == w.primary && w'.secondary == w.secondary)
  {
  }

  lemma TruthfulSend(fates: Fates, w: World, c: Command)
    requires Truthful(fates)
    ensures Send(fates, w, c) ==
      (w.(primary := Apply(w.primary, c), sent := w.sent + [c], current := Some(Primary)), TrueAnswer(w.primary, c))
  {
  }

  // ---------- Facts about the tables ----------

  lemma {:induction false} FirstIdAppend(s: seq<Subnet>, x: Subnet, cidr: string)
    ensures FirstId(s + [x], cidr) ==
      if FirstId(s, cidr).Some? then FirstId(s, cidr) else if x.cidr == cidr then Some(x.id) else None
  {
    if s != [] {
      assert (s + [x])[1..] == s[1..] + [x];
      FirstIdAppend(s[1..], x, cidr);
    }
  }

  lemma {:induction false} FirstIdListed(s: seq<Subnet>, cidr: string)
    ensures match FirstId(s, cidr)
      case Some(id) => exists i :: 0 <= i < |s| && s[i].cidr == cidr && s[i].id == id
      case None => forall i :: 0 <= i < |s| ==> s[i].cidr != cidr
  {
    if s != [] && s[0].cidr != cidr {
      FirstIdListed(s[1..], cidr);
      if FirstId(s, cidr).Some? {
        var i :| 0 <= i < |s[1..]| && s[1..][i].cidr == cidr && s[1..][i].id == FirstId(s, cidr).value;
        assert s[i + 1].cidr == cidr;
      }
    }
  }

  lemma {:induction false} FirstWithIdListed(s: seq<Subnet>, id: int)
    ensures match FirstWithId(s, id)
      case Some(sub) => sub in s && sub.id == id
      case None => forall i :: 0 <= i < |s| ==> s[i].id != id
  {
    if s != [] && s[0].id != id { FirstWithIdListed(s[1..], id); }
  }

  lemma {:induction false} FirstWithIdAppend(s: seq<Subnet>, x: Subnet, id: int)
    ensures FirstWithId(s + [x], id) ==
      if FirstWithId(s, id).Some? then FirstWithId(s, id) else if x.id == id then Some(x) else None
  {
    if s != [] {
      assert (s + [x])[1..] == s[1..] + [x];
      FirstWithIdAppend(s[1..], x, id);
    }
  }

  lemma {:induction false} HostsOfMembers(hosts: seq<Host>, mac: string)
    ensures forall h :: h in HostsOf(hosts, mac) <==> h in hosts && EqualFold(h.mac, mac)
  {
    if hosts != [] { HostsOfMembers(hosts[1..], mac); }
  }

  lemma {:induction false} HostsInMembers(hosts: seq<Host>, sid: int)
    ensures forall h :: h in HostsIn(hosts, sid) <==> h in hosts && h.subnetId == sid
  {
    if hosts != [] { HostsInMembers(hosts[1..], sid); }
  }

  lemma {:induction false} HostsOfAppend(a: seq<Host>, b: seq<Host>, mac: string)
    ensures HostsOf(a + b, mac) == HostsOf(a, mac) + HostsOf(b, mac)
  {
    if a == [] {
      assert a + b == b;
    } else {
      assert (a + b)[1..] == a[1..] + b;
      HostsOfAppend(a[1..], b, mac);
    }
  }

  lemma {:induction false} WithoutAppend(a: seq<Host>, b: seq<Host>, macs: set<string>, sid: int)
    ensures Without(a + b, macs, sid) == Without(a, macs, sid) + Without(b, macs, sid)
  {
    if a == [] {
      assert a + b == b;
    } else {
      assert (a + b)[1..] == a[1..] + b;
      WithoutAppend(a[1..], b, macs, sid);
    }
  }

  lemma {:induction false} WithoutTwice(hosts: seq<Host>, m1: set<string>, m2: set<string>, sid: int)
    ensures Without(Without(hosts, m1, sid), m2, sid) == Without(hosts, m1 + m2, sid)
  {
    if hosts != [] {
      WithoutTwice(hosts[1..], m1, m2, sid);
      if Lower(hosts[0].mac) !in m1 || hosts[0].subnetId != sid {
        assert Without(hosts, m1, sid)[1..] == Without(hosts[1..], m1, sid);
      }
    }
  }

  lemma {:induction false} WithoutMembers(hosts: seq<Host>, macs: set<string>, sid: int)
    ensures forall h :: h in Without(hosts, macs, sid) <==> h in hosts && !(Lower(h.mac) in macs && h.subnetId == sid)
  {
    if hosts != [] { WithoutMembers(hosts[1..], macs, sid); }
  }

  lemma {:induction false} ListHostsAt(hosts: seq<Host>)
    ensures |ListHosts(hosts)| == |hosts|
    ensures forall i :: 0 <= i < |hosts| ==>
      ListHosts(hosts)[i] == HostEntry(Some(hosts[i].mac), Some(hosts[i].subnetId), hosts[i].ip)
  {
    if hosts != [] { ListHostsAt(hosts[1..]); }
  }
}
