/**
 The reservation loop and its undoing (networkconfiguration_controller.go: processMACReservations and the
 deletion loop of cleanupReservations).
 */
module Reservations {
  import opened Text
  import opened Ipv4
  import opened KeaServer
  import opened Service
  import opened Macs

  // ---------- The loop ----------

  /** What the loop has filled in so far. */
  datatype Progress = Progress(w: World, ips: map<string, string>, sids: map<string, int>, errs: seq<(string, Failure)>)

  /** A lease address outside the prefix is dropped, leaving a MAC-only reservation. */
  function KeepIp(prefix: string, ip: string): string {
    var net := ParseNetwork(TrimSpace(prefix));
    if ip != "" && net.Some? && (ParseIp(ip).None? || !net.value.Contains(Value(ParseIp(ip).value))) then "" else ip
  }

  function SubnetFor(found: Found, sid: int): int { if found.subnetId > 0 then found.subnetId else sid }

  function Record(p: Progress, w: World, mac: string, sid: int, ip: string, r: Result<bool>): Progress {
    match r
    case Err(why) => p.(w := w, errs := p.errs + [(mac, why)])
    case Ok(_) => p.(w := w, sids := p.sids[mac := sid], ips := if ip != "" then p.ips[mac := ip] else p.ips)
  }

  /** One turn of the loop. */
  function Reserve(fates: Fates, p: Progress, mac: string, sid: int, prefix: string): Progress {
    var (w1, found) := GetLease(fates, p.w, mac);
    var s, ip := SubnetFor(found, sid), KeepIp(prefix, found.ip);
    var (w2, r) := EnsureReservation(fates, w1, mac, s, ip);
    Record(p, w2, mac, s, ip, r)
  }

  function ReserveAll(fates: Fates, w: World, macs: seq<string>, sid: int, prefix: string): Progress {
    if macs == [] then Progress(w, map[], map[], [])
    else Reserve(fates, ReserveAll(fates, w, macs[..|macs| - 1], sid, prefix), macs[|macs| - 1], sid, prefix)
  }

  function DeleteAll(fates: Fates, w: World, macs: seq<string>, sid: int): World {
    if macs == [] then w
    else DeleteReservation(fates, DeleteAll(fates, w, macs[..|macs| - 1], sid), macs[|macs| - 1], sid)
  }

  function Elements(macs: seq<string>): set<string> { set m | m in macs }

  lemma ElementsSnoc(macs: seq<string>)
    requires macs != []
    ensures Elements(macs) == Elements(macs[..|macs| - 1]) + {macs[|macs| - 1]}
  {
    assert macs == macs[..|macs| - 1] + [macs[|macs| - 1]];
  }

  lemma DistinctPrefix(macs: seq<string>)
    requires macs != [] && Distinct(macs)
    ensures Distinct(macs[..|macs| - 1]) && macs[|macs| - 1] !in macs[..|macs| - 1]
    ensures Elements(macs) == Elements(macs[..|macs| - 1]) + {macs[|macs| - 1]}
  {
    ElementsSnoc(macs);
  }

  // ---------- Conservation ----------

  function Failed(errs: seq<(string, Failure)>): set<string> { set i | 0 <= i < |errs| :: errs[i].0 }

  predicate FailuresDistinct(errs: seq<(string, Failure)>) {
    forall i, j :: 0 <= i < j < |errs| ==> errs[i].0 != errs[j].0
  }

  lemma {:induction false} Partition(fates: Fates, w: World, macs: seq<string>, sid: int, prefix: string)
    requires Distinct(macs)
    ensures var p := ReserveAll(fates, w, macs, sid, prefix);
      && p.sids.Keys !! Failed(p.errs)
      && p.sids.Keys + Failed(p.errs) == Elements(macs)
      && FailuresDistinct(p.errs)
      && p.ips.Keys <= p.sids.Keys
  {
    if macs != [] {
      var n := |macs| - 1;
      DistinctPrefix(macs);
      Partition(fates, w, macs[..n], sid, prefix);
      var before := ReserveAll(fates, w, macs[..n], sid, prefix);
      var p := ReserveAll(fates, w, macs, sid, prefix);
      assert macs[n] !in before.sids.Keys + Failed(before.errs);
      if p.errs != before.errs {
        var e := p.errs[|before.errs|];
        assert p.errs == before.errs + [e] && e.0 == macs[n];
        assert Failed(p.errs) == Failed(before.errs) + {macs[n]} by {
          assert p.errs[|before.errs|].0 in Failed(p.errs);
          forall m | m in Failed(before.errs) ensures m in Failed(p.errs) {
            var i :| 0 <= i < |before.errs| && before.errs[i].0 == m;
            assert p.errs[i].0 == m;
          }
        }
        forall i | 0 <= i < |before.errs| ensures before.errs[i].0 != macs[n] {
          assert before.errs[i].0 in Failed(before.errs);
        }
      }
    }
  }

  lemma {:induction false} FailedSize(errs: seq<(string, Failure)>)
    requires FailuresDistinct(errs)
    ensures |Failed(errs)| == |errs|
  {
    if errs != [] {
      var n := |errs| - 1;
      FailedSize(errs[..n]);
      assert errs == errs[..n] + [errs[n]];
      assert Failed(errs) == Failed(errs[..n]) + {errs[n].0};
      assert errs[n].0 !in Failed(errs[..n]);
    }
  }

  lemma {:induction false} ElementsSize(macs: seq<string>)
    requires Distinct(macs)
    ensures |Elements(macs)| == |macs|
  {
    if macs != [] {
      DistinctPrefix(macs);
      ElementsSize(macs[..|macs| - 1]);
    }
  }

  /** Every MAC ends either with an error or with a subnet, never both: the two counts add up. */
  lemma Conservation(fates: Fates, w: World, macs: seq<string>, sid: int, prefix: string)
    requires Distinct(macs)
    ensures var p := ReserveAll(fates, w, macs, sid, prefix);
      && |p.errs| + |p.sids| == |macs|
      && (forall m :: m in macs ==> (m in p.sids <==> m !in Failed(p.errs)))
      && p.ips.Keys <= p.sids.Keys
      && |p.ips| <= |p.sids|
      && (p.errs == [] && |p.ips| == |macs| ==> forall m :: m in macs ==> m in p.ips)
  {
    Partition(fates, w, macs, sid, prefix);
    var p := ReserveAll(fates, w, macs, sid, prefix);
    FailedSize(p.errs);
    ElementsSize(macs);
    assert |p.sids.Keys + Failed(p.errs)| == |p.sids.Keys| + |Failed(p.errs)|;
    SubsetSize(p.ips.Keys, p.sids.Keys);
    assert forall m :: m in macs ==> m in Elements(macs);
  }

  lemma {:induction false} SubsetSize<T>(a: set<T>, b: set<T>)
    requires a <= b
    ensures |a| <= |b| && (|a| == |b| ==> a == b)
  {
    assert b == a + (b - a);
    assert |b| == |a| + |b - a|;
  }

  // ---------- Soundness under any fates ----------

  /** Tables only grow: no reservation of either peer is lost between the two worlds. */
  predicate HostsKept(w: World, w': World) {
    && w.primary.hosts <= w'.primary.hosts
    && w'.secondary.Some? == w.secondary.Some?
    && (w.secondary.Some? ==> w.secondary.value.hosts <= w'.secondary.value.hosts)
  }

  lemma KeptHosts(w: World, w': World, mac: string, sid: int)
    requires HostsKept(w, w') && SomePeerHas(w, mac, sid)
    ensures SomePeerHas(w', mac, sid)
  {
    if HasHost(w.primary.hosts, mac, sid) {
      var i :| 0 <= i < |w.primary.hosts| && IsHost(w.primary.hosts[i], mac, sid);
      assert IsHost(w'.primary.hosts[i], mac, sid);
    } else {
      var i :| 0 <= i < |w.secondary.value.hosts| && IsHost(w.secondary.value.hosts[i], mac, sid);
      assert IsHost(w'.secondary.value.hosts[i], mac, sid);
    }
  }

  lemma GetLeaseReads(fates: Fates, w: World, mac: string)
    ensures OnlyReads(w, GetLease(fates, w, mac).0)
  {
    var m := Canon(mac);
    if m != "" {
      SendEffect(fates, w, LeaseByMac(m));
      SendEffect(fates, Send(fates, w, LeaseByMac(m)).0, ReservationById(m));
    }
  }

  /** Only queries were sent in between, and no table changed. */
  predicate OnlyReads(w: World, w': World) {
    && w'.primary == w.primary && w'.secondary == w.secondary
    && w.sent <= w'.sent && forall i :: |w.sent| <= i < |w'.sent| ==> IsRead(w'.sent[i])
  }

  /** A non-empty address that, if the prefix is an IPv4 network at all, is an address of that network. */
  predicate InPrefix(prefix: string, ip: string) {
    var net := ParseNetwork(TrimSpace(prefix));
    ip != "" && (net.Some? ==> ParseIp(ip).Some? && net.value.First() <= Value(ParseIp(ip).value) <= net.value.Last())
  }

  /** After the loop every MAC with a recorded subnet id is reserved there on some peer; recorded addresses lie in the prefix. */
  lemma {:induction false} ReservedIsHeld(fates: Fates, w: World, macs: seq<string>, sid: int, prefix: string)
    requires forall m :: m in macs ==> Canon(m) == m
    ensures var p := ReserveAll(fates, w, macs, sid, prefix);
      && HostsKept(w, p.w)
      && (forall m :: m in p.sids ==> SomePeerHas(p.w, m, p.sids[m]))
      && (forall m :: m in p.ips ==> InPrefix(prefix, p.ips[m]))
  {
    if macs != [] {
      var n := |macs| - 1;
      var mac := macs[n];
      ReservedIsHeld(fates, w, macs[..n], sid, prefix);
      var before := ReserveAll(fates, w, macs[..n], sid, prefix);
      var (w1, found) := GetLease(fates, before.w, mac);
      GetLeaseReads(fates, before.w, mac);
      EnsureSound(fates, w1, mac, SubnetFor(found, sid), KeepIp(prefix, found.ip));
      var p := ReserveAll(fates, w, macs, sid, prefix);
      forall m | m in before.sids ensures SomePeerHas(p.w, m, before.sids[m]) {
        KeptHosts(before.w, p.w, m, before.sids[m]);
      }
    }
  }

  /** A lease taken from the pool the operator configures passes the prefix filter, for every prefix up to /29. */
  lemma PoolLeaseIsKept(prefix: string, address: Bytes)
    requires ParseNetwork(prefix).Some? && ParseNetwork(prefix).value.bits <= 29
    requires PoolOf(ParseNetwork(prefix).value).Some? ==>
      var pool := PoolOf(ParseNetwork(prefix).value).value; Value(pool.start) <= Value(address) <= Value(pool.end)
    ensures KeepIp(prefix, FormatIp(address)) == FormatIp(address) != ""
  {
    ParsedNetworkIsTrimmed(prefix);
    IpRoundTrip(address);
    ParsedIpIsTrimmed(FormatIp(address));
    PoolInside(ParseNetwork(prefix).value, Value(address));
  }

  // ---------- The loop against a truthful server ----------

  /** The address and subnet a truthful server leads to for a MAC. */
  function FoundAt(k: Kea, mac: string): Found {
    var lease := LeaseFrom(Answer(Leases(k.leases)), mac);
    if lease.ip != "" then lease else FirstAddress(ListHosts(HostsOf(k.hosts, mac)))
  }

  /** What the loop wants for a MAC: the subnet, the address it reports and the host it would add. */
  function WantSid(k: Kea, mac: string, sid: int): int { SubnetFor(FoundAt(k, mac), sid) }

  function WantIp(k: Kea, mac: string, prefix: string): string { KeepIp(prefix, FoundAt(k, mac).ip) }

  function WantHost(k: Kea, mac: string, sid: int, prefix: string): Host {
    Host(mac, WantSid(k, mac, sid), TrimSpace(WantIp(k, mac, prefix)))
  }

  predicate Needs(k: Kea, mac: string, sid: int) { !HasHost(k.hosts, mac, WantSid(k, mac, sid)) }

  /** The hosts the loop adds, in the order of the MACs. */
  function News(k: Kea, macs: seq<string>, sid: int, prefix: string): seq<Host> {
    if macs == [] then []
    else
      var mac := macs[|macs| - 1];
      News(k, macs[..|macs| - 1], sid, prefix) + if Needs(k, mac, sid) then [WantHost(k, mac, sid, prefix)] else []
  }

  /** The wanted hosts can all stand together, and beside the ones already there. It does not mention any order. */
  ghost predicate Compatible(k: Kea, macs: set<string>, sid: int, prefix: string) {
    && (forall m :: m in macs && Needs(k, m, sid) ==> AdmitsHost(k, WantHost(k, m, sid, prefix)))
    && (forall m1, m2 :: m1 in macs && m2 in macs && m1 != m2 && Needs(k, m1, sid) && Needs(k, m2, sid) ==>
          !HostClash(WantHost(k, m1, sid, prefix), WantHost(k, m2, sid, prefix), k.uniqueIps))
  }

  lemma TruthfulLease(fates: Fates, w: World, mac: string)
    requires Truthful(fates) && Canon(mac) == mac && mac != ""
    ensures GetLease(fates, w, mac).1 == FoundAt(w.primary, mac)
    ensures OnlyReads(w, GetLease(fates, w, mac).0)
  {
    GetLeaseReads(fates, w, mac);
    TruthfulSend(fates, w, LeaseByMac(mac));
    TruthfulSend(fates, Send(fates, w, LeaseByMac(mac)).0, ReservationById(mac));
  }

  lemma TruthfulEnsure(fates: Fates, w: World, mac: string, sid: int, ip: string)
    requires Truthful(fates) && Canon(mac) == mac && mac != ""
    ensures var (w', r) := EnsureReservation(fates, w, mac, sid, ip);
      var h := Host(mac, sid, TrimSpace(ip));
      && w'.secondary == w.secondary
      && (HasHost(w.primary.hosts, mac, sid) ==> r == Ok(false) && OnlyReads(w, w'))
      && (!HasHost(w.primary.hosts, mac, sid) && AdmitsHost(w.primary, h) ==>
            r == Ok(true) && w'.primary == w.primary.(hosts := w.primary.hosts + [h]))
      && (!HasHost(w.primary.hosts, mac, sid) && !AdmitsHost(w.primary, h) ==> r.Err? && w'.primary == w.primary)
  {
    TruthfulSend(fates, w, ReservationById(mac));
    ByIdVerdictExact(w.primary, mac, sid);
    var w1 := MacReservationExists(fates, w, mac, sid).0;
    TruthfulSend(fates, w1, ReservationAdd(Host(mac, sid, TrimSpace(ip))));
  }

  /** One turn of the loop against a truthful server. */
  lemma TruthfulReserve(fates: Fates, p: Progress, mac: string, sid: int, prefix: string)
    requires Truthful(fates) && Canon(mac) == mac && mac != ""
    ensures var k := p.w.primary;
      var p' := Reserve(fates, p, mac, sid, prefix);
      var s, ip, h := WantSid(k, mac, sid), WantIp(k, mac, prefix), WantHost(k, mac, sid, prefix);
      && p'.w.secondary == p.w.secondary
      && (!Needs(k, mac, sid) ==> OnlyReads(p.w, p'.w))
      && (Needs(k, mac, sid) ==>
            p'.w.primary == if AdmitsHost(k, h) then k.(hosts := k.hosts + [h]) else k)
      && (if Needs(k, mac, sid) && !AdmitsHost(k, h)
          then |p'.errs| == |p.errs| + 1
          else p'.errs == p.errs && p'.sids == p.sids[mac := s]
               && p'.ips == if ip != "" then p.ips[mac := ip] else p.ips)
  {
    TruthfulLease(fates, p.w, mac);
    var (w1, found) := GetLease(fates, p.w, mac);
    TruthfulEnsure(fates, w1, mac, SubnetFor(found, sid), KeepIp(prefix, found.ip));
  }

  // ---------- What adding hosts for other MACs does not change ----------

  lemma {:induction false} NewsMacs(k: Kea, macs: seq<string>, sid: int, prefix: string)
    ensures forall h :: h in News(k, macs, sid, prefix) ==>
      h.mac in macs && Needs(k, h.mac, sid) && h == WantHost(k, h.mac, sid, prefix)
    ensures forall m :: m in macs && Needs(k, m, sid) ==> WantHost(k, m, sid, prefix) in News(k, macs, sid, prefix)
  {
    if macs != [] {
      var n := |macs| - 1;
      NewsMacs(k, macs[..n], sid, prefix);
      assert macs == macs[..n] + [macs[n]];
    }
  }

  lemma {:induction false} NoHostsOf(hosts: seq<Host>, mac: string)
    requires forall h :: h in hosts ==> !EqualFold(h.mac, mac)
    ensures HostsOf(hosts, mac) == []
  {
    if hosts != [] { NoHostsOf(hosts[1..], mac); }
  }

  /** Hosts of other MACs appended: the same address is found, and the same question about the MAC is answered. */
  lemma OthersDoNotMatter(k: Kea, more: seq<Host>, mac: string, sid: int)
    requires forall h :: h in more ==> !EqualFold(h.mac, mac)
    ensures var k' := k.(hosts := k.hosts + more);
      FoundAt(k', mac) == FoundAt(k, mac) && Needs(k', mac, sid) == Needs(k, mac, sid)
  {
    HostsOfAppend(k.hosts, more, mac);
    NoHostsOf(more, mac);
    var k' := k.(hosts := k.hosts + more);
    assert HostsOf(k'.hosts, mac) == HostsOf(k.hosts, mac);
    HasHostAppend(k.hosts, more, mac, WantSid(k, mac, sid));
  }

  lemma HasHostAppend(a: seq<Host>, b: seq<Host>, mac: string, sid: int)
    ensures HasHost(a + b, mac, sid) <==> HasHost(a, mac, sid) || HasHost(b, mac, sid)
  {
    if HasHost(a, mac, sid) {
      var i :| 0 <= i < |a| && IsHost(a[i], mac, sid);
      assert IsHost((a + b)[i], mac, sid);
    }
    if HasHost(b, mac, sid) {
      var i :| 0 <= i < |b| && IsHost(b[i], mac, sid);
      assert IsHost((a + b)[|a| + i], mac, sid);
    }
  }

  lemma AdmitsAppend(k: Kea, more: seq<Host>, h: Host)
    ensures AdmitsHost(k.(hosts := k.hosts + more), h) <==>
      AdmitsHost(k, h) && forall i :: 0 <= i < |more| ==> !HostClash(more[i], h, k.uniqueIps)
  {
    var all := k.hosts + more;
    if AdmitsHost(k.(hosts := all), h) {
      forall i | 0 <= i < |k.hosts| ensures !HostClash(k.hosts[i], h, k.uniqueIps) { assert all[i] == k.hosts[i]; }
      forall i | 0 <= i < |more| ensures !HostClash(more[i], h, k.uniqueIps) { assert all[|k.hosts| + i] == more[i]; }
    }
  }

  // ---------- Exactly when the loop is error free, and what it then leaves ----------

  predicate CanonicalMacs(macs: seq<string>) {
    forall i :: 0 <= i < |macs| ==> macs[i] != "" && Canon(macs[i]) == macs[i] && Lower(macs[i]) == macs[i]
  }

  /** The MACs of a spec, in whatever order, are canonical. */
  lemma CanonicalOrder(interfaces: seq<Interface>, order: seq<string>)
    requires Enumerates(order, MacSet(interfaces))
    ensures CanonicalMacs(order)
  {
    MacSetCanon(interfaces);
    forall i | 0 <= i < |order| ensures order[i] in MacSet(interfaces) { assert order[i] in order; }
  }

  ghost predicate Settled(k: Kea, w: World, p: Progress, macs: seq<string>, sid: int, prefix: string) {
    && p.w.primary == k.(hosts := k.hosts + News(k, macs, sid, prefix))
    && p.w.secondary == w.secondary
    && p.sids == SidsOf(k, macs, sid)
    && p.ips == IpsOf(k, macs, prefix)
  }

  /** The error-free runs are exactly those whose wanted hosts are compatible; then the result is known in closed form. */
  lemma {:induction false} LoopCharacterised(fates: Fates, w: World, macs: seq<string>, sid: int, prefix: string)
    requires Truthful(fates) && Distinct(macs) && CanonicalMacs(macs)
    ensures var p := ReserveAll(fates, w, macs, sid, prefix);
      && (p.errs == [] <==> Compatible(w.primary, Elements(macs), sid, prefix))
      && (p.errs == [] ==> Settled(w.primary, w, p, macs, sid, prefix))
  {
    if macs != [] {
      var n := |macs| - 1;
      DistinctPrefix(macs);
      LoopCharacterised(fates, w, macs[..n], sid, prefix);
      var before := ReserveAll(fates, w, macs[..n], sid, prefix);
      CompatibleAdd(w.primary, Elements(macs[..n]), macs[n], sid, prefix);
      if before.errs == [] {
        SettledStep(fates, w, before, macs, sid, prefix);
      }
    } else {
      assert w.primary.hosts + [] == w.primary.hosts;
    }
  }

  /** Adding one MAC to a set of MACs, in terms of its own host only. */
  lemma CompatibleAdd(k: Kea, macs: set<string>, mac: string, sid: int, prefix: string)
    requires mac !in macs
    ensures Compatible(k, macs + {mac}, sid, prefix) <==>
      Compatible(k, macs, sid, prefix) && (Needs(k, mac, sid) ==> FitsWith(k, macs, WantHost(k, mac, sid, prefix), sid, prefix))
  {
  }

  ghost predicate FitsWith(k: Kea, macs: set<string>, h: Host, sid: int, prefix: string) {
    && AdmitsHost(k, h)
    && forall m :: m in macs && Needs(k, m, sid) ==> !HostClash(WantHost(k, m, sid, prefix), h, k.uniqueIps)
  }

  /** The table grown by the wanted hosts of some MACs admits a host exactly if it fits with them. */
  lemma GrownTableAdmits(k: Kea, macs: seq<string>, h: Host, sid: int, prefix: string)
    ensures AdmitsHost(k.(hosts := k.hosts + News(k, macs, sid, prefix)), h) <==>
      FitsWith(k, Elements(macs), h, sid, prefix)
  {
    var news := News(k, macs, sid, prefix);
    AdmitsAppend(k, news, h);
    NewsMacs(k, macs, sid, prefix);
    if FitsWith(k, Elements(macs), h, sid, prefix) {
      forall i | 0 <= i < |news| ensures !HostClash(news[i], h, k.uniqueIps) {
        assert news[i] in news;
        assert news[i].mac in Elements(macs);
      }
    }
    if forall i :: 0 <= i < |news| ==> !HostClash(news[i], h, k.uniqueIps) {
      forall m | m in Elements(macs) && Needs(k, m, sid) ensures !HostClash(WantHost(k, m, sid, prefix), h, k.uniqueIps) {
        assert WantHost(k, m, sid, prefix) in news;
        var i :| 0 <= i < |news| && news[i] == WantHost(k, m, sid, prefix);
      }
    }
  }

  /** The hosts added for the earlier MACs do not change what is found and missing for the last one. */
  lemma LastMac(k: Kea, macs: seq<string>, sid: int, prefix: string)
    requires macs != [] && Distinct(macs) && CanonicalMacs(macs)
    ensures var n := |macs| - 1;
      var k' := k.(hosts := k.hosts + News(k, macs[..n], sid, prefix));
      && FoundAt(k', macs[n]) == FoundAt(k, macs[n])
      && Needs(k', macs[n], sid) == Needs(k, macs[n], sid)
  {
    var n := |macs| - 1;
    var news := News(k, macs[..n], sid, prefix);
    DistinctPrefix(macs);
    NewsMacs(k, macs[..n], sid, prefix);
    forall h | h in news ensures !EqualFold(h.mac, macs[n]) {
      var i :| 0 <= i < n && macs[i] == h.mac;
      assert Lower(macs[i]) == macs[i] && Lower(macs[n]) == macs[n];
    }
    OthersDoNotMatter(k, news, macs[n], sid);
  }

  function SidsOf(k: Kea, macs: seq<string>, sid: int): map<string, int> {
    map m | m in macs :: WantSid(k, m, sid)
  }

  function IpsOf(k: Kea, macs: seq<string>, prefix: string): map<string, string> {
    map m | m in macs && WantIp(k, m, prefix) != "" :: WantIp(k, m, prefix)
  }

  lemma MapsSnoc(k: Kea, macs: seq<string>, sid: int, prefix: string)
    requires macs != [] && Distinct(macs)
    ensures var n := |macs| - 1;
      && SidsOf(k, macs, sid) == SidsOf(k, macs[..n], sid)[macs[n] := WantSid(k, macs[n], sid)]
      && IpsOf(k, macs, prefix) ==
           if WantIp(k, macs[n], prefix) != "" then IpsOf(k, macs[..n], prefix)[macs[n] := WantIp(k, macs[n], prefix)]
           else IpsOf(k, macs[..n], prefix)
  {
    var n := |macs| - 1;
    assert forall m :: m in macs <==> m in macs[..n] || m == macs[n];
    DistinctPrefix(macs);
  }

  lemma SettledStep(fates: Fates, w: World, before: Progress, macs: seq<string>, sid: int, prefix: string)
    requires Truthful(fates) && macs != [] && Distinct(macs) && CanonicalMacs(macs)
    requires before.errs == [] && Settled(w.primary, w, before, macs[..|macs| - 1], sid, prefix)
    ensures var p := Reserve(fates, before, macs[|macs| - 1], sid, prefix);
      && (p.errs == [] <==>
            (Needs(w.primary, macs[|macs| - 1], sid) ==>
              FitsWith(w.primary, Elements(macs[..|macs| - 1]), WantHost(w.primary, macs[|macs| - 1], sid, prefix), sid, prefix)))
      && (p.errs == [] ==> Settled(w.primary, w, p, macs, sid, prefix))
  {
    var n := |macs| - 1;
    TruthfulReserve(fates, before, macs[n], sid, prefix);
    LastMac(w.primary, macs, sid, prefix);
    GrownTableAdmits(w.primary, macs[..n], WantHost(w.primary, macs[n], sid, prefix), sid, prefix);
    var p := Reserve(fates, before, macs[n], sid, prefix);
    if p.errs == [] {
      SettledSnoc(w, before, p, macs, sid, prefix);
    }
  }

  lemma SettledSnoc(w: World, before: Progress, p: Progress, macs: seq<string>, sid: int, prefix: string)
    requires macs != [] && Distinct(macs)
    requires Settled(w.primary, w, before, macs[..|macs| - 1], sid, prefix)
    requires var mac := macs[|macs| - 1];
      && p.w.secondary == before.w.secondary
      && p.w.primary == before.w.primary.(hosts := before.w.primary.hosts +
           if Needs(w.primary, mac, sid) then [WantHost(w.primary, mac, sid, prefix)] else [])
      && p.sids == before.sids[mac := WantSid(w.primary, mac, sid)]
      && p.ips == if WantIp(w.primary, mac, prefix) != "" then before.ips[mac := WantIp(w.primary, mac, prefix)] else before.ips
    ensures Settled(w.primary, w, p, macs, sid, prefix)
  {
    MapsSnoc(w.primary, macs, sid, prefix);
  }

  // ---------- Reservations follow leases ----------

  /** The first of the newest leases of a MAC. */
  predicate IsCurrentLease(leases: seq<LeaseEntry>, mac: string, i: nat) {
    && i < |leases| && LeaseMatches(leases[i], mac)
    && (forall j :: 0 <= j < |leases| && LeaseMatches(leases[j], mac) ==> leases[j].cltt <= leases[i].cltt)
    && (forall j :: 0 <= j < i && LeaseMatches(leases[j], mac) ==> leases[j].cltt < leases[i].cltt)
  }

  lemma CurrentLeaseIsBest(leases: seq<LeaseEntry>, mac: string, i: nat)
    requires IsCurrentLease(leases, mac, i)
    ensures BestLease(leases, mac) == Some(i)
  {
    BestLeaseIsFirstNewest(leases, mac);
  }

  /** What the loop leaves for a MAC: the subnet and address it reports, and this MAC's reservations, exactly. */
  ghost predicate Outcome(k: Kea, p: Progress, mac: string, s: int, ip: string) {
    && mac in p.sids && p.sids[mac] == s && HasHost(p.w.primary.hosts, mac, s)
    && (ip != "" ==> mac in p.ips && p.ips[mac] == ip) && (ip == "" ==> mac !in p.ips)
    && HostsOf(p.w.primary.hosts, mac) ==
         HostsOf(k.hosts, mac) + (if HasHost(k.hosts, mac, s) then [] else [Host(mac, s, TrimSpace(ip))])
  }

  lemma LoopFor(fates: Fates, w: World, macs: seq<string>, sid: int, prefix: string, mac: string)
    requires Truthful(fates) && Distinct(macs) && CanonicalMacs(macs) && mac in macs
    requires ReserveAll(fates, w, macs, sid, prefix).errs == []
    ensures Outcome(w.primary, ReserveAll(fates, w, macs, sid, prefix), mac, WantSid(w.primary, mac, sid), WantIp(w.primary, mac, prefix))
  {
    LoopCharacterised(fates, w, macs, sid, prefix);
    var news := News(w.primary, macs, sid, prefix);
    HostsOfAppend(w.primary.hosts, news, mac);
    HostsOfNews(w.primary, macs, sid, prefix, mac);
    NothingNeeded(w.primary, macs, sid, prefix, mac);
  }

  lemma KeptExactly(prefix: string, ip: string)
    requires ip != ""
    ensures KeepIp(prefix, ip) == if InPrefix(prefix, ip) then ip else ""
  {
  }

  /**
   The operator's purpose: an error-free loop leaves, for each MAC with a current lease in the prefix, a
   reservation in the lease's subnet (the resolved one if the lease names none), reports the lease's address,
   and where no reservation was there before, adds exactly one, of exactly that address.
   */
  lemma ReservationFollowsLease(fates: Fates, w: World, macs: seq<string>, sid: int, prefix: string, mac: string, i: nat)
    requires Truthful(fates) && Distinct(macs) && CanonicalMacs(macs) && mac in macs
    requires ReserveAll(fates, w, macs, sid, prefix).errs == []
    requires IsCurrentLease(w.primary.leases, mac, i) && InPrefix(prefix, w.primary.leases[i].ip)
    ensures var lease := w.primary.leases[i];
      Outcome(w.primary, ReserveAll(fates, w, macs, sid, prefix), mac, if lease.subnetId > 0 then lease.subnetId else sid, lease.ip)
  {
    var lease := w.primary.leases[i];
    CurrentLeaseIsBest(w.primary.leases, mac, i);
    assert FoundAt(w.primary, mac) == Found(lease.ip, lease.subnetId);
    KeptExactly(prefix, lease.ip);
    LoopFor(fates, w, macs, sid, prefix, mac);
  }

  /**
   A MAC with neither a lease nor a reserved address still gets a reservation, without an address, in the
   resolved subnet, unless it has one there; no address is reported for it.
   */
  lemma ReservationWithoutLease(fates: Fates, w: World, macs: seq<string>, sid: int, prefix: string, mac: string)
    requires Truthful(fates) && Distinct(macs) && CanonicalMacs(macs) && mac in macs
    requires ReserveAll(fates, w, macs, sid, prefix).errs == []
    requires forall j :: 0 <= j < |w.primary.leases| ==> !LeaseMatches(w.primary.leases[j], mac)
    requires forall j :: 0 <= j < |w.primary.hosts| && EqualFold(w.primary.hosts[j].mac, mac) ==> w.primary.hosts[j].ip == ""
    ensures Outcome(w.primary, ReserveAll(fates, w, macs, sid, prefix), mac, sid, "")
  {
    BestLeaseIsFirstNewest(w.primary.leases, mac);
    NoneAddressedLeads(w.primary.hosts, mac);
    assert FoundAt(w.primary, mac) == Found("", 0);
    LoopFor(fates, w, macs, sid, prefix, mac);
  }

  /**
   A MAC without a lease whose first reservation with an address is h keeps it: h's subnet is recorded (the
   resolved one if h is global), h's address is reported exactly when it lies in the prefix, and nothing is added
   for the MAC unless that subnet has no reservation of it, which only happens for a global h.
   */
  lemma ReservationFollowsHost(fates: Fates, w: World, macs: seq<string>, sid: int, prefix: string, mac: string, i: nat)
    requires Truthful(fates) && Distinct(macs) && CanonicalMacs(macs) && mac in macs
    requires ReserveAll(fates, w, macs, sid, prefix).errs == []
    requires forall j :: 0 <= j < |w.primary.leases| ==> !LeaseMatches(w.primary.leases[j], mac)
    requires IsFirstAddressed(w.primary.hosts, mac, i)
    ensures var p, h := ReserveAll(fates, w, macs, sid, prefix), w.primary.hosts[i];
      && Outcome(w.primary, p, mac, if h.subnetId > 0 then h.subnetId else sid, if InPrefix(prefix, h.ip) then h.ip else "")
      && (h.subnetId > 0 ==> HostsOf(p.w.primary.hosts, mac) == HostsOf(w.primary.hosts, mac) && !AddSentFor(w, p.w, mac))
  {
    var h := w.primary.hosts[i];
    BestLeaseIsFirstNewest(w.primary.leases, mac);
    FirstAddressedLeads(w.primary.hosts, mac, i);
    assert FoundAt(w.primary, mac) == Found(h.ip, h.subnetId);
    KeptExactly(prefix, h.ip);
    LoopFor(fates, w, macs, sid, prefix, mac);
    if h.subnetId > 0 {
      assert IsHost(w.primary.hosts[i], mac, h.subnetId);
      NoAddWithoutNeed(fates, w, macs, sid, prefix, mac);
    }
  }

  /** A current lease outside the prefix still decides the subnet, but its address is neither reported nor reserved. */
  lemma LeaseOutsidePrefix(fates: Fates, w: World, macs: seq<string>, sid: int, prefix: string, mac: string, i: nat)
    requires Truthful(fates) && Distinct(macs) && CanonicalMacs(macs) && mac in macs
    requires ReserveAll(fates, w, macs, sid, prefix).errs == []
    requires IsCurrentLease(w.primary.leases, mac, i) && !InPrefix(prefix, w.primary.leases[i].ip)
    ensures var lease := w.primary.leases[i];
      Outcome(w.primary, ReserveAll(fates, w, macs, sid, prefix), mac, if lease.subnetId > 0 then lease.subnetId else sid, "")
  {
    var lease := w.primary.leases[i];
    CurrentLeaseIsBest(w.primary.leases, mac, i);
    assert FoundAt(w.primary, mac) == Found(lease.ip, lease.subnetId);
    KeptExactly(prefix, lease.ip);
    LoopFor(fates, w, macs, sid, prefix, mac);
  }

  // ---------- What the loop sends ----------

  /** Between the two worlds a reservation-add was sent for the MAC. */
  predicate AddSentFor(w: World, w': World, mac: string) {
    exists i :: |w.sent| <= i < |w'.sent| && w'.sent[i].ReservationAdd? && w'.sent[i].host.mac == mac
  }

  /** Only queries and additions of the given hosts were sent in between. */
  ghost predicate SendsOnly(w: World, w': World, hosts: seq<Host>) {
    w.sent <= w'.sent && forall i :: |w.sent| <= i < |w'.sent| ==>
      IsRead(w'.sent[i]) || (w'.sent[i].ReservationAdd? && w'.sent[i].host in hosts)
  }

  lemma TurnSends(fates: Fates, p: Progress, mac: string, sid: int, prefix: string)
    requires Truthful(fates) && Canon(mac) == mac && mac != ""
    ensures SendsOnly(p.w, Reserve(fates, p, mac, sid, prefix).w,
      if Needs(p.w.primary, mac, sid) then [WantHost(p.w.primary, mac, sid, prefix)] else [])
  {
    TruthfulLease(fates, p.w, mac);
    var (w1, found) := GetLease(fates, p.w, mac);
    var s, ip := SubnetFor(found, sid), KeepIp(prefix, found.ip);
    TruthfulEnsure(fates, w1, mac, s, ip);
    ExistsRefines(fates, w1, mac, s);
    var w2 := MacReservationExists(fates, w1, mac, s).0;
    SendEffect(fates, w2, ReservationAdd(Host(mac, s, TrimSpace(ip))));
  }

  /** An error-free loop sends, beside queries, the additions of the wanted hosts that were missing, and no other command. */
  lemma {:induction false} LoopSends(fates: Fates, w: World, macs: seq<string>, sid: int, prefix: string)
    requires Truthful(fates) && Distinct(macs) && CanonicalMacs(macs)
    requires ReserveAll(fates, w, macs, sid, prefix).errs == []
    ensures SendsOnly(w, ReserveAll(fates, w, macs, sid, prefix).w, News(w.primary, macs, sid, prefix))
  {
    if macs != [] {
      var n := |macs| - 1;
      DistinctPrefix(macs);
      var before := ReserveAll(fates, w, macs[..n], sid, prefix);
      assert before.errs == [];
      LoopSends(fates, w, macs[..n], sid, prefix);
      LoopCharacterised(fates, w, macs[..n], sid, prefix);
      LastMac(w.primary, macs, sid, prefix);
      TurnSends(fates, before, macs[n], sid, prefix);
    }
  }

  lemma NoAddWithoutNeed(fates: Fates, w: World, macs: seq<string>, sid: int, prefix: string, mac: string)
    requires Truthful(fates) && Distinct(macs) && CanonicalMacs(macs) && mac in macs
    requires ReserveAll(fates, w, macs, sid, prefix).errs == [] && !Needs(w.primary, mac, sid)
    ensures !AddSentFor(w, ReserveAll(fates, w, macs, sid, prefix).w, mac)
  {
    LoopSends(fates, w, macs, sid, prefix);
    NewsMacs(w.primary, macs, sid, prefix);
  }

  // ---------- Order independence ----------

  lemma {:induction false} NewsCount(k: Kea, macs: seq<string>, sid: int, prefix: string, h: Host)
    requires Distinct(macs)
    ensures multiset(News(k, macs, sid, prefix))[h] ==
      if h.mac in macs && Needs(k, h.mac, sid) && h == WantHost(k, h.mac, sid, prefix) then 1 else 0
  {
    if macs != [] {
      var n := |macs| - 1;
      DistinctPrefix(macs);
      NewsCount(k, macs[..n], sid, prefix, h);
      assert h.mac in macs <==> h.mac in macs[..n] || h.mac == macs[n] by { assert macs == macs[..n] + [macs[n]]; }
      CountAppend(News(k, macs[..n], sid, prefix), if Needs(k, macs[n], sid) then [WantHost(k, macs[n], sid, prefix)] else [], h);
    }
  }

  lemma CountAppend(a: seq<Host>, b: seq<Host>, h: Host)
    requires |b| <= 1
    ensures multiset(a + b)[h] == multiset(a)[h] + if b != [] && b[0] == h then 1 else 0
  {
  }

  /**
   If one order of the MACs finishes without errors, every order does, with the same maps and the same hosts,
   even when the server refuses a second reservation of an address.
   */
  lemma OrderIndependent(fates: Fates, w: World, a: seq<string>, b: seq<string>, sid: int, prefix: string)
    requires Truthful(fates) && Distinct(a) && Distinct(b) && CanonicalMacs(a) && Elements(a) == Elements(b)
    requires ReserveAll(fates, w, a, sid, prefix).errs == []
    ensures var p, q := ReserveAll(fates, w, a, sid, prefix), ReserveAll(fates, w, b, sid, prefix);
      && q.errs == [] && q.ips == p.ips && q.sids == p.sids
      && multiset(q.w.primary.hosts) == multiset(p.w.primary.hosts)
      && q.w.primary.(hosts := []) == p.w.primary.(hosts := []) && q.w.secondary == p.w.secondary
  {
    SameMembersCanonical(a, b);
    LoopCharacterised(fates, w, a, sid, prefix);
    LoopCharacterised(fates, w, b, sid, prefix);
    SettledAlike(w, ReserveAll(fates, w, a, sid, prefix), a, ReserveAll(fates, w, b, sid, prefix), b, sid, prefix);
  }

  lemma SettledAlike(w: World, p: Progress, a: seq<string>, q: Progress, b: seq<string>, sid: int, prefix: string)
    requires Settled(w.primary, w, p, a, sid, prefix) && Settled(w.primary, w, q, b, sid, prefix)
    requires Distinct(a) && Distinct(b) && Elements(a) == Elements(b)
    ensures q.ips == p.ips && q.sids == p.sids
    ensures multiset(q.w.primary.hosts) == multiset(p.w.primary.hosts)
    ensures q.w.primary.(hosts := []) == p.w.primary.(hosts := []) && q.w.secondary == p.w.secondary
  {
    assert forall m :: m in a <==> m in Elements(a);
    assert forall m :: m in b <==> m in Elements(b);
    var na, nb := News(w.primary, a, sid, prefix), News(w.primary, b, sid, prefix);
    forall h ensures multiset(na)[h] == multiset(nb)[h] {
      NewsCount(w.primary, a, sid, prefix, h);
      NewsCount(w.primary, b, sid, prefix, h);
    }
    assert multiset(na) == multiset(nb);
  }

  lemma SameMembersCanonical(a: seq<string>, b: seq<string>)
    requires CanonicalMacs(a) && Elements(a) == Elements(b)
    ensures CanonicalMacs(b)
  {
    forall i | 0 <= i < |b| ensures b[i] != "" && Canon(b[i]) == b[i] && Lower(b[i]) == b[i] {
      assert b[i] in Elements(b);
      var j :| 0 <= j < |a| && a[j] == b[i];
    }
  }

  // ---------- Running the loop again ----------

  lemma {:induction false} FirstAddressAppend(a: seq<Host>, b: seq<Host>)
    ensures FirstAddress(ListHosts(a + b)) ==
      if FirstAddress(ListHosts(a)).ip != "" then FirstAddress(ListHosts(a)) else FirstAddress(ListHosts(b))
  {
    if a == [] {
      assert a + b == b;
    } else {
      assert (a + b)[1..] == a[1..] + b;
      assert ListHosts(a)[1..] == ListHosts(a[1..]);
      assert ListHosts(a + b)[1..] == ListHosts(a[1..] + b);
      FirstAddressAppend(a[1..], b);
    }
  }

  lemma {:induction false} HostsOfNews(k: Kea, macs: seq<string>, sid: int, prefix: string, mac: string)
    requires Distinct(macs) && CanonicalMacs(macs) && mac in macs
    ensures HostsOf(News(k, macs, sid, prefix), mac) ==
      if Needs(k, mac, sid) then [WantHost(k, mac, sid, prefix)] else []
  {
    var n := |macs| - 1;
    var last := macs[n];
    DistinctPrefix(macs);
    var early := News(k, macs[..n], sid, prefix);
    NewsMacs(k, macs[..n], sid, prefix);
    var tail := if Needs(k, last, sid) then [WantHost(k, last, sid, prefix)] else [];
    HostsOfAppend(early, tail, mac);
    assert tail != [] ==> tail[1..] == [];
    if mac == last {
      forall h | h in early ensures !EqualFold(h.mac, mac) {
        var i :| 0 <= i < n && macs[i] == h.mac;
        assert Lower(macs[i]) == macs[i] && Lower(macs[n]) == macs[n];
      }
      NoHostsOf(early, mac);
    } else {
      assert mac in macs[..n];
      HostsOfNews(k, macs[..n], sid, prefix, mac);
      var i :| 0 <= i < n && macs[i] == mac;
      assert Lower(macs[i]) == macs[i] && Lower(macs[n]) == macs[n];
    }
  }

  /** After an error-free run a truthful server leads to the same address and subnet, and nothing is missing any more. */
  lemma NothingNeeded(k: Kea, macs: seq<string>, sid: int, prefix: string, mac: string)
    requires Distinct(macs) && CanonicalMacs(macs) && mac in macs
    ensures var k' := k.(hosts := k.hosts + News(k, macs, sid, prefix));
      FoundAt(k', mac) == FoundAt(k, mac) && !Needs(k', mac, sid)
  {
    var news := News(k, macs, sid, prefix);
    var mine := HostsOf(k.hosts, mac);
    var h := WantHost(k, mac, sid, prefix);
    HostsOfAppend(k.hosts, news, mac);
    HostsOfNews(k, macs, sid, prefix, mac);
    var extra := HostsOf(news, mac);
    FirstAddressAppend(mine, extra);
    assert extra != [] ==> ListHosts(extra)[1..] == [] && extra == [h];
    if LeaseFrom(Answer(Leases(k.leases)), mac).ip == "" && FirstAddress(ListHosts(mine)).ip == "" {
      FoundNothing(mine);
      assert h.ip == "";
    }
    HasHostAppend(k.hosts, news, mac, WantSid(k, mac, sid));
    if Needs(k, mac, sid) {
      HostsOfMembers(news, mac);
      assert h in extra;
      var i :| 0 <= i < |news| && news[i] == h;
      assert IsHost(news[i], mac, WantSid(k, mac, sid));
    }
  }

  lemma {:induction false} FoundNothing(hosts: seq<Host>)
    requires FirstAddress(ListHosts(hosts)).ip == ""
    ensures FirstAddress(ListHosts(hosts)) == Found("", 0)
  {
    if hosts != [] {
      assert ListHosts(hosts)[1..] == ListHosts(hosts[1..]);
      FoundNothing(hosts[1..]);
    }
  }

  lemma {:induction false} NoNews(k: Kea, macs: seq<string>, sid: int, prefix: string)
    requires forall m :: m in macs ==> !Needs(k, m, sid)
    ensures News(k, macs, sid, prefix) == []
  {
    if macs != [] {
      assert macs[|macs| - 1] in macs;
      NoNews(k, macs[..|macs| - 1], sid, prefix);
    }
  }

  lemma {:induction false} QuietLoop(fates: Fates, w: World, macs: seq<string>, sid: int, prefix: string)
    requires Truthful(fates) && CanonicalMacs(macs)
    requires forall m :: m in macs ==> !Needs(w.primary, m, sid)
    ensures OnlyReads(w, ReserveAll(fates, w, macs, sid, prefix).w)
  {
    if macs != [] {
      var n := |macs| - 1;
      QuietLoop(fates, w, macs[..n], sid, prefix);
      TruthfulReserve(fates, ReserveAll(fates, w, macs[..n], sid, prefix), macs[n], sid, prefix);
      assert macs[n] in macs;
    }
  }

  /** Running the loop again, in any order, sends only queries and reports the same maps. */
  lemma SecondLoopIsQuiet(fates: Fates, fates2: Fates, w: World, a: seq<string>, w2: World, b: seq<string>,
                          sid: int, prefix: string)
    requires Truthful(fates) && Truthful(fates2)
    requires Distinct(a) && Distinct(b) && CanonicalMacs(a) && Elements(a) == Elements(b)
    requires ReserveAll(fates, w, a, sid, prefix).errs == []
    requires w2.primary == ReserveAll(fates, w, a, sid, prefix).w.primary
    ensures var p, q := ReserveAll(fates, w, a, sid, prefix), ReserveAll(fates2, w2, b, sid, prefix);
      q.errs == [] && q.ips == p.ips && q.sids == p.sids && OnlyReads(w2, q.w)
  {
    SameMembersCanonical(a, b);
    LoopCharacterised(fates, w, a, sid, prefix);
    SecondWants(w.primary, w2.primary, a, b, sid, prefix);
    LoopCharacterised(fates2, w2, b, sid, prefix);
    QuietLoop(fates2, w2, b, sid, prefix);
  }

  lemma SecondWants(k: Kea, k2: Kea, a: seq<string>, b: seq<string>, sid: int, prefix: string)
    requires Distinct(a) && CanonicalMacs(a) && Elements(a) == Elements(b)
    requires k2 == k.(hosts := k.hosts + News(k, a, sid, prefix))
    ensures forall m :: m in b ==> !Needs(k2, m, sid)
    ensures Compatible(k2, Elements(b), sid, prefix)
    ensures SidsOf(k2, b, sid) == SidsOf(k, a, sid) && IpsOf(k2, b, prefix) == IpsOf(k, a, prefix)
  {
    forall m | m in b ensures FoundAt(k2, m) == FoundAt(k, m) && !Needs(k2, m, sid) {
      assert m in Elements(b);
      NothingNeeded(k, a, sid, prefix, m);
    }
    SameMaps(k, k2, a, b, sid, prefix);
  }

  lemma SameMaps(k: Kea, k2: Kea, a: seq<string>, b: seq<string>, sid: int, prefix: string)
    requires Elements(a) == Elements(b) && forall m :: m in b ==> FoundAt(k2, m) == FoundAt(k, m)
    ensures SidsOf(k2, b, sid) == SidsOf(k, a, sid) && IpsOf(k2, b, prefix) == IpsOf(k, a, prefix)
  {
    assert forall m :: m in a <==> m in Elements(a);
    assert forall m :: m in b <==> m in Elements(b);
  }

  // ---------- Cleanup ----------

  lemma {:induction false} WithoutNothing(hosts: seq<Host>, sid: int)
    ensures Without(hosts, {}, sid) == hosts
  {
    if hosts != [] { WithoutNothing(hosts[1..], sid); }
  }

  lemma TruthfulDelete(fates: Fates, w: World, mac: string, sid: int)
    requires Truthful(fates) && mac != "" && Canon(mac) == mac && Lower(mac) == mac
    ensures var w' := DeleteReservation(fates, w, mac, sid);
      w'.primary == w.primary.(hosts := Without(w.primary.hosts, {mac}, sid)) && w'.secondary == w.secondary
  {
    TruthfulSend(fates, w, ReservationDel(mac, sid));
  }

  lemma RemovedTwice(k: Kea, k1: Kea, k2: Kea, m1: set<string>, m2: set<string>, sid: int)
    requires k1 == k.(hosts := Without(k.hosts, m1, sid)) && k2 == k1.(hosts := Without(k1.hosts, m2, sid))
    ensures k2 == k.(hosts := Without(k.hosts, m1 + m2, sid))
  {
    WithoutTwice(k.hosts, m1, m2, sid);
  }

  /** Cleanup against a truthful server removes exactly the hosts of the listed MACs in the resolved subnet. */
  lemma {:induction false} CleanupRemovesExactly(fates: Fates, w: World, macs: seq<string>, sid: int)
    requires Truthful(fates) && CanonicalMacs(macs)
    ensures var w' := DeleteAll(fates, w, macs, sid);
      w'.primary == w.primary.(hosts := Without(w.primary.hosts, Elements(macs), sid)) && w'.secondary == w.secondary
  {
    if macs == [] {
      assert Elements(macs) == {};
      WithoutNothing(w.primary.hosts, sid);
    } else {
      var n := |macs| - 1;
      CleanupRemovesExactly(fates, w, macs[..n], sid);
      var w1 := DeleteAll(fates, w, macs[..n], sid);
      TruthfulDelete(fates, w1, macs[n], sid);
      ElementsSnoc(macs);
      RemovedTwice(w.primary, w1.primary, DeleteReservation(fates, w1, macs[n], sid).primary,
                   Elements(macs[..n]), {macs[n]}, sid);
    }
  }

  /** Under any fates cleanup touches no other host: on each peer the rest of the table is as it was, in order. */
  lemma {:induction false} CleanupTouchesNothingElse(fates: Fates, w: World, macs: seq<string>, sid: int)
    requires CanonicalMacs(macs)
    ensures var w' := DeleteAll(fates, w, macs, sid);
      && RestKept(w.primary, w'.primary, Elements(macs), sid)
      && w'.secondary.Some? == w.secondary.Some?
      && (w.secondary.Some? ==> RestKept(w.secondary.value, w'.secondary.value, Elements(macs), sid))
  {
    if macs != [] {
      var n := |macs| - 1;
      CleanupTouchesNothingElse(fates, w, macs[..n], sid);
      var w1 := DeleteAll(fates, w, macs[..n], sid);
      SendEffect(fates, w1, ReservationDel(macs[n], sid));
      var w' := DeleteAll(fates, w, macs, sid);
      ElementsSnoc(macs);
      DeleteStep(w.primary, w1.primary, w'.primary, Elements(macs[..n]), macs[n], sid);
      if w.secondary.Some? {
        DeleteStep(w.secondary.value, w1.secondary.value, w'.secondary.value, Elements(macs[..n]), macs[n], sid);
      }
    }
  }

  predicate RestKept(k: Kea, k': Kea, macs: set<string>, sid: int) {
    && k'.(hosts := k.hosts) == k
    && Without(k'.hosts, macs, sid) == Without(k.hosts, macs, sid)
    && (forall h :: h in k'.hosts ==> h in k.hosts)
  }

  lemma DeleteStep(k0: Kea, k1: Kea, k2: Kea, macs: set<string>, mac: string, sid: int)
    requires RestKept(k0, k1, macs, sid) && Lower(mac) == mac
    requires k2 == k1 || k2 == Apply(k1, ReservationDel(mac, sid))
    ensures RestKept(k0, k2, macs + {mac}, sid)
  {
    WithoutTwice(k0.hosts, macs, {mac}, sid);
    WithoutTwice(k1.hosts, macs, {mac}, sid);
    WithoutTwice(k1.hosts, {mac}, macs + {mac}, sid);
    assert {mac} + (macs + {mac}) == macs + {mac};
    WithoutMembers(k1.hosts, {mac}, sid);
  }

  lemma {:induction false} WithoutAll(hosts: seq<Host>, macs: set<string>, sid: int)
    ensures Without(hosts, macs, sid) == [] <==>
      forall h :: h in hosts ==> Lower(h.mac) in macs && h.subnetId == sid
  {
    WithoutMembers(hosts, macs, sid);
    if Without(hosts, macs, sid) != [] {
      assert Without(hosts, macs, sid)[0] in hosts;
    }
  }

  /**
   An error-free loop followed by cleanup in subnet s leaves the original hosts minus the listed (MAC, s) pairs
   exactly when every host the loop added went into subnet s; otherwise a reservation stays behind.
   */
  lemma CreateThenDelete(fates: Fates, fates2: Fates, w: World, macs: seq<string>, sid: int, prefix: string, s: int)
    requires Truthful(fates) && Truthful(fates2) && Distinct(macs) && CanonicalMacs(macs)
    requires ReserveAll(fates, w, macs, sid, prefix).errs == []
    ensures var after := DeleteAll(fates2, ReserveAll(fates, w, macs, sid, prefix).w, macs, s).primary;
      after.hosts == Without(w.primary.hosts, Elements(macs), s) <==>
        forall m :: m in macs && Needs(w.primary, m, sid) ==> WantSid(w.primary, m, sid) == s
  {
    var k := w.primary;
    var news := News(k, macs, sid, prefix);
    LoopCharacterised(fates, w, macs, sid, prefix);
    CleanupRemovesExactly(fates2, ReserveAll(fates, w, macs, sid, prefix).w, macs, s);
    WithoutAppend(k.hosts, news, Elements(macs), s);
    WithoutAll(news, Elements(macs), s);
    NewsMacs(k, macs, sid, prefix);
    var kept := Without(k.hosts, Elements(macs), s);
    assert kept + Without(news, Elements(macs), s) == kept <==> Without(news, Elements(macs), s) == [];
    forall h | h in news ensures Lower(h.mac) in Elements(macs) {
      var i :| 0 <= i < |macs| && macs[i] == h.mac;
      assert Lower(macs[i]) == macs[i];
    }
    if exists m :: m in macs && Needs(k, m, sid) && WantSid(k, m, sid) != s {
      var m :| m in macs && Needs(k, m, sid) && WantSid(k, m, sid) != s;
      assert WantHost(k, m, sid, prefix) in news;
    }
  }
}
