/** The operations of internal/services/kea/service.go as they are written: commands sent one by one, answers scanned in loops. */
module KeaService {
  import opened Text
  import opened KeaServer
  import opened Client
  import S = Service

  // ---------- Scans of answers ----------

  method ScanForId(entries: seq<SubnetEntry>, cidr: string) returns (id: Option<int>)
    ensures id == S.FindId(entries, cidr)
    ensures id.Some? ==> SubnetEntry(cidr, id) in entries
    ensures id.None? ==> forall i :: 0 <= i < |entries| && entries[i].SubnetEntry? && entries[i].cidr == cidr ==> entries[i].id.None?
  {
    for i := 0 to |entries|
      invariant S.FindId(entries, cidr) == S.FindId(entries[i..], cidr)
      invariant forall j :: 0 <= j < i && entries[j].SubnetEntry? && entries[j].cidr == cidr ==> entries[j].id.None?
    {
      assert entries[i..][1..] == entries[i + 1..];
      var e := entries[i];
      if e.SubnetEntry? && e.cidr == cidr && e.id.Some? {
        return e.id;
      }
    }
    return None;
  }

  method NextId(entries: seq<SubnetEntry>) returns (id: int)
    ensures id == S.MaxId(entries) + 1
    ensures id >= 1 && forall i :: 0 <= i < |entries| ==> S.EntryId(entries[i]) < id
    ensures id == 1 || exists i :: 0 <= i < |entries| && S.EntryId(entries[i]) == id - 1
  {
    var maxId := 0;
    for i := 0 to |entries|
      invariant maxId == S.MaxId(entries[..i])
    {
      assert entries[..i + 1][..i] == entries[..i];
      var e := entries[i];
      if e.SubnetEntry? && e.id.Some? && e.id.value > maxId { maxId := e.id.value; }
    }
    assert entries[..|entries|] == entries;
    id := maxId + 1;
  }

  method ScanOptions(entries: seq<OptionEntry>) returns (gateway: string, dns: seq<string>)
    ensures S.Routing(gateway, dns) == S.ReadOptions(entries)
  {
    gateway, dns := "", [];
    for i := 0 to |entries|
      invariant S.Routing(gateway, dns) == S.ReadOptions(entries[..i])
    {
      assert entries[..i + 1][..i] == entries[..i];
      var e := entries[i];
      if e.OptionEntry? && e.code == 3 && e.data != "" {
        gateway := e.data;
      } else if e.OptionEntry? && e.code == 6 && e.data != "" {
        var pieces := Split(e.data, ',');
        ghost var before := dns;
        for j := 0 to |pieces|
          invariant dns + S.DnsFields(pieces[j..]) == before + S.DnsFields(pieces)
        {
          assert pieces[j..][1..] == pieces[j + 1..];
          var entry := TrimSpace(pieces[j]);
          if entry != "" { dns := dns + [entry]; }
        }
        assert dns + [] == dns;
      }
    }
    assert entries[..|entries|] == entries;
  }

  /** The newest matching lease; an empty address if there is none. */
  method ScanLeases(entries: seq<LeaseEntry>, mac: string) returns (found: S.Found)
    ensures found == S.LeaseFrom(Answer(Leases(entries)), mac)
    ensures found.ip == "" <==> forall j :: 0 <= j < |entries| ==> !S.LeaseMatches(entries[j], mac)
    ensures found.ip != "" ==> exists i ::
      && 0 <= i < |entries| && S.LeaseMatches(entries[i], mac)
      && found == S.Found(entries[i].ip, entries[i].subnetId)
      && (forall j :: 0 <= j < |entries| && S.LeaseMatches(entries[j], mac) ==> entries[j].cltt <= entries[i].cltt)
      && (forall j :: 0 <= j < i && S.LeaseMatches(entries[j], mac) ==> entries[j].cltt < entries[i].cltt)
  {
    var bestIp, bestSid, bestCltt := "", 0, 0.0;
    for i := 0 to |entries|
      invariant S.BestLease(entries[..i], mac).None? ==> bestIp == "" && bestSid == 0
      invariant S.BestLease(entries[..i], mac).Some? ==>
        var b := entries[S.BestLease(entries[..i], mac).value]; bestIp == b.ip && bestSid == b.subnetId && bestCltt == b.cltt
    {
      assert entries[..i + 1][..i] == entries[..i];
      var e := entries[i];
      if e.JunkLease? || !EqualFold(TrimSpace(e.hw), mac) || e.ip == "" { continue; }
      if bestIp == "" || e.cltt > bestCltt {
        bestIp, bestSid, bestCltt := e.ip, e.subnetId, e.cltt;
      }
    }
    assert entries[..|entries|] == entries;
    S.BestLeaseIsFirstNewest(entries, mac);
    return S.Found(bestIp, bestSid);
  }

  /** The first stored address, with the subnet of that entry or 0 if it names none. */
  method ScanAddresses(entries: seq<HostEntry>) returns (found: S.Found)
    ensures found == S.FirstAddress(entries)
    ensures found.ip == "" <==> forall j :: 0 <= j < |entries| ==> !S.Addressed(entries[j])
    ensures found.ip == "" ==> found.subnetId == 0
    ensures found.ip != "" ==> exists i ::
      && 0 <= i < |entries| && S.Addressed(entries[i]) && (forall j :: 0 <= j < i ==> !S.Addressed(entries[j]))
      && found.ip == entries[i].ip
      && (entries[i].subnetId.Some? ==> found.subnetId == entries[i].subnetId.value)
      && (entries[i].subnetId.None? ==> found.subnetId == 0)
  {
    for i := 0 to |entries|
      invariant S.FirstAddress(entries) == S.FirstAddress(entries[i..])
      invariant forall j :: 0 <= j < i ==> !S.Addressed(entries[j])
    {
      assert entries[i..][1..] == entries[i + 1..];
      var e := entries[i];
      if e.HostEntry? && e.ip != "" {
        assert S.Addressed(entries[i]);
        return S.Found(e.ip, if e.subnetId.Some? then e.subnetId.value else 0);
      }
    }
    return S.Found("", 0);
  }

  method ScanHosts(entries: seq<HostEntry>, mac: string, sid: Option<int>) returns (found: bool)
    ensures found <==> exists i :: 0 <= i < |entries| && HostMatch(entries[i], mac, sid)
  {
    for i := 0 to |entries|
      invariant forall j :: 0 <= j < i ==> !HostMatch(entries[j], mac, sid)
    {
      var e := entries[i];
      if e.HostEntry? && e.hw.Some? && EqualFold(e.hw.value, mac) {
        if sid.Some? && e.subnetId.Some? && e.subnetId.value != sid.value { continue; }
        return true;
      }
    }
    return false;
  }

  predicate HostMatch(e: HostEntry, mac: string, sid: Option<int>) {
    if sid.Some? then S.EntryMatches(e, mac, sid.value) else e.HostEntry? && e.hw.Some? && EqualFold(e.hw.value, mac)
  }

  // ---------- The service ----------

  class KeaOperations {
    const client: KeaClient

    constructor (client: KeaClient)
      ensures this.client == client
    {
      this.client := client;
    }

    method GetSubnetId(cidr: string) returns (r: Result<int>)
      requires client.Valid()
      modifies client
      ensures client.Valid() && (client.world, r) == S.GetSubnetId(client.fates, old(client.world), cidr)
    {
      var resp := client.Send(SubnetList);
      match resp
      case NoReply(why) => r := Err(why);
      case Refusal(why) => r := Err(why);
      case Answer(Subnets(entries)) =>
        var id := ScanForId(entries, cidr);
        r := if id.Some? then Ok(id.value) else Err(NoMatchingSubnet);
      case Answer(_) => r := Err(OtherFailure);
    }

    method GetNextSubnetId() returns (id: int)
      requires client.Valid()
      modifies client
      ensures client.Valid() && client.world == KeaServer.Send(client.fates, old(client.world), SubnetList).0
      ensures id == S.NextIdFrom(KeaServer.Send(client.fates, old(client.world), SubnetList).1)
    {
      var resp := client.Send(SubnetList);
      match resp
      case Answer(Subnets(entries)) => id := NextId(entries);
      case _ => id := 1;
    }

    method CreateSubnet(cfg: S.SubnetConfig) returns (r: Result<int>)
      requires client.Valid()
      modifies client
      ensures client.Valid() && (client.world, r) == S.CreateSubnet(client.fates, old(client.world), cfg)
    {
      if cfg.cidr == "" { return Err(OtherFailure); }
      var id := cfg.id;
      if id <= 0 { id := GetNextSubnetId(); }
      var resp := client.Send(SubnetAdd(S.Document(cfg, id)));
      match resp
      case NoReply(why) => r := Err(why);
      case Refusal(why) => r := Err(why);
      case Answer(_) => r := Ok(id);
    }

    /** The body that runs under the per-CIDR lock. */
    method GetOrCreateSubnet(cfg: S.SubnetConfig) returns (r: Result<S.Resolved>)
      requires client.Valid()
      modifies client
      ensures client.Valid() && (client.world, r) == S.GetOrCreateSubnet(client.fates, old(client.world), cfg)
    {
      var found := GetSubnetId(cfg.cidr);
      if found.Ok? { return Ok(S.Resolved(found.value, false)); }
      if found.why != NoMatchingSubnet { return Err(found.why); }
      var made := CreateSubnet(cfg);
      if made.Ok? { return Ok(S.Resolved(made.value, true)); }
      var again := GetSubnetId(cfg.cidr);
      if again.Ok? { return Ok(S.Resolved(again.value, false)); }
      return Err(made.why);
    }

    method GetSubnetInfo(id: int) returns (r: Result<S.SubnetInfo>)
      requires client.Valid()
      modifies client
      ensures client.Valid() && (client.world, r) == S.GetSubnetInfo(client.fates, old(client.world), id)
    {
      var resp := client.Send(SubnetGet(id));
      match resp
      case NoReply(why) => r := Err(why);
      case Refusal(why) => r := Err(why);
      case Answer(Details(details)) =>
        if details == [] || details[0].JunkDetail? { return Err(OtherFailure); }
        var gateway, dns := ScanOptions(details[0].options);
        r := Ok(S.SubnetInfo(id, details[0].cidr, gateway, dns));
        assert S.ReadOptions(details[0].options) == S.Routing(gateway, dns);
      case Answer(_) => r := Err(OtherFailure);
    }

    method MacReservationExists(mac: string, sid: int) returns (found: bool)
      requires client.Valid()
      modifies client
      ensures client.Valid() && (client.world, found) == S.MacReservationExists(client.fates, old(client.world), mac, sid)
    {
      var m := S.Canon(mac);
      if m == "" { return false; }
      var resp := client.Send(ReservationById(m));
      match resp {
        case Answer(Hosts(entries)) =>
          found := ScanHosts(entries, m, Some(sid));
          assert forall i :: 0 <= i < |entries| ==> HostMatch(entries[i], m, Some(sid)) == S.EntryMatches(entries[i], m, sid);
          return;
        case Answer(_) => return false;
        case Refusal(Absent) => return false;
        case _ =>
      }
      var resp2 := client.Send(ReservationAll(sid));
      match resp2
      case Answer(Hosts(entries)) =>
        found := ScanHosts(entries, m, None);
        assert S.ScanVerdict(resp2, m) == (exists i :: 0 <= i < |entries| && HostMatch(entries[i], m, None));
      case _ => found := false;
    }

    method EnsureReservation(mac: string, sid: int, ip: string) returns (r: Result<bool>)
      requires client.Valid()
      modifies client
      ensures client.Valid() && (client.world, r) == S.EnsureReservation(client.fates, old(client.world), mac, sid, ip)
    {
      var m := S.Canon(mac);
      if m == "" { return Err(OtherFailure); }
      var found := MacReservationExists(m, sid);
      if found { return Ok(false); }
      var resp := client.Send(ReservationAdd(Host(m, sid, TrimSpace(ip))));
      match resp
      case NoReply(why) => r := Err(why);
      case Refusal(why) => r := Err(why);
      case Answer(_) => r := Ok(true);
    }

    method DeleteReservation(mac: string, sid: int)
      requires client.Valid()
      modifies client
      ensures client.Valid() && client.world == S.DeleteReservation(client.fates, old(client.world), mac, sid)
    {
      var m := S.Canon(mac);
      if m != "" {
        var _ := client.Send(ReservationDel(m, sid));
      }
    }

    method GetLease(mac: string) returns (found: S.Found)
      requires client.Valid()
      modifies client
      ensures client.Valid() && (client.world, found) == S.GetLease(client.fates, old(client.world), mac)
    {
      var m := S.Canon(mac);
      if m == "" { return S.Found("", 0); }
      var resp := client.Send(LeaseByMac(m));
      match resp {
        case Answer(Leases(entries)) =>
          found := ScanLeases(entries, m);
          if found.ip != "" { return; }
        case Answer(OneLease(e)) =>
          if e.LeaseEntry? && e.ip != "" { return S.Found(e.ip, e.subnetId); }
        case _ =>
      }
      var resp2 := client.Send(ReservationById(m));
      match resp2
      case Answer(Hosts(entries)) => found := ScanAddresses(entries);
      case _ => found := S.Found("", 0);
    }
  }
}
