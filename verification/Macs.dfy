/** MAC addresses of a NetworkConfiguration: normalising, validating and collecting them. */
module Macs {
  import opened Text
  import opened Service

  datatype Interface = Interface(name: string, mac: string, vlan: string)

  /** Extraction: trim, lower, then '-' to ':'. */
  function Normal(s: string): string { Dashes(Lower(TrimSpace(s))) }

  /** Status building: '-' to ':', trim, then lower. */
  function StatusNormal(s: string): string { Lower(TrimSpace(Dashes(s))) }

  predicate IsHex(c: char) { '0' <= c <= '9' || 'a' <= c <= 'f' || 'A' <= c <= 'F' }

  /** Pairs of hex digits between ':', or quadruples between '.'; 6, 8 or 20 octets (net.ParseMAC). */
  predicate ValidMac(s: string) {
    || (|s| in {17, 23, 59} && forall i :: 0 <= i < |s| ==> if i % 3 == 2 then s[i] == ':' else IsHex(s[i]))
    || (|s| in {14, 19, 49} && forall i :: 0 <= i < |s| ==> if i % 5 == 4 then s[i] == '.' else IsHex(s[i]))
  }

  /** The distinct valid MACs of a spec. */
  function MacSet(interfaces: seq<Interface>): set<string> {
    set i | 0 <= i < |interfaces| && ValidMac(Normal(interfaces[i].mac)) :: Normal(interfaces[i].mac)
  }

  predicate Distinct(order: seq<string>) {
    forall i, j :: 0 <= i < j < |order| ==> order[i] != order[j]
  }

  /** A listing of a set without repetition: one of the orders a Go map can be ranged over. */
  ghost predicate Enumerates(order: seq<string>, macs: set<string>) {
    Distinct(order) && (forall m :: m in order <==> m in macs)
  }

  method ExtractMacs(interfaces: seq<Interface>) returns (macs: seq<string>)
    ensures Enumerates(macs, MacSet(interfaces))
  {
    var uniq: set<string> := {};
    for i := 0 to |interfaces|
      invariant uniq == MacSet(interfaces[..i])
    {
      assert interfaces[..i + 1] == interfaces[..i] + [interfaces[i]];
      MacSetAppend(interfaces[..i], interfaces[i]);
      var s := Lower(TrimSpace(interfaces[i].mac));
      if interfaces[i].mac == "" || s == "" {
        assert Dashes(s) == "";
        continue;
      }
      s := Dashes(s);
      if ValidMac(s) { uniq := uniq + {s}; }
    }
    assert interfaces[..|interfaces|] == interfaces;
    macs := [];
    var rest := uniq;
    while rest != {}
      invariant rest <= uniq
      invariant Enumerates(macs, uniq - rest)
      decreases rest
    {
      var m :| m in rest;
      macs, rest := macs + [m], rest - {m};
    }
  }

  lemma MacSetAppend(interfaces: seq<Interface>, x: Interface)
    ensures MacSet(interfaces + [x]) == MacSet(interfaces) + if ValidMac(Normal(x.mac)) then {Normal(x.mac)} else {}
  {
    var all := interfaces + [x];
    forall m | m in MacSet(interfaces) ensures m in MacSet(all) {
      var i :| 0 <= i < |interfaces| && ValidMac(Normal(interfaces[i].mac)) && m == Normal(interfaces[i].mac);
      assert all[i] == interfaces[i];
    }
    if ValidMac(Normal(x.mac)) {
      assert all[|interfaces|] == x;
      assert Normal(x.mac) in MacSet(all);
    }
  }

  /** The two normalisations agree on every string. */
  lemma NormalisationsAgree(s: string)
    ensures Normal(s) == StatusNormal(s)
  {
    forall c ensures IsSpace(DashToColon(c)) <==> IsSpace(c) {}
    forall c ensures LowerChar(DashToColon(c)) == DashToColon(LowerChar(c)) {}
    TrimMap(DashToColon, s);
    MapCommutes(DashToColon, LowerChar, TrimSpace(s));
  }

  /** A normalised MAC is left alone by the lower-casing and trimming of the Kea operations. */
  lemma NormalIsCanon(s: string)
    ensures Canon(Normal(s)) == Normal(s) && Lower(Normal(s)) == Normal(s)
  {
    NormalisationsAgree(s);
    CanonFixed(Dashes(s));
  }

  /** Every MAC the controller works with is valid, and in the form Kea stores. */
  lemma MacSetCanon(interfaces: seq<Interface>)
    ensures forall m :: m in MacSet(interfaces) ==> ValidMac(m) && m != "" && Canon(m) == m && Lower(m) == m
  {
    forall m | m in MacSet(interfaces) ensures ValidMac(m) && m != "" && Canon(m) == m && Lower(m) == m {
      var i :| 0 <= i < |interfaces| && ValidMac(Normal(interfaces[i].mac)) && m == Normal(interfaces[i].mac);
      NormalIsCanon(interfaces[i].mac);
    }
  }
}
