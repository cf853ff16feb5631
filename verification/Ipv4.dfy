/** IPv4 networks and the address pool carved out of one (internal/util/subnet/subnet.go). */
module Ipv4 {
  import opened Text

  type byte = n: int | 0 <= n < 256
  type Bytes = s: seq<byte> | |s| == 4 witness [0, 0, 0, 0]

  /** The address as a 32-bit number, most significant byte first. */
  function Value(b: Bytes): (v: nat)
    ensures v < 0x1_0000_0000
  {
    (((b[0] as int) * 256 + b[1] as int) * 256 + b[2] as int) * 256 + b[3] as int
  }

  /** A network in CIDR notation; the host bits of the address are clear. */
  datatype Network = Network(address: Bytes, bits: nat) {
    predicate Valid() {
      bits <= 32 && forall i :: 0 <= i < 4 ==> BitAnd(address[i], HostByte(bits, i)) == 0
    }

    function First(): nat { Value(address) }

    /** How many addresses the block holds. */
    function Size(): nat requires bits <= 32 { BlockSize(bits) }

    function Last(): int requires bits <= 32 { First() + Size() - 1 }

    predicate Contains(a: int) requires bits <= 32 { First() <= a <= Last() }
  }

  /** 2^(32 - bits). */
  function BlockSize(bits: nat): (size: nat)
    requires bits <= 32
    ensures size >= 1
    decreases 32 - bits
  {
    if bits == 32 then 1 else 2 * BlockSize(bits + 1)
  }

  /** Byte i of the host part of a mask: the complement of the mask byte net.CIDRMask builds. */
  function HostByte(bits: nat, i: nat): byte
    requires bits <= 32 && i < 4
  {
    if bits >= 8 * i + 8 then 0
    else if bits <= 8 * i then 255
    else match bits - 8 * i
      case 1 => 127 case 2 => 63 case 3 => 31 case 4 => 15
      case 5 => 7 case 6 => 3 case _ => 1
  }

  function MaskByte(bits: nat, i: nat): byte
    requires bits <= 32 && i < 4
  {
    255 - HostByte(bits, i)
  }

  /** The bitwise operators, bit by bit. */
  function BitOr(a: nat, b: nat): nat
    decreases a + b
  {
    if a == 0 && b == 0 then 0
    else (if a % 2 == 1 || b % 2 == 1 then 1 else 0) + 2 * BitOr(a / 2, b / 2)
  }

  function BitAnd(a: nat, b: nat): nat
    decreases a + b
  {
    if a == 0 || b == 0 then 0
    else (if a % 2 == 1 && b % 2 == 1 then 1 else 0) + 2 * BitAnd(a / 2, b / 2)
  }

  function BitClear(a: nat, b: nat): (r: nat)
    ensures r <= a
    decreases a + b
  {
    if a == 0 then 0
    else (if a % 2 == 1 && b % 2 == 0 then 1 else 0) + 2 * BitClear(a / 2, b / 2)
  }

  /** Go's byte arithmetic wraps modulo 256. */
  function Wrap(n: int): byte { n % 256 }

  function Broadcast(net: Network): Bytes
    requires net.bits <= 32
  {
    [BroadcastByte(net, 0), BroadcastByte(net, 1), BroadcastByte(net, 2), BroadcastByte(net, 3)]
  }

  function BroadcastByte(net: Network, i: nat): byte
    requires net.bits <= 32 && i < 4
  {
    OrByte(net.address[i], 255 - MaskByte(net.bits, i))
  }

  function OrByte(a: byte, b: byte): byte {
    OrBound(a, b, 256);
    BitOr(a, b)
  }

  predicate Less(a: Bytes, b: Bytes) {
    exists i :: 0 <= i < 4 && a[i] < b[i] && a[..i] == b[..i]
  }

  datatype Pool = Pool(gateway: Bytes, start: Bytes, end: Bytes)

  /** The pool the byte computation offers, before it is checked for size. */
  function Candidate(net: Network): Pool
    requires net.bits <= 32
  {
    PoolBetweenBytes(net.address, Broadcast(net))
  }

  function PoolBetweenBytes(ip: Bytes, broadcast: Bytes): Pool {
    Pool(ip[3 := Wrap(ip[3] as int + 1)], ip[3 := Wrap(ip[3] as int + 4)],
         broadcast[3 := Wrap(broadcast[3] as int - 1)])
  }

  function Checked(pool: Pool): Option<Pool> {
    if Less(pool.start, pool.end) then Some(pool) else None
  }

  /** CalculatePoolFromCIDR on a parsed network: None is "too small for a valid pool". */
  function PoolOf(net: Network): Option<Pool>
    requires net.bits <= 32
  {
    Checked(Candidate(net))
  }

  // ---------- The byte loops ----------

  method IsIpLess(a: array<byte>, b: array<byte>) returns (less: bool)
    requires a.Length == 4 && b.Length == 4
    ensures less == Less(a[..], b[..])
  {
    LessIsNumeric(a[..], b[..]);
    for i := 0 to 4
      invariant a[..i] == b[..i]
    {
      if a[i] < b[i] {
        assert a[..][..i] == a[..i] && b[..][..i] == b[..i];
        return true;
      }
      if a[i] > b[i] {
        assert a[..][..i] == a[..i] && b[..][..i] == b[..i];
        assert Less(b[..], a[..]);
        LessIsNumeric(b[..], a[..]);
        return false;
      }
    }
    return false;
  }

  method FillHostBits(net: Network, ip: array<byte>, mask: array<byte>) returns (broadcast: array<byte>)
    requires net.bits <= 32 && ip.Length == 4 && mask.Length == 4 && ip[..] == net.address
    requires forall k :: 0 <= k < 4 ==> mask[k] == MaskByte(net.bits, k)
    ensures fresh(broadcast) && broadcast.Length == 4 && broadcast[..] == Broadcast(net)
  {
    broadcast := new byte[4](_ => 0);
    for i := 0 to 4
      invariant forall k :: 0 <= k < i ==> broadcast[k] == BroadcastByte(net, k)
    {
      assert ip[i] == ip[..][i];
      broadcast[i] := OrByte(ip[i], 255 - mask[i]);
    }
  }

  /** A copy with its last byte moved by k, as Go's byte arithmetic does it. */
  method CopyAndMove(ip: array<byte>, k: int) returns (moved: array<byte>)
    requires ip.Length == 4
    ensures fresh(moved) && moved.Length == 4
    ensures moved[..] == ip[..][3 := Wrap(ip[3] as int + k)]
  {
    moved := new byte[4](i requires 0 <= i < 4 reads ip => ip[i]);
    moved[3] := Wrap(moved[3] as int + k);
  }

  method CalculatePool(net: Network) returns (r: Option<Pool>)
    requires net.bits <= 32
    ensures r == PoolOf(net)
  {
    var ip := new byte[4](i requires 0 <= i < 4 => net.address[i]);
    var mask := new byte[4](i requires 0 <= i < 4 => MaskByte(net.bits, i));
    assert ip[..] == net.address;
    var broadcast := FillHostBits(net, ip, mask);
    r := PoolBetween(net, ip, broadcast);
  }

  method PoolBetween(net: Network, ip: array<byte>, broadcast: array<byte>) returns (r: Option<Pool>)
    requires net.bits <= 32 && ip.Length == 4 && broadcast.Length == 4
    requires ip[..] == net.address && broadcast[..] == Broadcast(net)
    ensures r == PoolOf(net)
  {
    var gateway := CopyAndMove(ip, 1);
    var poolStart := CopyAndMove(ip, 4);
    var poolEnd := CopyAndMove(broadcast, -1);
    var pool := Pool(gateway[..], poolStart[..], poolEnd[..]);
    assert pool == PoolBetweenBytes(net.address, Broadcast(net));
    var fits := IsIpLess(poolStart, poolEnd);
    r := if fits then Some(pool) else None;
  }

  // ---------- Bytes against 32-bit numbers ----------

  lemma LessIsNumeric(a: Bytes, b: Bytes)
    ensures Less(a, b) <==> Value(a) < Value(b)
  {
    if Value(a) < Value(b) {
      var i := if a[0] != b[0] then 0 else if a[1] != b[1] then 1 else if a[2] != b[2] then 2 else 3;
      assert a[i] < b[i] && a[..i] == b[..i];
    }
    if Less(a, b) {
      var i :| 0 <= i < 4 && a[i] < b[i] && a[..i] == b[..i];
      assert forall k :: 0 <= k < i ==> a[..i][k] == a[k] && b[..i][k] == b[k];
    }
  }

  lemma {:induction false} OrZero(a: nat)
    ensures BitOr(a, 0) == a
  {
    if a != 0 { OrZero(a / 2); }
  }

  /** Disjoint bits: or is addition, nothing carries. */
  lemma {:induction false} OrDisjoint(a: nat, b: nat)
    requires BitAnd(a, b) == 0
    ensures BitOr(a, b) == a + b
    decreases a + b
  {
    if b == 0 {
      OrZero(a);
    } else if a == 0 {
      OrDisjoint(0, b / 2);
    } else {
      OrDisjoint(a / 2, b / 2);
    }
  }

  lemma {:induction false} OrBound(a: nat, b: nat, bound: nat)
    requires bound in {1, 2, 4, 8, 16, 32, 64, 128, 256} && a < bound && b < bound
    ensures BitOr(a, b) < bound
  {
    if bound > 1 { OrBound(a / 2, b / 2, bound / 2); }
  }

  lemma {:induction false} ClearedBits(a: nat, b: nat)
    ensures BitAnd(BitClear(a, b), b) == 0
    decreases a + b
  {
    if a != 0 && b != 0 {
      ClearedBits(a / 2, b / 2);
      assert BitClear(a, b) / 2 == BitClear(a / 2, b / 2);
    }
  }

  lemma HostBytesValue(bits: nat)
    requires bits <= 32
    ensures Value([HostByte(bits, 0), HostByte(bits, 1), HostByte(bits, 2), HostByte(bits, 3)]) == BlockSize(bits) - 1
    decreases 32 - bits
  {
    if bits < 32 {
      HostBytesValue(bits + 1);
      HostByteDoubles(bits, 0);
      HostByteDoubles(bits, 1);
      HostByteDoubles(bits, 2);
      HostByteDoubles(bits, 3);
    }
  }

  /** One bit less of prefix doubles the byte the bit sits in and leaves the others alone. */
  lemma HostByteDoubles(bits: nat, i: nat)
    requires bits < 32 && i < 4
    ensures HostByte(bits, i) ==
      if bits / 8 == i then 2 * (HostByte(bits + 1, i) as int) + 1 else HostByte(bits + 1, i)
    ensures bits / 8 < i ==> HostByte(bits, i) == 255
    ensures bits / 8 > i ==> HostByte(bits, i) == 0
  {
  }

  lemma LowBit(a: nat, h: nat)
    requires BitAnd(a, h) == 0
    ensures h % 2 == 1 ==> a % 2 == 0
    ensures BitAnd(a / 2, h / 2) == 0
  {
  }

  /** A byte whose low host bits are clear is a multiple of the step they leave. */
  lemma HostClear(a: byte, h: byte)
    requires BitAnd(a, h) == 0
    ensures h == 1 ==> a % 2 == 0
    ensures h == 3 ==> a % 4 == 0
    ensures h in {7, 15, 31, 63, 127, 255} ==> a % 8 == 0
  {
    var a1, h1 := a / 2, h / 2;
    LowBit(a, h);
    LowBit(a1, h1);
    LowBit(a1 / 2, h1 / 2);
  }

  lemma OrByteSum(a: byte, h: byte)
    requires BitAnd(a, h) == 0
    ensures OrByte(a, h) == a as int + h as int
  {
    OrDisjoint(a, h);
  }

  lemma BroadcastByteSum(net: Network, i: nat)
    requires net.Valid() && i < 4
    ensures BroadcastByte(net, i) == net.address[i] as int + HostByte(net.bits, i) as int
  {
    OrByteSum(net.address[i], HostByte(net.bits, i));
  }

  lemma BlockAtLeast8(bits: nat)
    requires bits <= 29
    ensures BlockSize(bits) >= 8
    decreases 29 - bits
  {
    if bits < 29 { BlockAtLeast8(bits + 1); }
  }

  /** The bytewise broadcast address is the last address of the block. */
  lemma BroadcastIsLast(net: Network)
    requires net.Valid()
    ensures Value(Broadcast(net)) == net.Last()
    ensures Broadcast(net)[3] == net.address[3] as int + HostByte(net.bits, 3) as int
    ensures net.bits >= 24 ==> Broadcast(net)[..3] == net.address[..3]
    ensures net.bits >= 24 ==> BlockSize(net.bits) == HostByte(net.bits, 3) as int + 1
  {
    BroadcastByteSum(net, 0);
    BroadcastByteSum(net, 1);
    BroadcastByteSum(net, 2);
    BroadcastByteSum(net, 3);
    HostBytesValue(net.bits);
  }

  /** Changing only the last byte, without wrapping, moves the number by the same amount. */
  lemma LastByte(b: Bytes, k: int)
    requires 0 <= b[3] as int + k < 256
    ensures Value(b[3 := Wrap(b[3] as int + k)]) == Value(b) + k
  {
  }

  lemma LessLast(a: Bytes, b: Bytes)
    requires a[..3] == b[..3]
    ensures Less(a, b) <==> a[3] < b[3]
  {
    assert a[0] == a[..3][0] && a[1] == a[..3][1] && a[2] == a[..3][2];
    assert b[0] == b[..3][0] && b[1] == b[..3][1] && b[2] == b[..3][2];
    LessIsNumeric(a, b);
  }

  /** Up to /29 no byte wraps: the pool is the 32-bit network+1, network+4 and broadcast-1, in order. */
  lemma PoolUpTo29(net: Network)
    requires net.Valid() && net.bits <= 29
    ensures PoolOf(net).Some?
    ensures var p := PoolOf(net).value;
      && Value(p.gateway) == net.First() + 1
      && Value(p.start) == net.First() + 4
      && Value(p.end) == net.Last() - 1
      && net.First() < Value(p.gateway) < Value(p.start) < Value(p.end) < net.Last()
  {
    AlignedUpTo29(net);
    AlignedPool(net);
  }

  lemma AlignedPool(net: Network)
    requires net.bits <= 32
    requires net.address[3] % 8 == 0 && Broadcast(net)[3] >= 7 && Value(Broadcast(net)) >= Value(net.address) + 7
    ensures PoolOf(net).Some?
    ensures var p := PoolOf(net).value;
      && Value(p.gateway) == Value(net.address) + 1
      && Value(p.start) == Value(net.address) + 4
      && Value(p.end) == Value(Broadcast(net)) - 1
  {
    PlainPool(net.address, Broadcast(net));
  }

  lemma AlignedUpTo29(net: Network)
    requires net.Valid() && net.bits <= 29
    ensures net.address[3] % 8 == 0 && Broadcast(net)[3] >= 7
    ensures Value(Broadcast(net)) == net.Last() >= net.First() + 7
  {
    BroadcastIsLast(net);
    WideHostByte(net.bits);
    HostClear(net.address[3], HostByte(net.bits, 3));
    BlockAtLeast8(net.bits);
  }

  lemma WideHostByte(bits: nat)
    requires bits <= 29
    ensures HostByte(bits, 3) in {7, 15, 31, 63, 127, 255}
  {
  }

  lemma PlainPool(ip: Bytes, last: Bytes)
    requires ip[3] % 8 == 0 && last[3] >= 7 && Value(last) >= Value(ip) + 7
    ensures var p := PoolBetweenBytes(ip, last);
      && Checked(p) == Some(p)
      && Value(p.gateway) == Value(ip) + 1 && Value(p.start) == Value(ip) + 4 && Value(p.end) == Value(last) - 1
  {
    LastByte(ip, 1);
    LastByte(ip, 4);
    LastByte(last, -1);
    var p := PoolBetweenBytes(ip, last);
    LessIsNumeric(p.start, p.end);
  }

  /** The wrap cases that get past the size check although the network holds at most four addresses. */
  predicate WrapsThrough(net: Network) {
    || (net.bits == 30 && net.address[3] == 252)
    || (net.bits == 31 && net.address[3] in {252, 254})
    || (net.bits == 32 && net.address[3] in {0, 252, 253, 254, 255})
  }

  /** Exactly which networks are accepted, for every prefix length. */
  lemma PoolAcceptance(net: Network)
    requires net.Valid()
    ensures PoolOf(net).Some? <==> net.bits <= 29 || WrapsThrough(net)
  {
    if net.bits <= 29 {
      PoolUpTo29(net);
    } else {
      BroadcastIsLast(net);
      HostClear(net.address[3], HostByte(net.bits, 3));
      SmallAcceptance(net);
    }
  }

  lemma SmallAcceptance(net: Network)
    requires 30 <= net.bits <= 32
    requires net.bits == 30 ==> net.address[3] % 4 == 0
    requires net.bits == 31 ==> net.address[3] % 2 == 0
    requires Broadcast(net)[..3] == net.address[..3]
    requires Broadcast(net)[3] == net.address[3] as int + HostByte(net.bits, 3) as int
    ensures PoolOf(net).Some? <==> WrapsThrough(net)
  {
    var c := Candidate(net);
    SmallPool(net.bits, net.address[3], HostByte(net.bits, 3));
    assert c.start[..3] == net.address[..3] == c.end[..3];
    LessLast(c.start, c.end);
  }

  lemma SmallPool(bits: nat, last: byte, h: byte)
    requires (bits == 30 && h == 3 && last % 4 == 0) || (bits == 31 && h == 1 && last % 2 == 0) || (bits == 32 && h == 0)
    ensures Wrap(last as int + 4) < Wrap(last as int + h as int - 1) <==>
         || (bits == 30 && last == 252)
         || (bits == 31 && last in {252, 254})
         || (bits == 32 && last in {0, 252, 253, 254, 255})
  {
  }

  /** Up to /29 every address of the offered range lies in the network. */
  lemma PoolInside(net: Network, a: int)
    requires net.Valid() && net.bits <= 29
    ensures PoolOf(net).Some?
    ensures Value(PoolOf(net).value.start) <= a <= Value(PoolOf(net).value.end) ==> net.Contains(a)
  {
    PoolUpTo29(net);
  }

  /** A pool that is offered after a wrap starts outside its own network. */
  lemma WrappedPoolOutside(net: Network)
    requires net.Valid() && net.bits > 29 && PoolOf(net).Some?
    ensures !net.Contains(Value(PoolOf(net).value.start))
  {
    PoolAcceptance(net);
    assert BlockSize(32) == 1 && BlockSize(31) == 2 && BlockSize(30) == 4;
    WrappedStart(net.address, PoolOf(net).value.start);
  }

  lemma WrappedStart(ip: Bytes, start: Bytes)
    requires start == ip[3 := Wrap(ip[3] as int + 4)] && ip[3] in {0, 252, 253, 254, 255}
    ensures Value(start) == if ip[3] == 0 then Value(ip) + 4 else Value(ip) - 252
  {
  }

  // ---------- Dotted-quad text ----------

  predicate IsDigit(c: char) { '0' <= c <= '9' }

  function DigitValue(c: char): int { c as int - '0' as int }

  function Digit(d: int): char requires 0 <= d < 10 { ('0' as int + d) as char }

  function OctetText(b: byte): string {
    if b < 10 then [Digit(b)]
    else if b < 100 then [Digit(b / 10), Digit(b % 10)]
    else [Digit(b / 100), Digit(b / 10 % 10), Digit(b % 10)]
  }

  function Number(s: string): int {
    if s == "" then 0 else 10 * Number(s[..|s| - 1]) + DigitValue(s[|s| - 1])
  }

  function ParseOctet(s: string): Option<byte> {
    if 1 <= |s| <= 3 && (forall c :: c in s ==> IsDigit(c)) && (|s| > 1 ==> s[0] != '0') && 0 <= Number(s) <= 255
    then Some(Number(s)) else None
  }

  function FormatIp(b: Bytes): string {
    Join([OctetText(b[0]), OctetText(b[1]), OctetText(b[2]), OctetText(b[3])], ".")
  }

  /** net.ParseIP on dotted-quad text. */
  function ParseIp(s: string): Option<Bytes> {
    var f := Split(s, '.');
    if |f| == 4 && ParseOctet(f[0]).Some? && ParseOctet(f[1]).Some? && ParseOctet(f[2]).Some? && ParseOctet(f[3]).Some?
    then Some([ParseOctet(f[0]).value, ParseOctet(f[1]).value, ParseOctet(f[2]).value, ParseOctet(f[3]).value])
    else None
  }

  function Masked(b: Bytes, bits: nat): Network
    requires bits <= 32
  {
    Network(seq(4, i requires 0 <= i < 4 => BitClear(b[i], HostByte(bits, i))), bits)
  }

  /** net.ParseCIDR on a dotted-quad prefix. */
  function ParseNetwork(s: string): (r: Option<Network>)
    ensures r.Some? ==> r.value.Valid()
  {
    var f := Split(s, '/');
    if |f| == 2 && ParseIp(f[0]).Some? && f[1] != "" && (forall c :: c in f[1] ==> IsDigit(c)) && 0 <= Number(f[1]) <= 32
    then
      var net := Masked(ParseIp(f[0]).value, Number(f[1]));
      assert net.Valid() by { MaskedValid(ParseIp(f[0]).value, Number(f[1])); }
      Some(net)
    else None
  }

  lemma MaskedValid(b: Bytes, bits: nat)
    requires bits <= 32
    ensures Masked(b, bits).Valid()
  {
    forall i | 0 <= i < 4 ensures BitAnd(Masked(b, bits).address[i], HostByte(bits, i)) == 0 {
      ClearedBits(b[i], HostByte(bits, i));
    }
  }

  lemma OctetRoundTrip(b: byte)
    ensures ParseOctet(OctetText(b)) == Some(b)
    ensures '.' !in OctetText(b)
  {
    var s := OctetText(b);
    if b < 10 {
      assert s[..0] == "";
    } else if b < 100 {
      assert s[..1][..0] == "" && s[..1] == [s[0]];
      assert Number(s[..1]) == b / 10;
    } else {
      assert s[..2] == [s[0], s[1]] && s[..2][..1] == [s[0]] && s[..2][..1][..0] == "";
      assert Number(s[..2][..1]) == b / 100;
      assert Number(s[..2]) == b / 10;
    }
  }

  /** An address written as text reads back as itself. */
  lemma IpRoundTrip(b: Bytes)
    ensures ParseIp(FormatIp(b)) == Some(b)
  {
    OctetRoundTrip(b[0]);
    OctetRoundTrip(b[1]);
    OctetRoundTrip(b[2]);
    OctetRoundTrip(b[3]);
    FourFields(OctetText(b[0]), OctetText(b[1]), OctetText(b[2]), OctetText(b[3]));
    assert [b[0], b[1], b[2], b[3]] == b;
  }

  lemma FourFields(o0: string, o1: string, o2: string, o3: string)
    requires '.' !in o0 && '.' !in o1 && '.' !in o2 && '.' !in o3
    ensures Split(Join([o0, o1, o2, o3], "."), '.') == [o0, o1, o2, o3]
  {
    JoinPair(o2, [o3]);
    JoinPair(o1, [o2, o3]);
    JoinPair(o0, [o1, o2, o3]);
    assert [o2] + [o3] == [o2, o3] && [o1] + [o2, o3] == [o1, o2, o3] && [o0] + [o1, o2, o3] == [o0, o1, o2, o3];
    SplitWhole(o3, '.');
    SplitPrefix(o2, o3, '.');
    SplitPrefix(o1, Join([o2, o3], "."), '.');
    SplitPrefix(o0, Join([o1, o2, o3], "."), '.');
  }

  lemma JoinPair(first: string, rest: seq<string>)
    requires rest != []
    ensures Join([first] + rest, ".") == first + ['.'] + Join(rest, ".")
  {
    assert ([first] + rest)[1..] == rest;
  }

  lemma DigitIsNotSpace(c: char)
    requires IsDigit(c)
    ensures !IsSpace(c)
  {
  }

  /** Text that parses as an address has no white space around it. */
  lemma ParsedIpIsTrimmed(s: string)
    requires ParseIp(s).Some?
    ensures s != "" && IsDigit(s[0]) && IsDigit(s[|s| - 1]) && TrimSpace(s) == s
  {
    SplitEnds(s, '.');
    var f := Split(s, '.');
    assert f[0][0] in f[0] && f[3][|f[3]| - 1] in f[3];
    DigitIsNotSpace(s[0]);
    DigitIsNotSpace(s[|s| - 1]);
    TrimFacts(s);
  }

  /** The same for a prefix, so the controller's trimming of it changes nothing. */
  lemma ParsedNetworkIsTrimmed(s: string)
    requires ParseNetwork(s).Some?
    ensures TrimSpace(s) == s
  {
    SplitEnds(s, '/');
    var f := Split(s, '/');
    ParsedIpIsTrimmed(f[0]);
    assert f[1][|f[1]| - 1] in f[1];
    DigitIsNotSpace(s[0]);
    DigitIsNotSpace(s[|s| - 1]);
    TrimFacts(s);
  }
}
