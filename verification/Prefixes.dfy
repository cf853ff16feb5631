/** What the text of a prefix means: reading it, masking it, and the pool and the filter that follow from it. */
module Prefixes {
  import opened Text
  import opened Ipv4
  import opened KeaServer
  import opened Service
  import opened Reservations
  import opened Controller

  // ---------- Masking is rounding down ----------

  /** The bits that clearing takes away. */
  lemma {:induction false} ClearSplits(a: nat, b: nat)
    ensures BitClear(a, b) <= a <= BitClear(a, b) + b
    decreases a + b
  {
    if a != 0 { ClearSplits(a / 2, b / 2); }
  }

  /** A host byte is one less than a power of two. */
  predicate IsMaskStep(step: nat) { step in {1, 2, 4, 8, 16, 32, 64, 128, 256} }

  lemma {:induction false} ClearAligns(a: nat, step: nat) returns (q: nat)
    requires IsMaskStep(step) && BitAnd(a, step - 1) == 0
    ensures a == step * q
    decreases step
  {
    q := a;
    if step > 1 {
      LowBit(a, step - 1);
      HalfStep(step);
      q := ClearAligns(a / 2, step / 2);
      assert a == 2 * (a / 2) && step == 2 * (step / 2);
    }
  }

  lemma HalfStep(step: nat)
    requires IsMaskStep(step) && step > 1
    ensures IsMaskStep(step / 2) && step % 2 == 0 && (step - 1) / 2 == step / 2 - 1 && (step - 1) % 2 == 1
  {
  }

  lemma HostByteStep(bits: nat, i: nat)
    requires bits <= 32 && i < 4
    ensures IsMaskStep(HostByte(bits, i) as int + 1)
    ensures bits <= 8 * i ==> HostByte(bits, i) == 255
    ensures bits >= 8 * i + 8 ==> HostByte(bits, i) == 0
  {
  }

  /** The block size in terms of the byte the mask ends in. */
  lemma BlockSizeBytes(bits: nat)
    requires bits <= 32
    ensures BlockSize(bits) == (HostByte(bits, MaskEnd(bits)) as int + 1) * Unit(MaskEnd(bits))
  {
    HostBytesValue(bits);
    HostByteStep(bits, 0);
    HostByteStep(bits, 1);
    HostByteStep(bits, 2);
    HostByteStep(bits, 3);
  }

  lemma ByteAligned(net: Network, i: nat) returns (q: nat)
    requires net.Valid() && i < 4
    ensures net.address[i] as int == (HostByte(net.bits, i) as int + 1) * q
    ensures IsMaskStep(HostByte(net.bits, i) as int + 1)
    ensures net.bits <= 8 * i ==> net.address[i] == 0
  {
    HostByteStep(net.bits, i);
    q := ClearAligns(net.address[i], HostByte(net.bits, i) as int + 1);
  }

  /** A number whose last byte is a multiple of a mask step is one, too. */
  lemma StepDivides(high: nat, b: byte, step: nat, q: nat) returns (r: nat)
    requires IsMaskStep(step) && b as int == step * q
    ensures high * 256 + b as int == step * r
  {
    var k := 256 / step;
    assert step * k == 256;
    r := high * k + q;
    Regroup(step, k, high);
    assert step * (high * k) == (step * high) * k;
  }

  /** A valid network starts at a multiple of its size. */
  lemma NetworkAligned(net: Network) returns (q: nat)
    requires net.Valid()
    ensures net.First() == BlockSize(net.bits) * q
  {
    var a, i := net.address, MaskEnd(net.bits);
    var step := HostByte(net.bits, i) as int + 1;
    var q0 := ByteAligned(net, i);
    q := StepDivides(High(a, i), a[i], step, q0);
    LowBytesZero(net);
    ValueAt(a, i);
    BlockSizeBytes(net.bits);
    Regroup(step, q, Unit(i));
  }

  lemma Regroup(step: nat, q: nat, unit: nat)
    ensures (step * q) * unit == (step * unit) * q
  {
  }

  /** The byte the mask ends in. */
  function MaskEnd(bits: nat): (i: nat)
    requires bits <= 32
    ensures i < 4
  {
    if bits >= 24 then 3 else bits / 8
  }

  lemma ValueAt(a: Bytes, i: nat)
    requires i < 4 && forall j :: i < j < 4 ==> a[j] == 0
    ensures Value(a) == (High(a, i) * 256 + a[i] as int) * Unit(i)
  {
    assert High(a, 0) == 0 && High(a, 1) == a[0] as int && (i >= 2 ==> High(a, 2) == High(a, 1) * 256 + a[1] as int);
    assert i < 1 ==> a[1] == 0;
    assert i < 2 ==> a[2] == 0;
    assert i < 3 ==> a[3] == 0;
  }

  /** The bytes before byte i, and what one of byte i is worth. */
  function High(a: Bytes, i: nat): nat
    requires i < 4
  {
    if i == 0 then 0 else High(a, i - 1) * 256 + a[i - 1] as int
  }

  function Unit(i: nat): nat
    requires i < 4
  {
    match i case 0 => 16777216 case 1 => 65536 case 2 => 256 case _ => 1
  }

  lemma LowBytesZero(net: Network)
    requires net.Valid()
    ensures forall i :: 0 <= i < 4 && net.bits <= 8 * i ==> net.address[i] == 0
  {
    forall i | 0 <= i < 4 && net.bits <= 8 * i ensures net.address[i] == 0 {
      var _ := ByteAligned(net, i);
    }
  }

  lemma MaskedByte(b: Bytes, bits: nat, i: nat)
    requires bits <= 32 && i < 4
    ensures Masked(b, bits).address[i] <= b[i] <= Masked(b, bits).address[i] as int + HostByte(bits, i) as int
  {
    ClearSplits(b[i], HostByte(bits, i));
  }

  lemma MaskedContains(b: Bytes, bits: nat)
    requires bits <= 32
    ensures Masked(b, bits).Contains(Value(b))
  {
    MaskedByte(b, bits, 0);
    MaskedByte(b, bits, 1);
    MaskedByte(b, bits, 2);
    MaskedByte(b, bits, 3);
    HostBytesValue(bits);
  }

  /** The start of the block of the given size that an address lies in. */
  function BlockStart(v: nat, bits: nat): int
    requires bits <= 32
  {
    v - v % BlockSize(bits)
  }

  /** A multiple of m that is not zero is at least m away from it. */
  lemma MultipleIsFar(m: int, x: int)
    requires m > 0
    ensures x >= 1 ==> m * x >= m
    ensures x <= -1 ==> m * x <= -m
  {
  }

  lemma QuotientIs(v: nat, m: nat, q: nat)
    requires m > 0 && m * q <= v < m * q + m
    ensures v - v % m == m * q
  {
    var d := v / m;
    assert v == m * d + v % m;
    Distribute(m, d, q);
    MultipleIsFar(m, d - q);
  }

  lemma Distribute(m: nat, d: nat, q: nat)
    ensures m * (d - q) == m * d - m * q
  {
  }

  /** Masking rounds an address down to the start of its block. */
  lemma MaskedIsBlockStart(b: Bytes, bits: nat)
    requires bits <= 32
    ensures Masked(b, bits).First() == BlockStart(Value(b), bits)
  {
    MaskedValid(b, bits);
    MaskedContains(b, bits);
    var q := NetworkAligned(Masked(b, bits));
    QuotientIs(Value(b), BlockSize(bits), q);
  }

  /** Two addresses are in one network exactly when they round down alike. */
  lemma SameBlock(b: Bytes, bits: nat, a: nat)
    requires bits <= 32
    ensures Masked(b, bits).Contains(a) <==> BlockStart(a, bits) == BlockStart(Value(b), bits)
  {
    MaskedValid(b, bits);
    MaskedIsBlockStart(b, bits);
    if Masked(b, bits).Contains(a) {
      var q := NetworkAligned(Masked(b, bits));
      QuotientIs(a, BlockSize(bits), q);
    }
  }

  // ---------- Addresses as text ----------

  /** The parser takes the text of an address and nothing else. */
  lemma IpTextExact(s: string, b: Bytes)
    ensures ParseIp(s) == Some(b) <==> s == FormatIp(b)
  {
    IpRoundTrip(b);
    if ParseIp(s) == Some(b) {
      var f := Split(s, '.');
      OctetExact(f[0]);
      OctetExact(f[1]);
      OctetExact(f[2]);
      OctetExact(f[3]);
      SplitJoin(s, '.');
      assert f == [f[0], f[1], f[2], f[3]];
    }
  }

  lemma {:induction false} SplitJoin(s: string, sep: char)
    ensures Join(Split(s, sep), [sep]) == s
  {
    if s != "" {
      SplitJoin(s[1..], sep);
      var rest := Split(s[1..], sep);
      if s[0] == sep {
        assert ([""] + rest)[1..] == rest;
      } else {
        var all := [[s[0]] + rest[0]] + rest[1..];
        assert all[1..] == rest[1..];
      }
      assert s == [s[0]] + s[1..];
    }
  }

  lemma OctetExact(s: string)
    requires ParseOctet(s).Some?
    ensures OctetText(ParseOctet(s).value) == s
  {
    assert s[0] in s;
    if |s| == 1 {
      OneDigit(s);
    } else if |s| == 2 {
      assert s[1] in s;
      TwoDigits(s);
    } else {
      assert s[1] in s && s[2] in s;
      ThreeDigits(s);
    }
  }

  lemma OneDigit(s: string)
    requires |s| == 1 && IsDigit(s[0])
    ensures 0 <= Number(s) < 10 && [Digit(Number(s))] == s && (s[0] != '0' ==> Number(s) > 0)
  {
    DigitBack(s[0]);
    NumberSnoc("", s[0]);
    assert "" + [s[0]] == s && Number("") == 0;
  }

  lemma TwoDigits(s: string)
    requires |s| == 2 && IsDigit(s[0]) && IsDigit(s[1]) && s[0] != '0'
    ensures var v := Number(s); 10 <= v < 100 && [Digit(v / 10), Digit(v % 10)] == s
  {
    OneDigit(s[..1]);
    NumberSnoc(s[..1], s[1]);
    DigitBack(s[1]);
    assert s == s[..1] + [s[1]];
  }

  lemma ThreeDigits(s: string)
    requires |s| == 3 && IsDigit(s[0]) && IsDigit(s[1]) && IsDigit(s[2]) && s[0] != '0'
    ensures var v := Number(s);
      && v >= 100 && 0 <= v / 100 < 10
      && [Digit(v / 100), Digit(v / 10 % 10), Digit(v % 10)] == s
  {
    TwoDigits(s[..2]);
    NumberSnoc(s[..2], s[2]);
    DigitBack(s[2]);
    assert s == s[..2] + [s[2]];
    var v, u := Number(s), Number(s[..2]);
    assert v / 10 == u && v % 10 == DigitValue(s[2]);
    assert v / 100 == u / 10;
  }

  lemma DigitBack(c: char)
    ensures IsDigit(c) ==> 0 <= DigitValue(c) < 10 && Digit(DigitValue(c)) == c && (c != '0' ==> DigitValue(c) > 0)
  {
  }

  lemma NumberSnoc(s: string, c: char)
    ensures Number(s + [c]) == 10 * Number(s) + DigitValue(c)
  {
    assert (s + [c])[..|s|] == s;
  }

  // ---------- Prefixes as text ----------

  /** "address/length". */
  function PrefixText(b: Bytes, length: string): string { FormatIp(b) + ['/'] + length }

  predicate IsLength(length: string) {
    length != "" && (forall c :: c in length ==> IsDigit(c)) && 0 <= Number(length) <= 32
  }

  lemma NoSlash(b: Bytes)
    ensures '/' !in FormatIp(b)
  {
    SlashFreeOctet(b[0]);
    SlashFreeOctet(b[1]);
    SlashFreeOctet(b[2]);
    SlashFreeOctet(b[3]);
    var o := [OctetText(b[0]), OctetText(b[1]), OctetText(b[2]), OctetText(b[3])];
    assert o[1..][1..][1..] == [o[3]];
    SlashFreeJoin(o[1..][1..][1..]);
    SlashFreeJoin(o[1..][1..]);
    SlashFreeJoin(o[1..]);
    SlashFreeJoin(o);
  }

  lemma SlashFreeOctet(b: byte)
    ensures '/' !in OctetText(b)
  {
  }

  lemma SlashFreeJoin(parts: seq<string>)
    requires parts != [] && '/' !in parts[0] && (|parts| > 1 ==> '/' !in Join(parts[1..], "."))
    ensures '/' !in Join(parts, ".")
  {
  }

  /** Exactly which texts are read as a prefix, and which network they mean: the block of that size around the address. */
  lemma PrefixExact(s: string, net: Network)
    ensures ParseNetwork(s) == Some(net) <==>
      exists b: Bytes, length: string :: IsLength(length) && s == PrefixText(b, length) && net == Masked(b, Number(length))
  {
    if ParseNetwork(s) == Some(net) {
      var f := Split(s, '/');
      var b := ParseIp(f[0]).value;
      IpTextExact(f[0], b);
      SplitJoin(s, '/');
      assert f == [f[0], f[1]] && f[1..] == [f[1]];
      assert s == PrefixText(b, f[1]);
      assert IsLength(f[1]);
    }
    if exists b: Bytes, length: string :: IsLength(length) && s == PrefixText(b, length) && net == Masked(b, Number(length)) {
      var b: Bytes, length: string :| IsLength(length) && s == PrefixText(b, length) && net == Masked(b, Number(length));
      PrefixReads(b, length);
    }
  }

  lemma PrefixReads(b: Bytes, length: string)
    requires IsLength(length)
    ensures ParseNetwork(PrefixText(b, length)) == Some(Masked(b, Number(length)))
  {
    IpRoundTrip(b);
    NoSlash(b);
    assert '/' !in length;
    SplitWhole(length, '/');
    SplitPrefix(FormatIp(b), length, '/');
  }

  /** Round trip: a prefix written in the usual way is read as the block of 2^(32 - n) addresses that holds the address. */
  lemma PrefixRoundTrip(b: Bytes, n: byte)
    requires n <= 32
    ensures var net := ParseNetwork(PrefixText(b, OctetText(n)));
      && net.Some? && net.value.bits == n
      && net.value.First() == BlockStart(Value(b), n)
      && net.value.First() <= Value(b) <= net.value.Last()
  {
    OctetRoundTrip(n);
    PrefixReads(b, OctetText(n));
    MaskedIsBlockStart(b, n);
    MaskedContains(b, n);
  }

  // ---------- From text to text ----------

  /** From the text of a prefix to the texts written to Kea: gateway, first and last address of the pool. */
  lemma PoolOfText(b: Bytes, n: byte, classes: seq<string>, id: int)
    requires n <= 29
    ensures var prefix, start := PrefixText(b, OctetText(n)), BlockStart(Value(b), n);
      && PoolFor(prefix).Some?
      && var doc := Document(SubnetFrom(prefix, PoolFor(prefix).value, classes), id);
         && |doc.options| == 1 && doc.options[0].code == 3 && |doc.pools| == 1
         && Reads(doc.options[0].data, start + 1)
         && Reads(doc.pools[0].start, start + 4)
         && Reads(doc.pools[0].end, start + BlockSize(n) - 2)
  {
    var prefix := PrefixText(b, OctetText(n));
    PrefixRoundTrip(b, n);
    var net := ParseNetwork(prefix).value;
    PoolUpTo29(net);
    var pool := PoolOf(net).value;
    WrittenReads(pool.gateway);
    WrittenReads(pool.start);
    WrittenReads(pool.end);
  }

  /** The text is an address with this value. */
  predicate Reads(s: string, v: int) { ParseIp(s).Some? && Value(ParseIp(s).value) == v }

  lemma WrittenReads(b: Bytes)
    ensures Reads(FormatIp(b), Value(b)) && FormatIp(b) != ""
  {
    IpRoundTrip(b);
    ParsedIpIsTrimmed(FormatIp(b));
  }

  /** The lease filter on texts: an address is kept exactly when it lies in the block of the prefix. */
  lemma FilterOfText(b: Bytes, n: byte, ip: string)
    requires n <= 32
    ensures KeepIp(PrefixText(b, OctetText(n)), ip) ==
      if ParseIp(ip).Some? && BlockStart(Value(ParseIp(ip).value), n) == BlockStart(Value(b), n) then ip else ""
  {
    var prefix := PrefixText(b, OctetText(n));
    OctetRoundTrip(n);
    PrefixReads(b, OctetText(n));
    ParsedNetworkIsTrimmed(prefix);
    if ParseIp(ip).Some? { SameBlock(b, n, Value(ParseIp(ip).value)); }
  }
}
