/** Hardware addresses as users write them: which spellings are accepted, and that one address is one MAC. */
module MacText {
  import opened Text
  import opened Ipv4
  import opened Macs

  // ---------- Spellings ----------

  function Hex(n: nat, upper: bool): char
    requires n < 16
  {
    if n < 10 then ('0' as int + n) as char
    else ((if upper then 'A' as int else 'a' as int) + n - 10) as char
  }

  function Nibble(b: byte, low: bool): (n: nat)
    ensures n < 16
  {
    if low then b % 16 else b / 16
  }

  /** Two hex digits per octet, with a separator between octets. */
  function Spell(octets: seq<byte>, sep: char, upper: bool): string {
    if octets == [] then ""
    else
      [Hex(Nibble(octets[0], false), upper), Hex(Nibble(octets[0], true), upper)]
      + if |octets| == 1 then "" else [sep] + Spell(octets[1..], sep, upper)
  }

  function SpelledAt(octets: seq<byte>, sep: char, upper: bool, i: nat): char
    requires i < 3 * |octets| - 1
  {
    if i % 3 == 2 then sep else Hex(Nibble(octets[i / 3], i % 3 == 1), upper)
  }

  lemma {:induction false} SpellAt(octets: seq<byte>, sep: char, upper: bool)
    requires octets != []
    ensures |Spell(octets, sep, upper)| == 3 * |octets| - 1
    ensures forall i :: 0 <= i < 3 * |octets| - 1 ==> Spell(octets, sep, upper)[i] == SpelledAt(octets, sep, upper, i)
  {
    var s := Spell(octets, sep, upper);
    if |octets| > 1 {
      var tail := octets[1..];
      SpellAt(tail, sep, upper);
      forall i | 3 <= i < |s| ensures s[i] == SpelledAt(octets, sep, upper, i) {
        assert s[i] == Spell(tail, sep, upper)[i - 3] == SpelledAt(tail, sep, upper, i - 3);
        assert (i - 3) / 3 == i / 3 - 1 && (i - 3) % 3 == i % 3;
      }
    }
  }

  predicate Blank(s: string) { forall i :: 0 <= i < |s| ==> IsSpace(s[i]) }

  lemma {:induction false} TrimPadded(left: string, s: string, right: string)
    requires Blank(left) && Blank(right) && s != "" && Trimmed(s)
    ensures TrimSpace(left + s + right) == s
  {
    if left != "" {
      assert (left + s + right)[1..] == left[1..] + s + right;
      TrimPadded(left[1..], s, right);
    } else {
      assert left + s + right == s + right;
      assert TrimLeft(s + right) == s + right;
      TrimPaddedRight(s, right);
    }
  }

  lemma {:induction false} TrimPaddedRight(s: string, right: string)
    requires Blank(right) && s != "" && Trimmed(s)
    ensures TrimRight(s + right) == s
  {
    if right == "" {
      assert s + right == s;
    } else {
      var n := |right| - 1;
      assert (s + right)[..|s| + n] == s + right[..n];
      TrimPaddedRight(s, right[..n]);
    }
  }

  // ---------- One address, one MAC ----------

  lemma HexFacts(n: nat, upper: bool)
    requires n < 16
    ensures DashToColon(LowerChar(Hex(n, upper))) == Hex(n, false)
    ensures IsHex(Hex(n, upper)) && !IsSpace(Hex(n, upper)) && Hex(n, upper) != '.'
  {
  }

  lemma SpellingIsTrimmed(octets: seq<byte>, sep: char, upper: bool)
    requires octets != []
    ensures var s := Spell(octets, sep, upper); s != "" && Trimmed(s)
  {
    var s, n := Spell(octets, sep, upper), |octets| - 1;
    SpellAt(octets, sep, upper);
    assert s[0] == SpelledAt(octets, sep, upper, 0);
    assert |s| - 1 == 3 * n + 1 && (3 * n + 1) % 3 == 1 && (3 * n + 1) / 3 == n;
    assert s[3 * n + 1] == SpelledAt(octets, sep, upper, 3 * n + 1);
    HexFacts(Nibble(octets[0], false), upper);
    HexFacts(Nibble(octets[n], true), upper);
  }

  lemma CharAgrees(octets: seq<byte>, sep: char, upper: bool, i: nat)
    requires i < 3 * |octets| - 1 && sep in {':', '-'}
    ensures DashToColon(LowerChar(SpelledAt(octets, sep, upper, i))) == SpelledAt(octets, ':', false, i)
  {
    HexFacts(Nibble(octets[i / 3], i % 3 == 1), upper);
  }

  lemma SpellingLowered(octets: seq<byte>, sep: char, upper: bool)
    requires octets != [] && sep in {':', '-'}
    ensures Dashes(Lower(Spell(octets, sep, upper))) == Spell(octets, ':', false)
  {
    var s := Spell(octets, sep, upper);
    SpellAt(octets, sep, upper);
    SpellAt(octets, ':', false);
    MapAt(LowerChar, s);
    MapAt(DashToColon, Lower(s));
    forall i | 0 <= i < |s| ensures Dashes(Lower(s))[i] == Spell(octets, ':', false)[i] {
      CharAgrees(octets, sep, upper, i);
    }
  }

  /** Upper or lower case, dashes or colons, padded or not: the normal form is the lower-case colon spelling. */
  lemma SpellingsAgree(octets: seq<byte>, sep: char, upper: bool, left: string, right: string)
    requires octets != [] && sep in {':', '-'} && Blank(left) && Blank(right)
    ensures Normal(left + Spell(octets, sep, upper) + right) == Spell(octets, ':', false)
  {
    SpellingIsTrimmed(octets, sep, upper);
    TrimPadded(left, Spell(octets, sep, upper), right);
    SpellingLowered(octets, sep, upper);
  }

  lemma SpellingNormal(octets: seq<byte>, sep: char, upper: bool)
    requires octets != [] && sep in {':', '-'}
    ensures Normal(Spell(octets, sep, upper)) == Spell(octets, ':', false)
  {
    SpellingsAgree(octets, sep, upper, "", "");
    assert "" + Spell(octets, sep, upper) + "" == Spell(octets, sep, upper);
  }

  /** Addresses of 6, 8 or 20 octets are accepted in every such spelling, and no other number of octets is. */
  lemma SpellingAccepted(octets: seq<byte>, sep: char, upper: bool, left: string, right: string)
    requires octets != [] && sep in {':', '-'} && Blank(left) && Blank(right)
    ensures ValidMac(Normal(left + Spell(octets, sep, upper) + right)) <==> |octets| in {6, 8, 20}
  {
    SpellingsAgree(octets, sep, upper, left, right);
    var s := Spell(octets, ':', false);
    SpellAt(octets, ':', false);
    forall i | 0 <= i < |s| ensures if i % 3 == 2 then s[i] == ':' else IsHex(s[i]) && s[i] != '.' {
      assert s[i] == SpelledAt(octets, ':', false, i);
      HexFacts(Nibble(octets[i / 3], i % 3 == 1), false);
    }
    if |s| == 14 { assert s[4] != '.'; }
  }

  function HexValue(c: char): (n: nat)
    requires IsHex(c)
    ensures n < 16
  {
    if '0' <= c <= '9' then c as int - '0' as int
    else if 'a' <= c <= 'f' then c as int - 'a' as int + 10
    else c as int - 'A' as int + 10
  }

  lemma HexBack(n: nat)
    requires n < 16
    ensures IsHex(Hex(n, false)) && HexValue(Hex(n, false)) == n
  {
  }

  /** Different addresses have different normal forms. */
  lemma SpellInjective(a: seq<byte>, b: seq<byte>)
    requires a != [] && b != [] && Spell(a, ':', false) == Spell(b, ':', false)
    ensures a == b
  {
    SpellAt(a, ':', false);
    SpellAt(b, ':', false);
    forall k | 0 <= k < |a| ensures a[k] == b[k] {
      var s := Spell(a, ':', false);
      assert s[3 * k] == SpelledAt(a, ':', false, 3 * k) == SpelledAt(b, ':', false, 3 * k);
      assert s[3 * k + 1] == SpelledAt(a, ':', false, 3 * k + 1) == SpelledAt(b, ':', false, 3 * k + 1);
      HexBack(Nibble(a[k], false));
      HexBack(Nibble(b[k], false));
      HexBack(Nibble(a[k], true));
      HexBack(Nibble(b[k], true));
      assert a[k] as int == 16 * (a[k] / 16) + a[k] % 16;
    }
  }

  lemma LowerHex(c: char)
    requires IsHex(c) && LowerChar(c) == c
    ensures Hex(HexValue(c), false) == c
  {
  }

  /** The octets that hex digits in the colon form stand for. */
  function Octets(m: string, n: nat): (octets: seq<byte>)
    requires 3 * n <= |m| + 1 && forall i :: 0 <= i < |m| && i % 3 != 2 ==> IsHex(m[i])
    ensures |octets| == n
  {
    if n == 0 then []
    else
      assert (3 * (n - 1)) % 3 == 0 && (3 * (n - 1) + 1) % 3 == 1;
      Octets(m, n - 1) + [16 * HexValue(m[3 * (n - 1)]) + HexValue(m[3 * (n - 1) + 1])]
  }

  lemma {:induction false} OctetsAt(m: string, n: nat, k: nat)
    requires 3 * n <= |m| + 1 && forall i :: 0 <= i < |m| && i % 3 != 2 ==> IsHex(m[i])
    requires k < n
    ensures IsHex(m[3 * k]) && IsHex(m[3 * k + 1])
    ensures Nibble(Octets(m, n)[k], false) == HexValue(m[3 * k]) && Nibble(Octets(m, n)[k], true) == HexValue(m[3 * k + 1])
  {
    assert (3 * k) % 3 == 0 && (3 * k + 1) % 3 == 1;
    if k < n - 1 { OctetsAt(m, n - 1, k); }
  }

  lemma OctetsSpell(m: string, n: nat, i: nat)
    requires 3 * n == |m| + 1 && i < |m|
    requires forall i :: 0 <= i < |m| ==> if i % 3 == 2 then m[i] == ':' else IsHex(m[i]) && LowerChar(m[i]) == m[i]
    ensures SpelledAt(Octets(m, n), ':', false, i) == m[i]
  {
    if i % 3 != 2 {
      OctetsAt(m, n, i / 3);
      LowerHex(m[i]);
      assert i == 3 * (i / 3) + i % 3;
    }
  }

  /** Nothing else is accepted in the colon form: every MAC without dots spells an address. */
  lemma AcceptedIsSpelled(text: string)
    requires ValidMac(Normal(text)) && '.' !in Normal(text)
    ensures exists octets: seq<byte> :: |octets| in {6, 8, 20} && Normal(text) == Spell(octets, ':', false)
  {
    var m := Normal(text);
    NormalIsCanon(text);
    MapAt(LowerChar, m);
    assert m[4] in m;
    ColonForm(m, if |m| == 17 then 6 else if |m| == 23 then 8 else 20);
  }

  lemma ColonForm(m: string, n: nat)
    requires n in {6, 8, 20} && |m| == 3 * n - 1
    requires forall i :: 0 <= i < |m| ==> if i % 3 == 2 then m[i] == ':' else IsHex(m[i]) && LowerChar(m[i]) == m[i]
    ensures exists octets: seq<byte> :: |octets| in {6, 8, 20} && m == Spell(octets, ':', false)
  {
    assert m == Spell(Octets(m, n), ':', false) by { Respelled(m, n); }
  }

  lemma Respelled(m: string, n: nat)
    requires n > 0 && |m| == 3 * n - 1
    requires forall i :: 0 <= i < |m| ==> if i % 3 == 2 then m[i] == ':' else IsHex(m[i]) && LowerChar(m[i]) == m[i]
    ensures m == Spell(Octets(m, n), ':', false)
  {
    var octets := Octets(m, n);
    SpellAt(octets, ':', false);
    forall i | 0 <= i < |m| ensures m[i] == Spell(octets, ':', false)[i] {
      OctetsSpell(m, n, i);
    }
  }

  /** Two interfaces written in any of these ways count as one MAC exactly when they have the same address. */
  lemma OneMacPerAddress(a: seq<byte>, b: seq<byte>, sepA: char, sepB: char, upperA: bool, upperB: bool)
    requires a != [] && b != [] && sepA in {':', '-'} && sepB in {':', '-'}
    ensures Normal(Spell(a, sepA, upperA)) == Normal(Spell(b, sepB, upperB)) <==> a == b
  {
    SpellingNormal(a, sepA, upperA);
    SpellingNormal(b, sepB, upperB);
    if Spell(a, ':', false) == Spell(b, ':', false) { SpellInjective(a, b); }
  }

  // ---------- The dotted form ----------

  function Pair(b: byte): string { [Hex(Nibble(b, false), false), Hex(Nibble(b, true), false)] }

  /** Two octets to a group, with dots between groups. */
  function Dotted(octets: seq<byte>): string {
    if |octets| < 2 then ""
    else Pair(octets[0]) + Pair(octets[1]) + if |octets| < 4 then "" else "." + Dotted(octets[2..])
  }

  predicate LowerHexOrDot(c: char, dot: bool) {
    if dot then c == '.' else IsHex(c) && LowerChar(c) == c
  }

  predicate IsDotted(s: string) { forall i :: 0 <= i < |s| ==> LowerHexOrDot(s[i], i % 5 == 4) }

  lemma {:induction false} DottedShape(octets: seq<byte>)
    requires |octets| >= 2 && |octets| % 2 == 0
    ensures 2 * |Dotted(octets)| == 5 * |octets| - 2 && IsDotted(Dotted(octets))
  {
    var s := Dotted(octets);
    if |octets| >= 4 {
      var rest := Dotted(octets[2..]);
      DottedShape(octets[2..]);
      forall i | 5 <= i < |s| ensures LowerHexOrDot(s[i], i % 5 == 4) {
        assert s[i] == rest[i - 5] && (i - 5) % 5 == i % 5;
      }
    }
  }

  lemma PlainChar(c: char, dot: bool)
    requires LowerHexOrDot(c, dot)
    ensures !IsSpace(c) && DashToColon(LowerChar(c)) == c
  {
  }

  lemma DottedIsNormal(s: string)
    requires IsDotted(s) && s != ""
    ensures Normal(s) == s
  {
    PlainChar(s[0], false);
    PlainChar(s[|s| - 1], (|s| - 1) % 5 == 4);
    TrimFacts(s);
    MapAt(LowerChar, s);
    MapAt(DashToColon, Lower(s));
    forall i | 0 <= i < |s| ensures Dashes(Lower(s))[i] == s[i] { PlainChar(s[i], i % 5 == 4); }
  }

  /** Every address of 6, 8 or 20 octets is also accepted in the dotted form, which is left as it is. */
  lemma DottedAccepted(octets: seq<byte>)
    requires |octets| in {6, 8, 20}
    ensures var s := Dotted(octets); ValidMac(Normal(s)) && Normal(s) == s && '.' in s
  {
    var s := Dotted(octets);
    DottedShape(octets);
    DottedIsNormal(s);
    assert LowerHexOrDot(s[4], true);
  }

  lemma SpellHasNoDot(octets: seq<byte>)
    requires octets != []
    ensures '.' !in Spell(octets, ':', false)
  {
    var s := Spell(octets, ':', false);
    SpellAt(octets, ':', false);
    forall i | 0 <= i < |s| ensures s[i] != '.' {
      assert s[i] == SpelledAt(octets, ':', false, i);
      HexFacts(Nibble(octets[i / 3], i % 3 == 1), false);
    }
  }

  /** So a device listed once in each form counts as two MACs: only colons and dashes are unified. */
  lemma DottedCountsTwice(octets: seq<byte>, a: Interface, b: Interface)
    requires |octets| in {6, 8, 20} && a.mac == Dotted(octets) && b.mac == Spell(octets, ':', false)
    ensures |MacSet([a, b])| == 2
  {
    DottedAccepted(octets);
    SpellingNormal(octets, ':', false);
    SpellingAccepted(octets, ':', false, "", "");
    assert "" + b.mac + "" == b.mac;
    SpellHasNoDot(octets);
    TwoMacs(a, b);
  }

  lemma TwoMacs(a: Interface, b: Interface)
    requires ValidMac(Normal(a.mac)) && ValidMac(Normal(b.mac)) && Normal(a.mac) != Normal(b.mac)
    ensures |MacSet([a, b])| == 2
  {
    MacSetAppend([], a);
    MacSetAppend([a], b);
    assert [] + [a] == [a] && [a] + [b] == [a, b] && MacSet([]) == {};
    assert MacSet([a, b]) == {Normal(a.mac), Normal(b.mac)};
  }
}
