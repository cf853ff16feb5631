/** Strings as the operator handles them: trimming, lower-casing, splitting and joining. */
module Text {

  datatype Option<+T> = None | Some(value: T)

  /** Go's unicode.IsSpace. */
  predicate IsSpace(c: char) {
    var n := c as int;
    9 <= n <= 13 || n == 0x20 || n == 0x85 || n == 0xA0 || n == 0x1680 || 0x2000 <= n <= 0x200A
    || n == 0x2028 || n == 0x2029 || n == 0x202F || n == 0x205F || n == 0x3000
  }

  function LowerChar(c: char): char {
    if 'A' <= c <= 'Z' then c - 'A' + 'a' else c
  }

  function DashToColon(c: char): char {
    if c == '-' then ':' else c
  }

  function Map(f: char -> char, s: string): string {
    if s == "" then "" else [f(s[0])] + Map(f, s[1..])
  }

  function Lower(s: string): string { Map(LowerChar, s) }

  function Dashes(s: string): string { Map(DashToColon, s) }

  predicate EqualFold(a: string, b: string) { Lower(a) == Lower(b) }

  function TrimLeft(s: string): string {
    if s != "" && IsSpace(s[0]) then TrimLeft(s[1..]) else s
  }

  function TrimRight(s: string): string {
    if s != "" && IsSpace(s[|s| - 1]) then TrimRight(s[..|s| - 1]) else s
  }

  function TrimSpace(s: string): string { TrimRight(TrimLeft(s)) }

  predicate Trimmed(s: string) {
    s == "" || (!IsSpace(s[0]) && !IsSpace(s[|s| - 1]))
  }

  /** strings.Split: the pieces between separators; there is always at least one. */
  function Split(s: string, sep: char): (pieces: seq<string>)
    ensures |pieces| >= 1
  {
    if s == "" then [""]
    else if s[0] == sep then [""] + Split(s[1..], sep)
    else
      var rest := Split(s[1..], sep);
      [[s[0]] + rest[0]] + rest[1..]
  }

  function Join(parts: seq<string>, sep: string): string {
    if parts == [] then ""
    else if |parts| == 1 then parts[0]
    else parts[0] + sep + Join(parts[1..], sep)
  }

  // ---------- Character maps ----------

  lemma MapAt(f: char -> char, s: string)
    ensures |Map(f, s)| == |s|
    ensures forall i :: 0 <= i < |s| ==> Map(f, s)[i] == f(s[i])
  {
    if s != "" { MapAt(f, s[1..]); }
  }

  lemma MapSlice(f: char -> char, s: string, i: nat, j: nat)
    requires i <= j <= |s|
    ensures |Map(f, s)| == |s|
    ensures Map(f, s[i..j]) == Map(f, s)[i..j]
  {
    MapAt(f, s);
    MapAt(f, s[i..j]);
  }

  lemma MapCommutes(f: char -> char, g: char -> char, s: string)
    requires forall c :: f(g(c)) == g(f(c))
    ensures Map(f, Map(g, s)) == Map(g, Map(f, s))
  {
    MapAt(f, s);
    MapAt(g, s);
    MapAt(f, Map(g, s));
    MapAt(g, Map(f, s));
  }

  lemma {:induction false} TrimLeftMap(f: char -> char, s: string)
    requires forall c :: IsSpace(f(c)) <==> IsSpace(c)
    ensures TrimLeft(Map(f, s)) == Map(f, TrimLeft(s))
  {
    if s != "" && IsSpace(s[0]) {
      TrimLeftMap(f, s[1..]);
      assert Map(f, s)[1..] == Map(f, s[1..]);
    }
  }

  lemma {:induction false} TrimRightMap(f: char -> char, s: string)
    requires forall c :: IsSpace(f(c)) <==> IsSpace(c)
    ensures TrimRight(Map(f, s)) == Map(f, TrimRight(s))
  {
    MapAt(f, s);
    if s != "" && IsSpace(s[|s| - 1]) {
      MapSlice(f, s, 0, |s| - 1);
      TrimRightMap(f, s[..|s| - 1]);
    }
  }

  /** A map that neither makes nor removes white space can be done before or after trimming. */
  lemma TrimMap(f: char -> char, s: string)
    requires forall c :: IsSpace(f(c)) <==> IsSpace(c)
    ensures TrimSpace(Map(f, s)) == Map(f, TrimSpace(s))
  {
    TrimLeftMap(f, s);
    TrimRightMap(f, TrimLeft(s));
  }

  lemma LowerIdempotent(s: string)
    ensures Lower(Lower(s)) == Lower(s)
  {
    MapAt(LowerChar, s);
    MapAt(LowerChar, Lower(s));
  }

  // ---------- Trimming ----------

  lemma {:induction false} TrimLeftFacts(s: string)
    ensures TrimLeft(s) == "" || !IsSpace(TrimLeft(s)[0])
    ensures |TrimLeft(s)| <= |s| && TrimLeft(s) == s[|s| - |TrimLeft(s)|..]
  {
    if s != "" && IsSpace(s[0]) { TrimLeftFacts(s[1..]); }
  }

  lemma {:induction false} TrimRightFacts(s: string)
    ensures TrimRight(s) == "" || !IsSpace(TrimRight(s)[|TrimRight(s)| - 1])
    ensures |TrimRight(s)| <= |s| && TrimRight(s) == s[..|TrimRight(s)|]
  {
    if s != "" && IsSpace(s[|s| - 1]) { TrimRightFacts(s[..|s| - 1]); }
  }

  /** Trimming yields a trimmed substring, and leaves a trimmed string alone. */
  lemma TrimFacts(s: string)
    ensures Trimmed(TrimSpace(s))
    ensures forall c :: c in TrimSpace(s) ==> c in s
    ensures Trimmed(s) ==> TrimSpace(s) == s
  {
    TrimLeftFacts(s);
    TrimRightFacts(TrimLeft(s));
  }

  lemma TrimLeadingSpace(s: string)
    ensures TrimSpace([' '] + s) == TrimSpace(s)
  {
    assert ([' '] + s)[1..] == s;
  }

  // ---------- Splitting ----------

  lemma {:induction false} SplitPrefix(a: string, b: string, sep: char)
    requires sep !in a
    ensures Split(a + [sep] + b, sep) == [a] + Split(b, sep)
  {
    var s := a + [sep] + b;
    if a == "" {
      assert s[1..] == b;
    } else {
      assert s[1..] == a[1..] + [sep] + b;
      SplitPrefix(a[1..], b, sep);
      assert [a[0]] + a[1..] == a;
    }
  }

  lemma {:induction false} SplitWhole(a: string, sep: char)
    requires sep !in a
    ensures Split(a, sep) == [a]
  {
    if a != "" {
      SplitWhole(a[1..], sep);
      assert [a[0]] + a[1..] == a;
    }
  }

  lemma {:induction false} SplitPieces(s: string, sep: char)
    ensures forall p :: p in Split(s, sep) ==> sep !in p
  {
    if s != "" { SplitPieces(s[1..], sep); }
  }

  /** The first and last pieces, where not empty, hold the ends of the string. */
  lemma {:induction false} SplitEnds(s: string, sep: char)
    ensures var p := Split(s, sep);
      && (p[0] != "" ==> s != "" && s[0] == p[0][0])
      && (p[|p| - 1] != "" ==> s != "" && s[|s| - 1] == p[|p| - 1][|p[|p| - 1]| - 1])
  {
    if s != "" { SplitEnds(s[1..], sep); }
  }
}
