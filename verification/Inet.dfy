/** Separated text, and dotted IPv4 addresses as inet_ntoa prints and inet_pton accepts them. */
module Inet {
  import opened Decimal

  /** The text before the first c. */
  function Before(s: string, c: char): string {
    if s == "" || s[0] == c then "" else [s[0]] + Before(s[1..], c)
  }

  /** The pieces of s between the occurrences of c. */
  function Fields(s: string, c: char): (fs: seq<string>)
    ensures fs != []
    decreases |s|
  {
    var head := Before(s, c);
    if |head| < |s| then [head] + Fields(s[|head| + 1..], c) else [head]
  }

  lemma {:induction false} BeforeIs(a: string, c: char, rest: string)
    requires c !in a && (rest == "" || rest[0] == c)
    ensures Before(a + rest, c) == a
  {
    if a != "" {
      assert (a + rest)[1..] == a[1..] + rest;
      BeforeIs(a[1..], c, rest);
    }
  }

  lemma FieldsCons(a: string, c: char, rest: string)
    requires c !in a
    ensures Fields(a + [c] + rest, c) == [a] + Fields(rest, c)
  {
    assert a + [c] + rest == a + ([c] + rest);
    BeforeIs(a, c, [c] + rest);
    assert (a + [c] + rest)[|a| + 1..] == rest;
  }

  lemma FieldsOne(a: string, c: char)
    requires c !in a
    ensures Fields(a, c) == [a]
  {
    assert a + "" == a;
    BeforeIs(a, c, "");
  }

  lemma {:induction false} BeforeSplits(s: string, c: char)
    ensures c !in Before(s, c)
    ensures |Before(s, c)| <= |s| && s[..|Before(s, c)|] == Before(s, c)
    ensures |Before(s, c)| < |s| ==> s[|Before(s, c)|] == c
  {
    if s != "" && s[0] != c {
      BeforeSplits(s[1..], c);
    }
  }

  /** Four fields, and the text is those fields with three separators. */
  lemma FourFields(s: string, c: char)
    requires |Fields(s, c)| == 4
    ensures var f := Fields(s, c);
      s == f[0] + [c] + (f[1] + [c] + (f[2] + [c] + f[3]))
  {
    var r1 := TailFields(s, c);
    var r2 := TailFields(r1, c);
    var r3 := TailFields(r2, c);
    LastField(r3, c);
  }

  lemma TailFields(s: string, c: char) returns (r: string)
    requires |Fields(s, c)| > 1
    ensures s == Fields(s, c)[0] + [c] + r && Fields(s, c)[1..] == Fields(r, c)
  {
    BeforeSplits(s, c);
    r := s[|Before(s, c)| + 1..];
    assert s == s[..|Before(s, c)|] + [c] + r;
  }

  lemma LastField(s: string, c: char)
    requires |Fields(s, c)| == 1
    ensures s == Fields(s, c)[0]
  {
    BeforeSplits(s, c);
  }

  // ---------------------------------------------------------------- dotted quads

  /** A decimal octet without sign, blanks or leading zeros. */
  predicate Octet(s: string) {
    0 <= Atoi(s) <= 255 && s == Dec(Atoi(s))
  }

  function Quad(a: nat, b: nat, c: nat, d: nat): string {
    Dec(a) + "." + (Dec(b) + "." + (Dec(c) + "." + Dec(d)))
  }

  predicate IsQuad(s: string) {
    var f := Fields(s, '.');
    |f| == 4 && Octet(f[0]) && Octet(f[1]) && Octet(f[2]) && Octet(f[3])
  }

  /** The number of a dotted quad, in host order. */
  function AddressOf(s: string): (a: nat)
    requires IsQuad(s)
    ensures a < 0x1_0000_0000
  {
    var f := Fields(s, '.');
    0x1000000 * Atoi(f[0]) + 0x10000 * Atoi(f[1]) + 0x100 * Atoi(f[2]) + Atoi(f[3])
  }

  lemma OctetDec(n: nat)
    requires n <= 255
    ensures Octet(Dec(n)) && '.' !in Dec(n) && ',' !in Dec(n)
  {
    AtoiDec(n);
  }

  /** Printed quads are accepted, and split into the printed octets. */
  lemma QuadAccepted(a: nat, b: nat, c: nat, d: nat)
    requires a <= 255 && b <= 255 && c <= 255 && d <= 255
    ensures Fields(Quad(a, b, c, d), '.') == [Dec(a), Dec(b), Dec(c), Dec(d)]
    ensures IsQuad(Quad(a, b, c, d))
  {
    OctetDec(a);
    OctetDec(b);
    OctetDec(c);
    OctetDec(d);
    FieldsCons(Dec(a), '.', Dec(b) + "." + (Dec(c) + "." + Dec(d)));
    FieldsCons(Dec(b), '.', Dec(c) + "." + Dec(d));
    FieldsCons(Dec(c), '.', Dec(d));
    FieldsOne(Dec(d), '.');
  }

  lemma QuadHasNoComma(a: nat, b: nat, c: nat, d: nat)
    ensures ',' !in Quad(a, b, c, d)
  {
    assert ',' !in Dec(c) + "." + Dec(d);
    assert ',' !in Dec(b) + "." + (Dec(c) + "." + Dec(d));
  }

  /** Nothing else is accepted: every accepted text is the print of its four octets. */
  lemma AcceptedIsQuad(s: string)
    requires IsQuad(s)
    ensures var f := Fields(s, '.'); s == Quad(Atoi(f[0]), Atoi(f[1]), Atoi(f[2]), Atoi(f[3]))
    ensures ',' !in s
  {
    FourFields(s, '.');
    var f := Fields(s, '.');
    QuadHasNoComma(Atoi(f[0]), Atoi(f[1]), Atoi(f[2]), Atoi(f[3]));
  }

  /** The text is the dotted print of these octets. */
  predicate Dotted(s: string, a: nat, b: nat, c: nat, d: nat) {
    a <= 255 && b <= 255 && c <= 255 && d <= 255 && s == Dec(a) + "." + (Dec(b) + "." + (Dec(c) + "." + Dec(d)))
  }

  /** The text is a dotted address, and this is its number. */
  ghost predicate Reads(s: string, n: nat) {
    exists a: nat, b: nat, c: nat, d: nat :: Dotted(s, a, b, c, d) && n == ((a * 256 + b) * 256 + c) * 256 + d
  }

  /** The text is no dotted address. */
  ghost predicate Unreadable(s: string) {
    forall n: nat :: !Reads(s, n)
  }

  /** The number that a text stands for: all ones when it is no dotted address. */
  ghost predicate StandsFor(s: string, n: nat) {
    Reads(s, n) || (n == 0xFFFFFFFF && Unreadable(s))
  }

  lemma DottedReads(s: string, a: nat, b: nat, c: nat, d: nat)
    requires Dotted(s, a, b, c, d)
    ensures IsQuad(s) && AddressOf(s) == ((a * 256 + b) * 256 + c) * 256 + d
  {
    QuadAccepted(a, b, c, d);
    AtoiDec(a);
    AtoiDec(b);
    AtoiDec(c);
    AtoiDec(d);
  }

  lemma ReadsIff(s: string, n: nat)
    ensures Reads(s, n) <==> IsQuad(s) && AddressOf(s) == n
  {
    forall a: nat, b: nat, c: nat, d: nat | Dotted(s, a, b, c, d)
      ensures IsQuad(s) && AddressOf(s) == ((a * 256 + b) * 256 + c) * 256 + d
    {
      DottedReads(s, a, b, c, d);
    }
    if IsQuad(s) {
      AcceptedIsQuad(s);
      var f := Fields(s, '.');
      assert Dotted(s, Atoi(f[0]), Atoi(f[1]), Atoi(f[2]), Atoi(f[3]));
    }
  }

  lemma UnreadableIff(s: string)
    ensures Unreadable(s) <==> !IsQuad(s)
  {
    forall n: nat ensures Reads(s, n) <==> IsQuad(s) && AddressOf(s) == n { ReadsIff(s, n); }
    if IsQuad(s) {
      assert Reads(s, AddressOf(s));
    }
  }
}
