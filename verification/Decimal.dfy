/** Decimal text: what "%d" and "%lu" print and what atoi reads back. */
module Decimal {
  predicate Digit(c: char) { '0' <= c <= '9' }

  function DigitOf(n: nat): (c: char)
    requires n < 10
    ensures Digit(c) && Value(c) == n
  {
    (n + '0' as int) as char
  }

  function Value(c: char): nat
    requires Digit(c)
  {
    c as int - '0' as int
  }

  predicate Digits(s: string) {
    forall i :: 0 <= i < |s| ==> Digit(s[i])
  }

  /** "%lu" */
  function Dec(n: nat): (s: string)
    ensures s != "" && Digits(s)
  {
    if n < 10 then [DigitOf(n)] else Dec(n / 10) + [DigitOf(n % 10)]
  }

  /** The print of a number ends in its last digit. */
  lemma DecDigits(n: nat)
    ensures Dec(n) == (if n < 10 then "" else Dec(n / 10)) + ["0123456789"[n % 10]]
  {
  }

  /** "%d" */
  function DecInt(n: int): string {
    if n < 0 then "-" + Dec(-n) else Dec(n)
  }

  /** The longest run of digits at the front of s, read in base ten after `acc`. */
  function Scan(s: string, acc: nat): nat {
    if s == "" || !Digit(s[0]) then acc else Scan(s[1..], 10 * acc + Value(s[0]))
  }

  /** atoi on text without leading white space. */
  function Atoi(s: string): int {
    if s != "" && s[0] == '-' then 0 - Scan(s[1..], 0) else Scan(s, 0)
  }

  lemma {:induction false} ScanSnoc(s: string, c: char, rest: string, acc: nat)
    requires Digits(s) && Digit(c) && (rest == "" || !Digit(rest[0]))
    ensures Scan(s + [c] + rest, acc) == 10 * Scan(s, acc) + Value(c)
    decreases |s|
  {
    if s == "" {
      assert (s + [c] + rest)[1..] == rest;
    } else {
      assert (s + [c] + rest)[1..] == s[1..] + [c] + rest;
      ScanSnoc(s[1..], c, rest, 10 * acc + Value(s[0]));
    }
  }

  /** Reading a printed number back, up to the first non-digit. */
  lemma {:induction false} ScanDec(n: nat, rest: string)
    requires rest == "" || !Digit(rest[0])
    ensures Scan(Dec(n) + rest, 0) == n
    decreases n
  {
    if n < 10 {
      assert Dec(n) + rest == "" + [DigitOf(n)] + rest;
      ScanSnoc("", DigitOf(n), rest, 0);
    } else {
      ScanSnoc(Dec(n / 10), DigitOf(n % 10), rest, 0);
      ScanDec(n / 10, "");
      assert Dec(n / 10) + "" == Dec(n / 10);
    }
  }

  lemma AtoiDec(n: int)
    ensures Atoi(DecInt(n)) == n
  {
    var m := if n < 0 then -n else n;
    ScanDec(m, "");
    assert Dec(m) + "" == Dec(m);
    assert Digit(Dec(m)[0]);
    if n < 0 {
      assert DecInt(n)[1..] == Dec(m);
    }
  }

  lemma DecInjective(a: nat, b: nat)
    requires Dec(a) == Dec(b)
    ensures a == b
  {
    AtoiDec(a);
    AtoiDec(b);
  }

  lemma {:induction false} DecLengthMonotone(a: nat, b: nat)
    requires a <= b
    ensures |Dec(a)| <= |Dec(b)|
    decreases b
  {
    if b >= 10 && a >= 10 {
      DecLengthMonotone(a / 10, b / 10);
    }
  }
}
