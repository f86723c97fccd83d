/** Decimal numbers as text: what "ostream <<" prints and what atol reads back. */
module Decimal {

  predicate IsDigit(c: char) {
    '0' <= c <= '9'
  }

  function DigitValue(c: char): nat
    requires IsDigit(c)
  {
    c as nat - '0' as nat
  }

  function Digit(d: nat): (c: char)
    requires d < 10
    ensures IsDigit(c) && DigitValue(c) == d
  {
    ('0' as nat + d) as char
  }

  predicate AllDigits(s: string) {
    forall i :: 0 <= i < |s| ==> IsDigit(s[i])
  }

  function Print(n: nat): string {
    if n < 10 then [Digit(n)] else Print(n / 10) + [Digit(n % 10)]
  }

  function Value(s: string): nat
    requires AllDigits(s)
  {
    if s == "" then 0 else Value(s[..|s| - 1]) * 10 + DigitValue(s[|s| - 1])
  }

  lemma {:induction false} PrintedValue(n: nat)
    ensures Print(n) != "" && AllDigits(Print(n)) && Value(Print(n)) == n
  {
    if n >= 10 {
      PrintedValue(n / 10);
      assert Print(n)[..|Print(n)| - 1] == Print(n / 10);
    } else {
      assert [Digit(n)][..0] == "";
    }
  }

  /** Only 0 is printed with a leading 0. */
  lemma {:induction false} NoLeadingZero(n: nat)
    ensures Print(n) != "" && (Print(n)[0] == '0' <==> n == 0)
  {
    if n >= 10 {
      NoLeadingZero(n / 10);
    }
  }

  /** The digits a text starts with. */
  function DigitPrefix(s: string): (p: string)
    ensures p <= s && AllDigits(p)
    ensures |p| < |s| ==> !IsDigit(s[|p|])
  {
    if s != "" && IsDigit(s[0]) then [s[0]] + DigitPrefix(s[1..]) else ""
  }

  predicate StartsWithDigit(s: string) {
    s != "" && IsDigit(s[0])
  }

  lemma {:induction false} PrefixStops(ds: string, rest: string)
    requires AllDigits(ds) && !StartsWithDigit(rest)
    ensures DigitPrefix(ds + rest) == ds
  {
    if ds == "" {
      assert ds + rest == rest;
    } else {
      assert (ds + rest)[1..] == ds[1..] + rest;
      PrefixStops(ds[1..], rest);
    }
  }

  // ---- Signed numbers ----

  function PrintInt(v: int): string {
    if v < 0 then "-" + Print(-v) else Print(v)
  }

  predicate IsSpace(c: char) {
    c == ' ' || 9 as char <= c <= 13 as char
  }

  /** atol, sscanf("%lld"): white space, a sign, digits; what follows is ignored, no digits read as 0. */
  function ParseInt(s: string): int {
    if s == "" then 0
    else if IsSpace(s[0]) then ParseInt(s[1..])
    else if s[0] == '-' then -(Value(DigitPrefix(s[1..])) as int)
    else if s[0] == '+' then Value(DigitPrefix(s[1..]))
    else Value(DigitPrefix(s))
  }

  /** What is printed is read back; a negative number starts with '-', and nothing with '>'. */
  lemma ParsePrinted(v: int)
    ensures PrintInt(v) != "" && PrintInt(v)[0] != '>' && ParseInt(PrintInt(v)) == v
    ensures PrintInt(v)[0] == '-' <==> v < 0
  {
    var n := if v < 0 then -v else v;
    PrintedValue(n);
    PrefixStops(Print(n), "");
    assert Print(n) + "" == Print(n);
    assert IsDigit(Print(n)[0]);
    if v < 0 {
      assert PrintInt(v)[1..] == Print(n);
    }
  }

  lemma SpaceSkipped(s: string)
    requires s != "" && IsSpace(s[0])
    ensures ParseInt(s) == ParseInt(s[1..])
  {
    hide Value, DigitPrefix;
  }

  /** White space before a number is ignored. */
  lemma {:induction false} SpacesSkipped(spaces: string, s: string)
    requires forall i :: 0 <= i < |spaces| ==> spaces[i] == ' ' || 9 <= spaces[i] as int <= 13
    ensures ParseInt(spaces + s) == ParseInt(s)
  {
    hide ParseInt;
    if spaces == "" {
      assert spaces + s == s;
    } else {
      SpacesSkipped(spaces[1..], s);
      SpaceSkipped(spaces + s);
      assert (spaces + s)[1..] == spaces[1..] + s;
    }
  }

  /** So is whatever follows it; a sign counts. */
  lemma NumberRead(n: nat, rest: string)
    requires !StartsWithDigit(rest)
    ensures ParseInt(Print(n) + rest) == n && ParseInt("+" + (Print(n) + rest)) == n
    ensures ParseInt("-" + (Print(n) + rest)) == -(n as int)
  {
    hide Print, Value, DigitPrefix;
    var s := Print(n) + rest;
    PrintedValue(n);
    PrefixStops(Print(n), rest);
    assert s[0] == Print(n)[0];
    assert ("+" + s)[1..] == s && ("-" + s)[1..] == s;
  }

  /** Texts without a number are read as 0. */
  lemma NoNumberRead(rest: string)
    requires rest == "" || !(IsDigit(rest[0]) || rest[0] in {' ', '+', '-'} || 9 <= rest[0] as int <= 13)
    ensures ParseInt(rest) == 0
  {
    PrefixStops("", rest);
    assert "" + rest == rest;
  }
}
