/** Decimal numerals, as printed by "%d" and "%lu" and read back by atoi. */
module Decimal {
  import opened Basics

  function Digit(n: nat): char
    requires n < 10
  {
    "0123456789"[n]
  }

  predicate IsDigit(c: char) {
    '0' <= c <= '9'
  }

  function Print(n: nat): string {
    if n < 10 then [Digit(n)] else Print(n / 10) + [Digit(n % 10)]
  }

  /** The value of the leading digits read so far, then of the rest. */
  function ReadFrom(s: string, acc: nat): nat {
    if s == "" || !IsDigit(s[0]) then acc
    else ReadFrom(s[1..], 10 * acc + (s[0] as int - '0' as int))
  }

  /** atoi, for values that an int can hold. */
  function Atoi(s: string): int {
    if s != "" && IsSpace(s[0]) then Atoi(s[1..])
    else if s != "" && s[0] == '-' then 0 - ReadFrom(s[1..], 0)
    else if s != "" && s[0] == '+' then ReadFrom(s[1..], 0)
    else ReadFrom(s, 0)
  }

  lemma PrintIsDigits(n: nat)
    ensures |Print(n)| > 0
    ensures forall i :: 0 <= i < |Print(n)| ==> IsDigit(Print(n)[i])
  {
  }

  lemma {:induction false} ReadSnoc(s: string, c: char, acc: nat)
    requires IsDigit(c) && forall i :: 0 <= i < |s| ==> IsDigit(s[i])
    ensures ReadFrom(s + [c], acc) == 10 * ReadFrom(s, acc) + (c as int - '0' as int)
  {
    if s == "" {
      assert ReadFrom((s + [c])[1..], 10 * acc + (c as int - '0' as int)) == 10 * acc + (c as int - '0' as int);
    } else {
      assert (s + [c])[1..] == s[1..] + [c];
      ReadSnoc(s[1..], c, 10 * acc + (s[0] as int - '0' as int));
    }
  }

  lemma DigitValue(n: nat)
    requires n < 10
    ensures IsDigit(Digit(n)) && Digit(n) as int - '0' as int == n
  {
  }

  /** Reading a printed number gives it back. */
  lemma ReadPrinted(n: nat)
    ensures Atoi(Print(n)) == n
  {
    PrintIsDigits(n);
    assert IsDigit(Print(n)[0]);
    ReadPrintedDigits(n);
  }

  lemma {:induction false} ReadPrintedDigits(n: nat)
    ensures ReadFrom(Print(n), 0) == n
  {
    DigitValue(n % 10);
    if n < 10 {
      assert Print(n)[1..] == "";
      assert ReadFrom(Print(n)[1..], n) == n;
    } else {
      ReadPrintedDigits(n / 10);
      PrintIsDigits(n / 10);
      ReadSnoc(Print(n / 10), Digit(n % 10), 0);
    }
  }

  lemma {:induction false} ReadStops(s: string, rest: string, acc: nat)
    requires forall i :: 0 <= i < |s| ==> IsDigit(s[i])
    requires rest != "" ==> !IsDigit(rest[0])
    ensures ReadFrom(s + rest, acc) == ReadFrom(s, acc)
  {
    if s == "" {
      assert s + rest == rest;
    } else {
      assert (s + rest)[1..] == s[1..] + rest;
      ReadStops(s[1..], rest, 10 * acc + (s[0] as int - '0' as int));
    }
  }

  predicate Blank(s: string) {
    forall i :: 0 <= i < |s| ==> IsSpace(s[i])
  }

  lemma {:induction false} SkipBlank(blank: string, s: string)
    requires Blank(blank)
    ensures Atoi(blank + s) == Atoi(s)
  {
    if blank == "" {
      assert blank + s == s;
    } else {
      assert (blank + s)[1..] == blank[1..] + s;
      SkipBlank(blank[1..], s);
    }
  }

  /** atoi reads a numeral behind blanks and a sign, up to the first other character. */
  lemma AtoiReads(blank: string, n: nat, rest: string)
    requires Blank(blank) && (rest != "" ==> !IsDigit(rest[0]))
    ensures Atoi(blank + (Print(n) + rest)) == n
    ensures Atoi(blank + (['+'] + (Print(n) + rest))) == n
    ensures Atoi(blank + (['-'] + (Print(n) + rest))) == 0 - n
  {
    var t := Print(n) + rest;
    PrintIsDigits(n);
    ReadPrintedDigits(n);
    ReadStops(Print(n), rest, 0);
    assert IsDigit(t[0]);
    SkipBlank(blank, t);
    SkipBlank(blank, ['+'] + t);
    SkipBlank(blank, ['-'] + t);
    assert (['+'] + t)[1..] == t && (['-'] + t)[1..] == t;
  }

  lemma PrintInjective(m: nat, n: nat)
    ensures Print(m) == Print(n) <==> m == n
  {
    ReadPrinted(m);
    ReadPrinted(n);
  }

  function Pow10(k: nat): nat {
    if k == 0 then 1 else 10 * Pow10(k - 1)
  }

  lemma {:induction false} PrintLength(n: nat, k: nat)
    requires k > 0 && n < Pow10(k)
    ensures |Print(n)| <= k
  {
    if n >= 10 {
      assert Pow10(1) == 10 * Pow10(0);
      PrintLength(n / 10, k - 1);
    }
  }

  /** A 32-bit number has at most ten digits. */
  lemma PrintLength32(n: nat)
    requires n < 0x1_0000_0000
    ensures |Print(n)| <= 10
  {
    assert Pow10(5) == 100000;
    assert Pow10(10) == 100000 * 100000 by {
      assert Pow10(8) == 1000 * Pow10(5);
    }
    PrintLength(n, 10);
  }
}
