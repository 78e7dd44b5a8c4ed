/** Decimal numbers as strconv writes and reads them. */
module Decimal {
  import opened Basics

  predicate IsDigit(c: char) {
    '0' <= c <= '9'
  }

  predicate AllDigits(s: string) {
    forall i :: 0 <= i < |s| ==> IsDigit(s[i])
  }

  function DigitChar(d: nat): char
    requires d < 10
  {
    '0' + d as char
  }

  function DigitValue(c: char): nat
    requires IsDigit(c)
  {
    (c - '0') as nat
  }

  /** FormatInt for numbers that are not negative. */
  function Itoa(n: nat): string {
    if n < 10 then [DigitChar(n)] else Itoa(n / 10) + [DigitChar(n % 10)]
  }

  function Value(s: string): nat
    requires AllDigits(s)
  {
    if s == "" then 0 else 10 * Value(s[..|s| - 1]) + DigitValue(s[|s| - 1])
  }

  /** ParseInt(s, 10, 64): an optional sign and digits, within the range of int64. */
  function ParseInt(s: string): Option<int64> {
    var signed := s != "" && (s[0] == '+' || s[0] == '-');
    var digits := if signed then s[1..] else s;
    if digits == "" || !AllDigits(digits) then None
    else if signed && s[0] == '-' then (if Value(digits) <= TWO_63 then Some(0 - Value(digits)) else None)
    else if Value(digits) < TWO_63 then Some(Value(digits)) else None
  }

  lemma {:induction false} ItoaDigits(n: nat)
    ensures Itoa(n) != "" && AllDigits(Itoa(n)) && Value(Itoa(n)) == n
  {
    if n >= 10 {
      ItoaDigits(n / 10);
      var s := Itoa(n);
      assert s[..|s| - 1] == Itoa(n / 10);
    }
  }

  lemma ParseItoa(n: nat)
    ensures ParseInt(Itoa(n)) == if n < TWO_63 then Some(n) else None
  {
    ItoaDigits(n);
    assert IsDigit(Itoa(n)[0]);
  }

  /** Signs are read, and the range is that of int64. */
  lemma ParseSigned(n: nat)
    ensures ParseInt("-" + Itoa(n)) == if n <= TWO_63 then Some(0 - n) else None
    ensures ParseInt("+" + Itoa(n)) == if n < TWO_63 then Some(n) else None
    ensures ParseInt("") == ParseInt("-") == ParseInt("+") == None
  {
    ItoaDigits(n);
    hide Value, Itoa;
    assert ("-" + Itoa(n))[1..] == Itoa(n) && ("+" + Itoa(n))[1..] == Itoa(n);
  }

  lemma ItoaInjective(m: nat, n: nat)
    requires Itoa(m) == Itoa(n)
    ensures m == n
  {
    ItoaDigits(m);
    ItoaDigits(n);
  }

  /** A number from 1 on as Itoa writes it. */
  predicate Numeral(s: string) {
    s != "" && AllDigits(s) && s[0] != '0'
  }

  lemma {:induction false} NumeralIs(s: string)
    requires Numeral(s)
    ensures Value(s) >= 1 && Itoa(Value(s)) == s
  {
    var front, last := s[..|s| - 1], s[|s| - 1];
    assert s == front + [last] && IsDigit(last);
    if front != "" {
      NumeralIs(front);
    }
  }

  lemma {:induction false} ItoaNumeral(n: nat)
    requires n >= 1
    ensures Numeral(Itoa(n))
  {
    ItoaDigits(n);
    if n >= 10 {
      ItoaNumeral(n / 10);
    }
  }

  /** What starts a numeral is a numeral, and not a larger one. */
  lemma {:induction false} NumeralPrefix(s: string, t: string)
    requires Numeral(t) && s != "" && s <= t
    ensures Numeral(s) && Value(s) <= Value(t)
    decreases |t|
  {
    if |s| < |t| {
      NumeralPrefix(s, t[..|t| - 1]);
    } else {
      assert s == t;
    }
  }
}
