/** Integers in decimal notation. */
module Decimals {

  function Digit(d: nat): char
    requires d < 10
  {
    "0123456789"[d]
  }

  function Digits(n: nat): string {
    if n < 10 then [Digit(n)] else Digits(n / 10) + [Digit(n % 10)]
  }

  function Decimal(k: int): string {
    if k < 0 then "-" + Digits(-k) else Digits(k)
  }

  // ---------- Reading ----------

  predicate IsDigit(c: char) {
    '0' <= c <= '9'
  }

  function DigitValue(c: char): nat
    requires IsDigit(c)
  {
    c as int - '0' as int
  }

  predicate AllDigits(s: string) {
    forall i :: 0 <= i < |s| ==> IsDigit(s[i])
  }

  function NatOf(s: string): nat
    requires AllDigits(s)
  {
    if s == [] then 0 else 10 * NatOf(s[..|s| - 1]) + DigitValue(s[|s| - 1])
  }

  /** An optional minus sign and at least one digit. */
  predicate IsNumeral(s: string) {
    s != [] && if s[0] == '-' then |s| > 1 && AllDigits(s[1..]) else AllDigits(s)
  }

  function IntOf(s: string): int
    requires IsNumeral(s)
  {
    if s[0] == '-' then 0 - NatOf(s[1..]) else NatOf(s)
  }

  lemma DigitIs(d: nat)
    requires d < 10
    ensures IsDigit(Digit(d)) && DigitValue(Digit(d)) == d
  {
    assert Digit(d) == if d == 0 then '0' else if d == 1 then '1' else if d == 2 then '2' else if d == 3 then '3'
      else if d == 4 then '4' else if d == 5 then '5' else if d == 6 then '6' else if d == 7 then '7' else if d == 8 then '8' else '9';
  }

  lemma {:induction false} DigitsRead(n: nat)
    ensures Digits(n) != [] && AllDigits(Digits(n)) && NatOf(Digits(n)) == n
    decreases n
  {
    DigitIs(n % 10);
    if n < 10 {
      assert Digits(n)[..0] == [];
      assert NatOf(Digits(n)) == 10 * NatOf([]) + DigitValue(Digit(n));
    } else {
      DigitsRead(n / 10);
      assert Digits(n)[..|Digits(n)| - 1] == Digits(n / 10);
    }
  }

  /** What was written in decimal is read back. */
  lemma DecimalRead(k: int)
    ensures IsNumeral(Decimal(k)) && IntOf(Decimal(k)) == k
  {
    DigitsRead(if k < 0 then -k else k);
    if k < 0 {
      assert Decimal(k)[1..] == Digits(-k);
    }
  }

  /** Each character counts for its place: '0' to '9', a minus sign in front, and no zero in front of other digits. */
  lemma {:induction false} Places(s: string, c: char, n: nat)
    requires AllDigits(s) && '0' <= c <= '9'
    ensures AllDigits(s + [c]) && NatOf(s + [c]) == 10 * NatOf(s) + (c as int - 48) && NatOf([]) == 0
    ensures IsNumeral("-" + s + [c]) && IntOf("-" + s + [c]) == 0 - NatOf(s + [c])
    ensures IsNumeral(s + [c]) && IntOf(s + [c]) == NatOf(s + [c])
    ensures Digits(n) != [] && (n > 0 ==> Digits(n)[0] != '0')
    decreases n
  {
    assert (s + [c])[..|s|] == s;
    assert ("-" + s + [c])[1..] == s + [c];
    if n < 10 {
      DigitIs(n);
    } else {
      Places(s, c, n / 10);
    }
  }

  /** A numeral is a row of digits, with or without a minus sign in front. */
  lemma NumeralIff(s: string)
    ensures IsNumeral(s) <==>
      exists t :: t != [] && (s == t || s == "-" + t) && forall i :: 0 <= i < |t| ==> '0' <= t[i] <= '9'
  {
    if IsNumeral(s) {
      if s[0] == '-' {
        assert s == "-" + s[1..];
      }
    }
    if t :| t != [] && (s == t || s == "-" + t) && forall i :: 0 <= i < |t| ==> '0' <= t[i] <= '9' {
      assert s == "-" + t ==> s[1..] == t;
    }
  }

  // ---------- Lengths ----------

  function Pow10(d: nat): nat {
    if d == 0 then 1 else 10 * Pow10(d - 1)
  }

  lemma {:induction false} DigitsLength(n: nat, d: nat)
    requires d >= 1
    ensures n < Pow10(d) <==> |Digits(n)| <= d
    decreases n
  {
    if n < 10 {
      PowAtLeast(d);
    } else if d > 1 {
      DigitsLength(n / 10, d - 1);
    }
  }

  lemma {:induction false} PowAtLeast(d: nat)
    requires d >= 1
    ensures Pow10(d) >= 10
  {
    if d > 1 {
      PowAtLeast(d - 1);
    }
  }
}
