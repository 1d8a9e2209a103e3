/** Numbers written with digits, in base ten or sixteen. */
module Numerals {
  import opened Text

  predicate IsBase(base: nat) { base == 10 || base == 16 }

  function DigitChar(d: nat): char
    requires d < 16
  {
    if d < 10 then '0' + d as char else 'a' + (d - 10) as char
  }

  /** The number a digit stands for; letters count on from ten. */
  function DigitValue(c: char): (v: nat) {
    if '0' <= c <= '9' then c as nat - '0' as nat
    else if 'a' <= c <= 'f' then 10 + (c as nat - 'a' as nat)
    else if 'A' <= c <= 'F' then 10 + (c as nat - 'A' as nat)
    else 16
  }

  /** The text of a number, without leading zeros. */
  function Numeral(n: nat, base: nat): (s: string)
    requires IsBase(base)
    ensures s != "" && (|s| > 1 ==> s[0] != '0')
  {
    if n < base then [DigitChar(n)] else Numeral(n / base, base) + [DigitChar(n % base)]
  }

  function Decimal(n: nat): string { Numeral(n, 10) }

  /** The number a digit text stands for: each digit counts `base` times as much as the next. */
  function Value(s: string, base: nat): nat {
    if s == "" then 0 else base * Value(s[..|s| - 1], base) + DigitValue(s[|s| - 1])
  }

  lemma DigitReads(d: nat)
    requires d < 16
    ensures DigitValue(DigitChar(d)) == d && (d < 10 ==> IsDigit(DigitChar(d)))
    ensures d >= 10 ==> 'a' <= DigitChar(d) <= 'f'
  {
  }

  /** Hexadecimal digits of both cases, and nothing else, count below sixteen. */
  lemma HexValues(c: char, k: nat)
    requires k < 16
    ensures c == "0123456789abcdef"[k] || c == "0123456789ABCDEF"[k] ==> DigitValue(c) == k
    ensures DigitValue(c) < 16 <==> 48 <= c as int < 58 || 65 <= c as int < 71 || 97 <= c as int < 103
  {
  }

  lemma {:induction false} NumeralReads(n: nat, base: nat)
    requires IsBase(base)
    ensures Value(Numeral(n, base), base) == n
    ensures forall i :: 0 <= i < |Numeral(n, base)| ==> DigitValue(Numeral(n, base)[i]) < base
  {
    hide DigitChar, DigitValue;
    var s := Numeral(n, base);
    if n < base {
      DigitReads(n);
      assert s[..0] == "";
    } else {
      NumeralReads(n / base, base);
      DigitReads(n % base);
      assert s[..|s| - 1] == Numeral(n / base, base);
      assert n == base * (n / base) + n % base;
    }
  }

  lemma NumeralInjective(m: nat, n: nat, base: nat)
    requires IsBase(base) && Numeral(m, base) == Numeral(n, base)
    ensures m == n
  {
    NumeralReads(m, base);
    NumeralReads(n, base);
  }

  lemma {:induction false} DecimalDigits(n: nat)
    ensures forall i :: 0 <= i < |Decimal(n)| ==> IsDigit(Decimal(n)[i])
  {
    if n >= 10 {
      DecimalDigits(n / 10);
      DigitReads(n % 10);
      assert Decimal(n) == Decimal(n / 10) + [DigitChar(n % 10)];
    } else {
      DigitReads(n);
    }
  }

  lemma DecimalValue(n: nat)
    ensures Value(Decimal(n), 10) == n && Decimal(n) != "" && (|Decimal(n)| > 1 ==> Decimal(n)[0] != '0')
  {
    NumeralReads(n, 10);
  }
}
