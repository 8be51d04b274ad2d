/** Positional numerals: writing a number in a base, and reading it back. */
module Digits {
  import opened Arith

  function DigitChar(d: nat, upper: bool): char
    requires d < 16
  {
    if d < 10 then '0' + d as char else (if upper then 'A' else 'a') + (d - 10) as char
  }

  /** What a digit stands for; other characters stand for nothing. */
  function DigitValue(c: char): nat {
    if '0' <= c <= '9' then (c - '0') as nat
    else if 'a' <= c <= 'f' then (c - 'a') as nat + 10
    else if 'A' <= c <= 'F' then (c - 'A') as nat + 10
    else 0
  }

  /** The numeral of `v`, most significant digit first. */
  function Numeral(v: nat, base: nat, upper: bool): (s: string)
    requires 2 <= base <= 16
    ensures |s| > 0
    decreases v
  {
    if v < base then [DigitChar(v, upper)] else Numeral(v / base, base, upper) + [DigitChar(v % base, upper)]
  }

  function ReadDigits(s: string, base: nat): nat {
    if s == [] then 0 else ReadDigits(s[..|s| - 1], base) * base + DigitValue(s[|s| - 1])
  }

  function Power(base: nat, k: nat): nat { if k == 0 then 1 else base * Power(base, k - 1) }

  /** A digit stands for the number it was written for. */
  lemma DigitIs(d: nat, upper: bool)
    requires d < 16
    ensures DigitValue(DigitChar(d, upper)) == d && IsDigit(DigitChar(d, upper))
        && (d > 0 ==> DigitChar(d, upper) != '0')
  {
    if d >= 10 {
      var e := (d - 10) as char;
      assert ('a' + e) as int == 'a' as int + (d - 10);
      assert ('A' + e) as int == 'A' as int + (d - 10);
    }
  }

  /** The sixteen digits, in both cases. */
  lemma DigitTable(d: nat)
    requires d < 16
    ensures DigitChar(d, false) == "0123456789abcdef"[d] && DigitChar(d, true) == "0123456789ABCDEF"[d]
  {
  }

  /** The characters a numeral of either case is made of. */
  lemma {:induction false} NumeralLetters(v: nat, base: nat, upper: bool)
    requires 2 <= base <= 16
    ensures forall i :: 0 <= i < |Numeral(v, base, upper)| ==>
        Numeral(v, base, upper)[i] in if upper then "0123456789ABCDEF" else "0123456789abcdef"
    decreases v
  {
    hide DigitChar;
    DigitTable(if v < base then v else v % base);
    if v >= base {
      NumeralSplit(v, base, upper);
      NumeralLetters(v / base, base, upper);
    }
  }

  /** The first digits of a numeral are those of the quotient. */
  lemma NumeralSplit(v: nat, base: nat, upper: bool)
    requires 2 <= base <= 16 && v >= base
    ensures var s := Numeral(v, base, upper);
            s[..|s| - 1] == Numeral(v / base, base, upper) && s[|s| - 1] == DigitChar(v % base, upper)
    ensures 0 < v / base < v && v == v / base * base + v % base
  {
    hide DigitChar;
    Quotient(v, base);
    var s, front := Numeral(v, base, upper), Numeral(v / base, base, upper);
    assert s == front + [DigitChar(v % base, upper)];
  }

  lemma Quotient(v: nat, base: nat)
    requires 2 <= base <= v
    ensures 0 < v / base < v && v == v / base * base + v % base
  {
    var q := v / base;
    assert v == base * q + v % base;
    MulMono(2, base, q);
  }

  /** A numeral reads back as its number, whatever the case of its letters. */
  lemma {:induction false} ReadBack(v: nat, base: nat, upper: bool)
    requires 2 <= base <= 16
    ensures ReadDigits(Numeral(v, base, upper), base) == v
    decreases v
  {
    hide DigitChar, DigitValue, IsDigit;
    var s := Numeral(v, base, upper);
    if v < base {
      DigitIs(v, upper);
      assert s[..0] == [];
    } else {
      DigitIs(v % base, upper);
      NumeralSplit(v, base, upper);
      ReadBack(v / base, base, upper);
    }
  }

  /** No number but zero starts with a zero. */
  lemma {:induction false} NoLeadingZero(v: nat, base: nat, upper: bool)
    requires 2 <= base <= 16 && v > 0
    ensures Numeral(v, base, upper)[0] != '0'
    decreases v
  {
    hide DigitChar, DigitValue, IsDigit;
    if v >= base {
      NumeralSplit(v, base, upper);
      NoLeadingZero(v / base, base, upper);
      assert Numeral(v, base, upper)[0] == Numeral(v / base, base, upper)[0];
    } else {
      DigitIs(v, upper);
    }
  }

  lemma QuotientBelow(v: nat, base: nat, limit: nat)
    requires base > 0 && v < base * limit
    ensures v / base < limit
  {
    LessFactor(base, v / base, limit);
  }

  /** Numerals are no longer than the power they lie below. */
  lemma {:induction false} NumeralFits(v: nat, base: nat, upper: bool, k: nat)
    requires 2 <= base <= 16 && 1 <= k && v < Power(base, k)
    ensures |Numeral(v, base, upper)| <= k
    decreases k
  {
    if v >= base {
      assert k > 1;
      NumeralSplit(v, base, upper);
      QuotientBelow(v, base, Power(base, k - 1));
      NumeralFits(v / base, base, upper, k - 1);
    }
  }

  /** A numeral's digits, from the quotients by the powers of the base. */
  lemma {:induction false} NumeralAt(v: nat, base: nat, upper: bool, i: nat)
    requires 2 <= base <= 16 && i < |Numeral(v, base, upper)|
    ensures Power(base, |Numeral(v, base, upper)| - 1 - i) > 0
    ensures Numeral(v, base, upper)[i] == DigitChar(v / Power(base, |Numeral(v, base, upper)| - 1 - i) % base, upper)
    decreases v
  {
    hide DigitChar;
    var s := Numeral(v, base, upper);
    if v < base {
      ModUnique(v, base, 0, v);
    } else {
      NumeralSplit(v, base, upper);
      if i < |s| - 1 {
        NumeralAt(v / base, base, upper, i);
        assert s[i] == s[..|s| - 1][i];
        DivDiv(v, base, Power(base, |s| - 2 - i));
      }
    }
  }

  function Repeat(c: char, n: nat): (s: string)
    ensures |s| == n && forall i :: 0 <= i < n ==> s[i] == c
  {
    seq(n, _ => c)
  }

  /** Zeros in front make no difference. */
  lemma {:induction false} LeadingZeros(n: nat, s: string, base: nat)
    ensures ReadDigits(Repeat('0', n) + s, base) == ReadDigits(s, base)
    decreases n + |s|
  {
    var all := Repeat('0', n) + s;
    if s != [] {
      LeadingZeros(n, s[..|s| - 1], base);
      assert all[..|all| - 1] == Repeat('0', n) + s[..|s| - 1];
    } else if n > 0 {
      LeadingZeros(n - 1, [], base);
      assert all[..|all| - 1] == Repeat('0', n - 1) + [];
    }
  }

  predicate IsDigit(c: char) { '0' <= c <= '9' || 'a' <= c <= 'f' || 'A' <= c <= 'F' }

  lemma {:induction false} NumeralDigits(v: nat, base: nat, upper: bool)
    requires 2 <= base <= 16
    ensures forall i :: 0 <= i < |Numeral(v, base, upper)| ==> IsDigit(Numeral(v, base, upper)[i])
    decreases v
  {
    hide DigitChar, DigitValue, IsDigit;
    if v >= base {
      DigitIs(v % base, upper);
      NumeralSplit(v, base, upper);
      NumeralDigits(v / base, base, upper);
    } else {
      DigitIs(v, upper);
    }
  }

  // ---------------------------------------------------------------- reading a printed number

  /** `s` without the spaces it starts with. */
  function SkipSpaces(s: string): string {
    if s != [] && s[0] == ' ' then SkipSpaces(s[1..]) else s
  }

  /** The digits `s` starts with. */
  function Leading(s: string): string {
    if s != [] && IsDigit(s[0]) then [s[0]] + Leading(s[1..]) else []
  }

  /** The number a text starts with, after spaces and with an optional sign. */
  function Scan(s: string, base: nat): int {
    var t := SkipSpaces(s);
    if t != [] && t[0] == '-' then -(ReadDigits(Leading(t[1..]), base) as int)
    else if t != [] && t[0] == '+' then ReadDigits(Leading(t[1..]), base)
    else ReadDigits(Leading(t), base)
  }

  lemma {:induction false} SkipsSpaces(n: nat, s: string)
    ensures SkipSpaces(Repeat(' ', n) + s) == SkipSpaces(s)
    decreases n
  {
    var all := Repeat(' ', n) + s;
    if n > 0 {
      SkipsSpaces(n - 1, s);
      assert all[1..] == Repeat(' ', n - 1) + s;
    } else {
      assert all == s;
    }
  }

  lemma {:induction false} LeadingIs(d: string, s: string)
    requires (forall i :: 0 <= i < |d| ==> IsDigit(d[i])) && (s != [] ==> !IsDigit(s[0]))
    ensures Leading(d + s) == d
    decreases |d|
  {
    if d != [] {
      LeadingIs(d[1..], s);
      assert (d + s)[1..] == d[1..] + s;
    } else {
      assert d + s == s;
    }
  }
}
