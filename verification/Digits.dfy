// Digit strings, least significant digit first, and their values.
module Digits {
  import opened Arithmetic

  const HEX := "0123456789abcdef"

  function Digit(d: int): char
    requires 0 <= d < 16
  {
    HEX[d]
  }

  function DigitValue(c: char): int {
    if '0' <= c <= '9' then c as int - '0' as int
    else if 'a' <= c <= 'f' then c as int - 'a' as int + 10
    else -1
  }

  // The digits are the ASCII characters 0 to 9 and a to f.
  lemma DigitIsAscii(d: int)
    requires 0 <= d < 16
    ensures Digit(d) as int == if d < 10 then 0x30 + d else 0x61 + (d - 10)
  {
  }

  lemma DigitValueOfDigit(d: int)
    requires 0 <= d < 16
    ensures DigitValue(Digit(d)) == d
  {
  }

  // n in a base, without leading zeros; 0 is one digit.
  function Numeral(n: nat, base: int): (s: string)
    requires 2 <= base <= 16
    ensures s != ""
    decreases n
  {
    if n < base then [Digit(n)] else QuotientSmaller(n, base); [Digit(n % base)] + Numeral(n / base, base)
  }

  lemma QuotientSmaller(n: nat, base: int)
    requires 2 <= base <= n
    ensures 0 < n / base < n
  {
  }

  // The k low digits of n.
  function Padded(n: nat, k: nat): (s: string) {
    if k == 0 then "" else [Digit(n % 10)] + Padded(n / 10, k - 1)
  }

  function Pow10(k: nat): (p: int)
    ensures p > 0
  {
    if k == 0 then 1 else 10 * Pow10(k - 1)
  }

  // Reading a digit string back.
  function Value(s: string, base: int): int {
    if s == "" then 0 else DigitValue(s[0]) + base * Value(s[1..], base)
  }

  predicate IsDigits(s: string, base: int) {
    forall i :: 0 <= i < |s| ==> 0 <= DigitValue(s[i]) < base
  }

  // A numeral is read back, consists of digits and has no leading zero; and
  // nothing else is.
  lemma {:induction false} NumeralReads(n: nat, base: int)
    requires 2 <= base <= 16
    ensures Value(Numeral(n, base), base) == n
    ensures IsDigits(Numeral(n, base), base)
    ensures n > 0 ==> Numeral(n, base)[|Numeral(n, base)| - 1] != '0'
  {
    if n < base {
      DigitValueOfDigit(n);
    } else {
      QuotientSmaller(n, base);
      NumeralReads(n / base, base);
      DigitValueOfDigit(n % base);
      NumeralReadsStep(Digit(n % base), Numeral(n / base, base), base);
      DivMod(n, base);
    }
  }

  lemma NumeralReadsStep(c: char, s: string, base: int)
    ensures Value([c] + s, base) == DigitValue(c) + base * Value(s, base)
    ensures 0 <= DigitValue(c) < base && IsDigits(s, base) ==> IsDigits([c] + s, base)
  {
    assert ([c] + s)[1..] == s;
  }

  lemma DivMod(n: int, d: int)
    requires d > 0
    ensures n == d * (n / d) + n % d && 0 <= n % d < d
  {
  }

  lemma {:induction false} NumeralUnique(s: string, base: int)
    requires 2 <= base <= 16 && s != "" && IsDigits(s, base)
    requires |s| > 1 ==> s[|s| - 1] != '0'
    ensures Value(s, base) >= 0 && Numeral(Value(s, base), base) == s
    ensures s != "0" ==> Value(s, base) > 0
  {
    hide Numeral;
    hide Value;
    var d, v := DigitValue(s[0]), Value(s[1..], base);
    DigitOfValue(s[0]);
    ValueSplits(s, base);
    if |s| > 1 {
      var u := s[1..];
      assert u[|u| - 1] == s[|s| - 1];
      NumeralUnique(u, base);
      NumeralStep(v, d, base);
      assert s == [s[0]] + u;
    } else {
      ShortNumeral(s, d, base);
    }
  }

  lemma DigitOfValue(c: char)
    requires 0 <= DigitValue(c) < 16
    ensures Digit(DigitValue(c)) == c
  {
  }

  lemma ValueSplits(s: string, base: int)
    requires s != ""
    ensures Value(s, base) == DigitValue(s[0]) + base * Value(s[1..], base)
  {
  }

  lemma ShortNumeral(s: string, d: int, base: int)
    requires 2 <= base <= 16 && |s| == 1 && d == DigitValue(s[0]) && 0 <= d < base
    ensures Value(s, base) == d && Numeral(d, base) == s && (s != "0" ==> d > 0)
  {
    assert Value(s[1..], base) == 0 && base * 0 == 0;
    DigitOfValue(s[0]);
    assert s == [s[0]] && Digit(0) == '0';
  }

  lemma NumeralStep(v: nat, d: int, base: int)
    requires 2 <= base <= 16 && 0 < v && 0 <= d < base
    ensures d + base * v > 0 && Numeral(d + base * v, base) == [Digit(d)] + Numeral(v, base)
  {
    var n := d + base * v;
    MulUpper(0, v, base);
    DivMod(n, base);
    QuotientUnique(n / base, v, n % base, d, base);
  }

  // One digit off the low part of lo + 10^k * hi.
  lemma DigitOff(lo: nat, hi: nat, k: nat)
    requires k > 0 && lo < Pow10(k)
    ensures lo / 10 < Pow10(k - 1)
    ensures (lo + Pow10(k) * hi) % 10 == lo % 10
    ensures (lo + Pow10(k) * hi) / 10 == lo / 10 + Pow10(k - 1) * hi
    ensures 0 <= Pow10(k - 1) * hi
    ensures 0 < hi ==> 10 <= lo + Pow10(k) * hi
  {
    var p := Pow10(k - 1);
    assert Pow10(k) * hi == 10 * (p * hi);
    if hi > 0 {
      MulUpper(0, hi, p);
    }
  }

  // k digits below m digits are k + m digits.
  lemma {:induction false} PaddedJoins(lo: nat, hi: nat, k: nat, m: nat)
    requires lo < Pow10(k)
    ensures 0 <= Pow10(k) * hi
    ensures Padded(lo + Pow10(k) * hi, k + m) == Padded(lo, k) + Padded(hi, m)
  {
    if k > 0 {
      DigitOff(lo, hi, k);
      PaddedJoins(lo / 10, hi, k - 1, m);
    }
  }

  lemma NumeralUnfolds(n: nat)
    requires n >= 10
    ensures Numeral(n, 10) == [Digit(n % 10)] + Numeral(n / 10, 10)
  {
  }

  // k digits below a numeral are a numeral.
  lemma {:induction false} NumeralJoins(lo: nat, hi: nat, k: nat)
    requires lo < Pow10(k) && hi > 0
    ensures 0 <= Pow10(k) * hi
    ensures Numeral(lo + Pow10(k) * hi, 10) == Padded(lo, k) + Numeral(hi, 10)
  {
    hide Numeral;
    if k == 0 {
      assert lo + Pow10(k) * hi == hi;
    } else {
      DigitOff(lo, hi, k);
      NumeralUnfolds(lo + Pow10(k) * hi);
      NumeralJoins(lo / 10, hi, k - 1);
    }
  }

  // A padded number with its leading zeros stripped.
  function Stripped(s: string): string {
    if s != "" && s[|s| - 1] == '0' then Stripped(s[..|s| - 1]) else s
  }

  lemma PaddedUnfolds(n: nat, k: nat)
    requires 0 < n < Pow10(k)
    ensures k > 0 && n / 10 < Pow10(k - 1)
    ensures Padded(n, k) == [Digit(n % 10)] + Padded(n / 10, k - 1)
    ensures n < 10 ==> n % 10 == n && n / 10 == 0
  {
  }

  lemma ShortStripped(n: nat, k: nat)
    requires 0 < n < 10
    ensures Stripped([Digit(n)] + Padded(0, k)) == Numeral(n, 10)
  {
    StrippedZeros([Digit(n)], k);
  }

  lemma {:induction false} StrippedPadded(n: nat, k: nat)
    requires 0 < n < Pow10(k)
    ensures Stripped(Padded(n, k)) == Numeral(n, 10)
  {
    hide Numeral;
    hide Padded;
    hide Stripped;
    hide Digit;
    PaddedUnfolds(n, k);
    if n < 10 {
      ShortStripped(n, k - 1);
    } else {
      StrippedPadded(n / 10, k - 1);
      StrippedTail([Digit(n % 10)], Padded(n / 10, k - 1));
      NumeralUnfolds(n);
    }
  }

  lemma {:induction false} StrippedZeros(s: string, k: nat)
    requires s != "" && s[|s| - 1] != '0'
    ensures Stripped(s + Padded(0, k)) == s
  {
    if k == 0 {
      assert s + Padded(0, 0) == s;
    } else {
      PaddedZeros(k);
      assert (s + Padded(0, k))[..|s| + k - 1] == s + Padded(0, k - 1);
      StrippedZeros(s, k - 1);
    }
  }

  lemma {:induction false} PaddedZeros(k: nat)
    requires k > 0
    ensures |Padded(0, k)| == k && Padded(0, k) == Padded(0, k - 1) + "0"
  {
    if k > 1 {
      PaddedZeros(k - 1);
    }
  }

  // Stripping does not reach a prefix when something else is left.
  lemma {:induction false} StrippedTail(s: string, u: string)
    requires Stripped(u) != ""
    ensures Stripped(s + u) == s + Stripped(u)
    decreases |u|
  {
    if u[|u| - 1] == '0' {
      assert (s + u)[..|s + u| - 1] == s + u[..|u| - 1];
      StrippedTail(s, u[..|u| - 1]);
    }
  }

  // A number below 10^k has at most k digits.
  lemma {:induction false} NumeralLength(n: nat, k: nat)
    requires n < Pow10(k) && k > 0
    ensures 1 <= |Numeral(n, 10)| <= k
  {
    if n >= 10 {
      NumeralUnfolds(n);
      NumeralLength(n / 10, k - 1);
    }
  }
}
