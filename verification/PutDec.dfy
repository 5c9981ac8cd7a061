// Decimal conversion of strace/vsprintf.c: reciprocal multiplication in groups
// of nine digits, and the variant without 64-bit division in groups of four.
module PutDec {
  import opened Buffers
  import opened Digits

  // unsigned int and uint32_t arithmetic.
  function U32(x: int): int {
    x % 0x1_0000_0000
  }

  // x + '0' stored in a char.
  function Char(x: int): char {
    ((x + '0' as int) % 256) as char
  }

  lemma CharOfDigit(d: int)
    requires 0 <= d < 10
    ensures Char(d) == Digit(d)
  {
    assert Digit(d) == "0123456789"[d];
  }

  // The divisions by 10, each on the range the source gives for it.
  lemma Recip32(x: int)
    requires 0 <= x < 1073741829
    ensures x * 0x1999999a / 0x1_0000_0000 == x / 10
  {
    assert x == 10 * (x / 10) + x % 10;
  }

  lemma Recip19(x: int)
    requires 0 <= x < 81920
    ensures U32(x * 0xcccd) / 0x80000 == x / 10
  {
    assert x == 10 * (x / 10) + x % 10;
  }

  lemma Recip16(x: int)
    requires 0 <= x < 16389
    ensures U32(x * 0x199a) / 0x10000 == x / 10
  {
    assert x == 10 * (x / 10) + x % 10;
  }

  lemma Recip11(x: int)
    requires 0 <= x < 1029
    ensures U32(x * 0xcd) / 0x800 == x / 10
  {
    assert x == 10 * (x / 10) + x % 10;
  }

  // *buf++ = (x - 10 * y) + '0', where y is the quotient by 10; u is what has
  // been written before.
  method PutDigit(buf: array<char>, p: nat, x: int, y: int, ghost s: string, ghost at: nat, ghost u: string)
    returns (p': nat, ghost u': string)
    requires p < buf.Length == |s| && p == at + |u| && buf[..] == Over(s, at, u)
    requires 0 <= x < 0x1_0000_0000 && y == x / 10
    modifies buf
    ensures u' == u + [Digit(x % 10)] && p' == p + 1
    ensures buf[..] == Over(s, at, u')
  {
    CharOfDigit(x % 10);
    WrappedDigit(x, y);
    buf[p] := Char(U32(x - U32(10 * y)));
    p' := p + 1;
    u' := u + [Digit(x % 10)];
  }

  lemma WrappedDigit(x: int, y: int)
    requires 0 <= x < 0x1_0000_0000 && y == x / 10
    ensures U32(x - U32(10 * y)) == x % 10
  {
  }

  // One digit of a padded group.
  lemma PaddedStep(target: string, u: string, x: nat, k: nat)
    requires k > 0 && target == u + Padded(x, k)
    ensures target == u + [Digit(x % 10)] + Padded(x / 10, k - 1)
  {
  }

  // One digit of a numeral.
  lemma NumeralStepOut(target: string, u: string, x: nat)
    requires target == u + Numeral(x, 10)
    ensures if x / 10 == 0 then target == u + [Digit(x % 10)] else target == u + [Digit(x % 10)] + Numeral(x / 10, 10)
  {
    if x >= 10 {
      NumeralUnfolds(x);
    }
  }

  lemma PaddedLength(n: nat, k: nat)
    ensures |Padded(n, k)| == k
  {
  }

  // Exactly nine digits.
  method PutDecFull9(buf: array<char>, at: nat, q0: int) returns (p: nat)
    requires at + 9 <= buf.Length && 0 <= q0 < 1000000000
    modifies buf
    ensures p == at + 9 && |Padded(q0, 9)| == 9
    ensures buf[..] == Over(old(buf[..]), at, Padded(q0, 9))
  {
    hide Padded;
    hide U32;
    hide Over;
    PaddedLength(q0, 9);
    ghost var s, w, u := buf[..], Padded(q0, 9), "";
    OverNothing(s, at);
    var q, r := q0, 0;
    Recip32(q);
    PaddedStep(w, u, q, 9);
    r := q * 0x1999999a / 0x1_0000_0000;
    p, u := PutDigit(buf, at, q, r, s, at, u);
    Recip32(r);
    PaddedStep(w, u, r, 8);
    q := r * 0x1999999a / 0x1_0000_0000;
    p, u := PutDigit(buf, p, r, q, s, at, u);
    Recip32(q);
    PaddedStep(w, u, q, 7);
    r := q * 0x1999999a / 0x1_0000_0000;
    p, u := PutDigit(buf, p, q, r, s, at, u);
    Recip32(r);
    PaddedStep(w, u, r, 6);
    q := r * 0x1999999a / 0x1_0000_0000;
    p, u := PutDigit(buf, p, r, q, s, at, u);
    Recip32(q);
    PaddedStep(w, u, q, 5);
    r := q * 0x1999999a / 0x1_0000_0000;
    p, u := PutDigit(buf, p, q, r, s, at, u);
    Recip16(r);
    PaddedStep(w, u, r, 4);
    q := U32(r * 0x199a) / 0x10000;
    p, u := PutDigit(buf, p, r, q, s, at, u);
    Recip11(q);
    PaddedStep(w, u, q, 3);
    r := U32(q * 0xcd) / 0x800;
    p, u := PutDigit(buf, p, q, r, s, at, u);
    Recip11(r);
    PaddedStep(w, u, r, 2);
    q := U32(r * 0xcd) / 0x800;
    p, u := PutDigit(buf, p, r, q, s, at, u);
    p := PutLast(buf, p, q, s, at, u);
    LastDigit(w, u, q);
  }

  // *buf++ = q + '0'.
  method PutLast(buf: array<char>, p: nat, q: int, ghost s: string, ghost at: nat, ghost u: string) returns (p': nat)
    requires p < buf.Length == |s| && p == at + |u| && buf[..] == Over(s, at, u) && 0 <= q < 10
    modifies buf
    ensures p' == p + 1 && buf[..] == Over(s, at, u + [Digit(q)])
  {
    CharOfDigit(q);
    buf[p] := Char(q);
    p' := p + 1;
  }

  lemma LastDigit(target: string, u: string, q: nat)
    requires target == u + Padded(q, 1) && q < 10
    ensures target == u + [Digit(q)]
  {
    hide Digit;
    assert Padded(q, 1) == [Digit(q % 10)] + Padded(q / 10, 0);
    assert q % 10 == q && Padded(q / 10, 0) == "";
  }

  // Up to eight digits, without leading zeros.
  method PutDecTrunc8(buf: array<char>, at: nat, r0: int) returns (p: nat)
    requires 0 <= r0 < 100000000 && at + |Numeral(r0, 10)| <= buf.Length
    modifies buf
    ensures p == at + |Numeral(r0, 10)|
    ensures buf[..] == Over(old(buf[..]), at, Numeral(r0, 10))
  {
    hide Numeral;
    hide U32;
    hide Over;
    ghost var s, w, u := buf[..], Numeral(r0, 10), "";
    OverNothing(s, at);
    var q, r := 0, r0;
    Recip32(r);
    NumeralStepOut(w, u, r);
    q := r * 0x1999999a / 0x1_0000_0000;
    p, u := PutDigit(buf, at, r, q, s, at, u);
    if q == 0 { return; }
    Recip32(q);
    NumeralStepOut(w, u, q);
    r := q * 0x1999999a / 0x1_0000_0000;
    p, u := PutDigit(buf, p, q, r, s, at, u);
    if r == 0 { return; }
    Recip32(r);
    NumeralStepOut(w, u, r);
    q := r * 0x1999999a / 0x1_0000_0000;
    p, u := PutDigit(buf, p, r, q, s, at, u);
    if q == 0 { return; }
    Recip32(q);
    NumeralStepOut(w, u, q);
    r := q * 0x1999999a / 0x1_0000_0000;
    p, u := PutDigit(buf, p, q, r, s, at, u);
    if r == 0 { return; }
    p := PutDecTruncRest(buf, p, r, s, at, u, w);
  }

  // The second half of it, where 32-bit products are wide enough.
  method PutDecTruncRest(buf: array<char>, p0: nat, r0: int,
                         ghost s: string, ghost at: nat, ghost u0: string, ghost w: string) returns (p: nat)
    requires 0 < r0 < 10000 && w == u0 + Numeral(r0, 10) && at + |w| <= buf.Length == |s|
    requires p0 == at + |u0| && buf[..] == Over(s, at, u0)
    modifies buf
    ensures p == at + |w| && buf[..] == Over(s, at, w)
  {
    hide Numeral;
    hide U32;
    hide Over;
    ghost var u := u0;
    var q, r := 0, r0;
    Recip16(r);
    NumeralStepOut(w, u, r);
    q := U32(r * 0x199a) / 0x10000;
    p, u := PutDigit(buf, p0, r, q, s, at, u);
    if q == 0 { return; }
    Recip11(q);
    NumeralStepOut(w, u, q);
    r := U32(q * 0xcd) / 0x800;
    p, u := PutDigit(buf, p, q, r, s, at, u);
    if r == 0 { return; }
    Recip11(r);
    NumeralStepOut(w, u, r);
    q := U32(r * 0xcd) / 0x800;
    p, u := PutDigit(buf, p, r, q, s, at, u);
    if q == 0 { return; }
    NumeralStepOut(w, u, q);
    p := PutLast(buf, p, q, s, at, u);
  }

  // The generic put_dec: groups of nine digits, then the rest. buf has room
  // for the 20 digits of a 64-bit number.
  method PutDec(buf: array<char>, at: nat, n0: int) returns (p: nat)
    requires at + 20 <= buf.Length && 0 <= n0 < 0x1_0000_0000_0000_0000
    modifies buf
    ensures p == at + |Numeral(n0, 10)| <= at + 20
    ensures buf[..] == Over(old(buf[..]), at, Numeral(n0, 10))
  {
    hide Numeral;
    hide Padded;
    hide Over;
    ghost var s, w, u := buf[..], Numeral(n0, 10), "";
    OverNothing(s, at);
    Pow10Values();
    NumeralLength(n0, 20);
    p := at;
    var n := n0;
    if n >= 100 * 1000 * 1000 {
      while n >= 1000 * 1000 * 1000
        invariant 0 < n < 0x1_0000_0000_0000_0000
        invariant p == at + |u| && |u| <= 18 && buf[..] == Over(s, at, u)
        invariant w == u + Numeral(n, 10)
        invariant (|u| == 0 && n >= 100 * 1000 * 1000) || (|u| == 9 && n < 18446744074) || (|u| == 18 && n < 19)
      {
        var t := n % (1000 * 1000 * 1000);
        Group9(n);
        ghost var c := buf[..];
        p := PutDecFull9(buf, p, t);
        n := n / (1000 * 1000 * 1000);
        OverMore(s, at, u, Padded(t, 9));
        u := u + Padded(t, 9);
      }
      if n >= 100 * 1000 * 1000 {
        Nine(n);
        p := PutDecFull9(buf, p, n);
        OverMore(s, at, u, Padded(n, 9));
        return;
      }
    }
    p := PutDecTrunc8(buf, p, n);
    OverMore(s, at, u, Numeral(n, 10));
  }

  lemma Group9(n: nat)
    requires n >= 1000000000
    ensures |Padded(n % 1000000000, 9)| == 9
    ensures Numeral(n, 10) == Padded(n % 1000000000, 9) + Numeral(n / 1000000000, 10)
  {
    hide Numeral;
    hide Padded;
    PaddedLength(n % 1000000000, 9);
    Pow10Values();
    NumeralJoins(n % 1000000000, n / 1000000000, 9);
  }

  lemma Pow10Values()
    ensures Pow10(4) == 10000 && Pow10(8) == 100000000 && Pow10(9) == 1000000000
    ensures Pow10(12) == 1000000000000 && Pow10(16) == 10000000000000000 && Pow10(20) == 100000000000000000000
  {
    assert Pow10(3) == 1000;
    assert Pow10(6) == 1000000;
    assert Pow10(14) == 100000000000000;
    assert Pow10(18) == 1000000000000000000;
  }

  // A number of nine digits needs no stripping.
  lemma Nine(n: nat)
    requires 100000000 <= n < 1000000000
    ensures Numeral(n, 10) == Padded(n, 9)
  {
    hide Numeral;
    hide Padded;
    Pow10Values();
    NumeralJoins(n % 100000000, n / 100000000, 8);
    PaddedJoins(n % 100000000, n / 100000000, 8, 1);
    OneDigit(n / 100000000);
  }

  lemma OneDigit(d: nat)
    requires d < 10
    ensures Numeral(d, 10) == Padded(d, 1) == [Digit(d)]
  {
    hide Digit;
    assert Padded(d, 1) == [Digit(d % 10)] + Padded(d / 10, 0);
    assert d % 10 == d && Padded(d / 10, 0) == "";
  }

  // Exactly four digits.
  method PutDecFull4(buf: array<char>, at: nat, q0: int) returns (p: nat)
    requires at + 4 <= buf.Length && 0 <= q0 < 10000
    modifies buf
    ensures p == at + 4 && |Padded(q0, 4)| == 4
    ensures buf[..] == Over(old(buf[..]), at, Padded(q0, 4))
  {
    hide Padded;
    hide U32;
    hide Over;
    PaddedLength(q0, 4);
    ghost var s, w, u := buf[..], Padded(q0, 4), "";
    OverNothing(s, at);
    var q, r := q0, 0;
    Recip19(q);
    PaddedStep(w, u, q, 4);
    r := U32(q * 0xcccd) / 0x80000;
    p, u := PutDigit(buf, at, q, r, s, at, u);
    Recip16(r);
    PaddedStep(w, u, r, 3);
    q := U32(r * 0x199a) / 0x10000;
    p, u := PutDigit(buf, p, r, q, s, at, u);
    Recip11(q);
    PaddedStep(w, u, q, 2);
    r := U32(q * 0xcd) / 0x800;
    p, u := PutDigit(buf, p, q, r, s, at, u);
    p := PutLast(buf, p, r, s, at, u);
    LastDigit(w, u, r);
  }

  // The four sums the limb version forms, carries included.
  datatype Sums = Sums(e0: int, e1: int, e2: int, e3: int)

  function LimbSums(d0: int, d1: int, d2: int, d3: int): Sums {
    var e0 := 656 * d3 + 7296 * d2 + 5536 * d1 + d0;
    var e1 := e0 / 10000 + 7671 * d3 + 9496 * d2 + 6 * d1;
    var e2 := e1 / 10000 + 4749 * d3 + 42 * d2;
    var e3 := e2 / 10000 + 281 * d3;
    Sums(e0, e1, e2, e3)
  }

  // The powers of 2^16 written in base 10000: 6|5536, 42|9496|7296 and
  // 281|4749|7671|656.
  lemma LimbDigits(d0: int, d1: int, d2: int, d3: int)
    ensures
      d0 + 0x10000 * d1 + 0x1_0000_0000 * d2 + 0x1_0000_0000_0000 * d3 ==
      (656 * d3 + 7296 * d2 + 5536 * d1 + d0)
      + 10000 * ((7671 * d3 + 9496 * d2 + 6 * d1) + 10000 * ((4749 * d3 + 42 * d2) + 10000 * (281 * d3)))
  {
  }

  lemma LimbsOf(n: nat)
    requires n < 0x1_0000_0000_0000_0000
    ensures
      n == n % 0x10000 + 0x10000 * (n / 0x10000 % 0x10000) + 0x1_0000_0000 * (n / 0x1_0000_0000 % 0x10000)
           + 0x1_0000_0000_0000 * (n / 0x1_0000_0000_0000)
    ensures 0 <= n / 0x1_0000_0000_0000 < 0x10000
  {
    var a := n / 0x10000;
    var b := a / 0x10000;
    assert n / 0x1_0000_0000 == b;
    assert n / 0x1_0000_0000_0000 == b / 0x10000;
  }

  // Carrying leaves the number alone, and nothing exceeds 32 bits.
  lemma SumsCarry(d0: int, d1: int, d2: int, d3: int)
    requires 0 <= d0 < 0x10000 && 0 <= d1 < 0x10000 && 0 <= d2 < 0x10000 && 0 <= d3 < 0x10000
    ensures
      var s := LimbSums(d0, d1, d2, d3);
      && 0 <= s.e0 < 0x1_0000_0000 && 0 <= s.e1 < 0x1_0000_0000
      && 0 <= s.e2 < 0x1_0000_0000 && 0 <= s.e3 < 0x1_0000_0000 && s.e3 < 100000000
      && (656 * d3 + 7296 * d2 + 5536 * d1 + d0)
         + 10000 * ((7671 * d3 + 9496 * d2 + 6 * d1) + 10000 * ((4749 * d3 + 42 * d2) + 10000 * (281 * d3)))
         == s.e0 % 10000 + 10000 * (s.e1 % 10000 + 10000 * (s.e2 % 10000 + 10000 * s.e3))
  {
    var s := LimbSums(d0, d1, d2, d3);
    assert s.e0 == 10000 * (s.e0 / 10000) + s.e0 % 10000;
    assert s.e1 == 10000 * (s.e1 / 10000) + s.e1 % 10000;
    assert s.e2 == 10000 * (s.e2 / 10000) + s.e2 % 10000;
  }

  // The 16-bit limbs of n, reassembled in base 10000.
  lemma LimbsReassemble(n: nat)
    requires n < 0x1_0000_0000_0000_0000
    ensures
      var s := LimbSums(n % 0x10000, n / 0x10000 % 0x10000, n / 0x1_0000_0000 % 0x10000, n / 0x1_0000_0000_0000);
      && 0 <= s.e0 < 0x1_0000_0000 && 0 <= s.e1 < 0x1_0000_0000
      && 0 <= s.e2 < 0x1_0000_0000 && 0 <= s.e3 < 0x1_0000_0000 && s.e3 < 100000000
      && n == s.e0 % 10000 + 10000 * (s.e1 % 10000 + 10000 * (s.e2 % 10000 + 10000 * s.e3))
  {
    hide LimbSums;
    var d0, d1, d2, d3 := n % 0x10000, n / 0x10000 % 0x10000, n / 0x1_0000_0000 % 0x10000, n / 0x1_0000_0000_0000;
    LimbsOf(n);
    LimbDigits(d0, d1, d2, d3);
    SumsCarry(d0, d1, d2, d3);
  }

  lemma JoinGroups(lo: nat, hi: nat, m: nat)
    requires lo < 10000
    ensures Padded(lo, 4) + Padded(hi, m) == Padded(lo + 10000 * hi, 4 + m)
  {
    hide Padded;
    Pow10Values();
    PaddedJoins(lo, hi, 4, m);
  }

  // while (buf[-1] == '0') --buf;
  method StripZeros(buf: array<char>, at: nat, p0: nat) returns (p: nat)
    requires at <= p0 <= buf.Length && Stripped(buf[at..p0]) != ""
    ensures at <= p <= p0 && buf[at..p] == Stripped(buf[at..p0])
  {
    p := p0;
    while buf[p - 1] == '0'
      invariant at < p <= p0
      invariant Stripped(buf[at..p]) == Stripped(buf[at..p0]) != ""
      decreases p
    {
      assert buf[at..p][..p - at - 1] == buf[at..p - 1];
      p := p - 1;
    }
  }

  // The groups the sums give, as many as the code writes.
  ghost function Groups(s: Sums): string
    requires 0 <= s.e0 && 0 <= s.e1 && 0 <= s.e2 && 0 <= s.e3
  {
    Padded(s.e0 % 10000, 4) + Padded(s.e1 % 10000, 4) + Padded(s.e2 % 10000, 4)
    + (if s.e3 == 0 then "" else Padded(s.e3 % 10000, 4))
    + (if s.e3 / 10000 == 0 then "" else Padded(s.e3 / 10000, 4))
  }

  lemma GroupsStrip(n: nat, s: Sums)
    requires 0 <= s.e0 && 0 <= s.e1 && 0 <= s.e2 && 0 <= s.e3 < 100000000 && 0 < n
    requires n == s.e0 % 10000 + 10000 * (s.e1 % 10000 + 10000 * (s.e2 % 10000 + 10000 * s.e3))
    ensures Stripped(Groups(s)) == Numeral(n, 10) && |Groups(s)| <= 20
  {
    hide Padded;
    hide Pow10;
    Pow10Values();
    var g0, g1, g2, g3, g4 := s.e0 % 10000, s.e1 % 10000, s.e2 % 10000, s.e3 % 10000, s.e3 / 10000;
    var m := if s.e3 == 0 then 0 else if g4 == 0 then 4 else 8;
    var top := (if s.e3 == 0 then "" else Padded(g3, 4)) + (if g4 == 0 then "" else Padded(g4, 4));
    TopGroups(s.e3, m);
    JoinGroups(g2, s.e3, m);
    JoinGroups(g1, g2 + 10000 * s.e3, 4 + m);
    JoinGroups(g0, g1 + 10000 * (g2 + 10000 * s.e3), 8 + m);
    assert Groups(s) == Padded(g0, 4) + (Padded(g1, 4) + (Padded(g2, 4) + top));
    PaddedLength(n, 12 + m);
    StrippedPadded(n, 12 + m);
  }

  lemma TopGroups(e: nat, m: nat)
    requires e < 100000000 && m == if e == 0 then 0 else if e / 10000 == 0 then 4 else 8
    ensures Padded(e, m) ==
            (if e == 0 then "" else Padded(e % 10000, 4)) + (if e / 10000 == 0 then "" else Padded(e / 10000, 4))
  {
    hide Padded;
    PaddedLength(0, 0);
    if m == 8 {
      JoinGroups(e % 10000, e / 10000, 4);
    } else if m == 4 {
      assert e % 10000 == e;
    }
  }

  // What the method below computes from the limbs, and what its groups come to.
  lemma LimbsPrint(n: nat, d1: int, d2: int, d3: int, s: Sums)
    requires 0 < n < 0x1_0000_0000_0000_0000
    requires d1 == U32(n) / 0x10000 && d2 == n / 0x1_0000_0000 % 0x10000 && d3 == n / 0x1_0000_0000 / 0x10000
    requires s == LimbSums(n % 0x10000, d1, d2, d3)
    ensures 0 <= s.e0 && 0 <= s.e1 && 0 <= s.e2 && 0 <= s.e3 < 100000000
    ensures U32(656 * d3 + 7296 * d2 + 5536 * d1 + U32(n) % 0x10000) == s.e0
    ensures U32(s.e0 / 10000 + 7671 * d3 + 9496 * d2 + 6 * d1) == s.e1
    ensures U32(s.e1 / 10000 + 4749 * d3 + 42 * d2) == s.e2
    ensures U32(s.e2 / 10000 + 281 * d3) == s.e3
    ensures Stripped(Groups(s)) == Numeral(n, 10) && |Groups(s)| <= 20
    ensures Groups(s) ==
            "" + Padded(s.e0 % 10000, 4) + Padded(s.e1 % 10000, 4) + Padded(s.e2 % 10000, 4)
            + (if s.e3 == 0 then "" else Padded(s.e3 % 10000, 4))
            + (if s.e3 / 10000 == 0 then "" else Padded(s.e3 / 10000, 4))
  {
    hide Numeral;
    hide Padded;
    hide U32;
    LimbParts(n);
    LimbsReassemble(n);
    NoWrap(s.e0);
    NoWrap(s.e1);
    NoWrap(s.e2);
    NoWrap(s.e3);
    GroupsStrip(n, s);
    assert "" + Padded(s.e0 % 10000, 4) == Padded(s.e0 % 10000, 4);
  }

  // put_dec without 64-bit division: 16-bit limbs, groups of four digits.
  method PutDecLimbs(buf: array<char>, at: nat, n: int) returns (p: nat)
    requires at + 20 <= buf.Length && 0 <= n < 0x1_0000_0000_0000_0000
    modifies buf
    ensures at <= p <= at + 20 && buf[at..p] == Numeral(n, 10)
    ensures buf[..at] == old(buf[..at]) && buf[at + 20..] == old(buf[at + 20..])
  {
    hide Numeral;
    hide Padded;
    hide Over;
    hide U32;
    hide Pow10;
    hide LimbSums;
    hide Groups;
    ghost var s, u := buf[..], "";
    if n < 100 * 1000 * 1000 {
      Pow10Values();
      NumeralLength(n, 8);
      p := PutDecTrunc8(buf, at, n);
      OverSlice(s, at, Numeral(n, 10));
      OverBeyond(s, at, Numeral(n, 10), at + 20);
      return;
    }
    var d1 := U32(n) / 0x10000;
    var h := n / 0x1_0000_0000;
    var d2 := h % 0x10000;
    var d3 := h / 0x10000;
    ghost var sums := LimbSums(n % 0x10000, d1, d2, d3);
    LimbsPrint(n, d1, d2, d3, sums);
    OverNothing(s, at);

    var q := U32(656 * d3 + 7296 * d2 + 5536 * d1 + U32(n) % 0x10000);
    p, u := EmitGroup(buf, at, q % 10000, s, at, u);
    q := q / 10000;

    d1 := U32(q + 7671 * d3 + 9496 * d2 + 6 * d1);
    p, u := EmitGroup(buf, p, d1 % 10000, s, at, u);
    q := d1 / 10000;

    d2 := U32(q + 4749 * d3 + 42 * d2);
    p, u := EmitGroup(buf, p, d2 % 10000, s, at, u);
    q := d2 / 10000;

    d3 := U32(q + 281 * d3);
    p := EmitRest(buf, p, d3, s, at, u);
    OverSlice(s, at, Groups(sums));
    OverBeyond(s, at, Groups(sums), at + 20);
    p := StripZeros(buf, at, p);
  }

  // buf = put_dec_full4(buf, q)
  method EmitGroup(buf: array<char>, p: nat, q: int, ghost s: string, ghost at: nat, ghost u: string)
    returns (p': nat, ghost u': string)
    requires 0 <= q < 10000 && p + 4 <= buf.Length == |s| && p == at + |u| && buf[..] == Over(s, at, u)
    modifies buf
    ensures u' == u + Padded(q, 4) && |u'| == |u| + 4 && p' == p + 4 && buf[..] == Over(s, at, u')
  {
    p' := PutDecFull4(buf, p, q);
    OverMore(s, at, u, Padded(q, 4));
    u' := u + Padded(q, 4);
  }

  // The top groups, unless they are zero.
  method EmitRest(buf: array<char>, p0: nat, d3: int, ghost s: string, ghost at: nat, ghost u0: string) returns (p: nat)
    requires 0 <= d3 < 100000000 && p0 + 8 <= buf.Length == |s| && p0 == at + |u0| && buf[..] == Over(s, at, u0)
    modifies buf
    ensures
      var u := u0 + (if d3 == 0 then "" else Padded(d3 % 10000, 4))
               + (if d3 / 10000 == 0 then "" else Padded(d3 / 10000, 4));
      p == at + |u| <= buf.Length && buf[..] == Over(s, at, u)
  {
    hide Padded;
    hide Over;
    p := p0;
    ghost var u := u0;
    assert u0 + "" == u0;
    if d3 != 0 {
      p, u := EmitGroup(buf, p, d3 % 10000, s, at, u);
      var q := d3 / 10000;
      assert u + "" == u;
      if q != 0 {
        p, u := EmitGroup(buf, p, q, s, at, u);
      }
    }
  }

  lemma NoWrap(x: int)
    requires 0 <= x < 0x1_0000_0000
    ensures U32(x) == x
  {
  }

  lemma LimbParts(n: nat)
    requires n < 0x1_0000_0000_0000_0000
    ensures U32(n) / 0x10000 == n / 0x10000 % 0x10000 && U32(n) % 0x10000 == n % 0x10000
    ensures n / 0x1_0000_0000 / 0x10000 == n / 0x1_0000_0000_0000
  {
    var a := n / 0x10000;
    assert n == 0x1_0000_0000 * (a / 0x10000) + (0x10000 * (a % 0x10000) + n % 0x10000);
    assert U32(n) == 0x10000 * (a % 0x10000) + n % 0x10000;
  }
}
