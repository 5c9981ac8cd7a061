// number() and string() of strace/vsprintf.c.
module Number {
  import opened Arithmetic
  import opened Buffers
  import opened Digits
  import opened PutDec

  datatype Spec = Spec(zeropad: bool, sign: bool, left: bool, special: bool, base: int, width: int, precision: int)
  {
    // number() is called with base 8, 10 or 16 only.
    predicate Valid() {
      base == 8 || base == 10 || base == 16
    }
  }

  // sizeof(long long)*3 + 4
  const TMP_SIZE := 8 * 3 + 4

  function Repeat(c: char, n: int): (s: string)
    ensures |s| == if n > 0 then n else 0
    ensures forall i :: 0 <= i < |s| ==> s[i] == c
  {
    seq(if n > 0 then n else 0, _ => c)
  }

  function Reverse(s: string): (r: string)
    ensures |r| == |s|
  {
    if s == "" then "" else Reverse(s[1..]) + [s[0]]
  }

  // The unsigned long long num as the conversion reads it.
  function Meaning(num: nat, spec: Spec): int {
    if spec.sign && num >= 0x8000_0000_0000_0000 then num - 0x1_0000_0000_0000_0000 else num
  }

  function Magnitude(num: nat, spec: Spec): nat {
    var m := Meaning(num, spec);
    if m < 0 then -m else m
  }

  function SignText(num: nat, spec: Spec): string {
    if Meaning(num, spec) < 0 then "-" else ""
  }

  function PrefixText(spec: Spec): string {
    if !spec.special || spec.base == 10 then "" else if spec.base == 16 then "0x" else "0"
  }

  // Head and digits in w more columns: padding on one side, or zeros between.
  function Composed(spec: Spec, head: string, digits: string, w: int): string {
    if spec.left then head + digits + Repeat(' ', w)
    else if spec.zeropad then head + Repeat('0', w) + digits
    else Repeat(' ', w) + head + digits
  }

  // What number() stands for.
  function NumberText(num: nat, spec: Spec): string
    requires spec.Valid()
  {
    var digits := Reverse(Numeral(Magnitude(num, spec), spec.base));
    var head := SignText(num, spec) + PrefixText(spec);
    Composed(spec, head, digits, spec.width - |head| - |digits|)
  }

  function Pow8(k: nat): (p: int)
    ensures p > 0
  {
    if k == 0 then 1 else 8 * Pow8(k - 1)
  }

  lemma Pow8Values()
    ensures Pow8(22) == 0x4_0000_0000_0000_0000
  {
    assert Pow8(5) == 32768;
    assert Pow8(10) == 1073741824;
    assert Pow8(16) == 281474976710656;
  }

  // ((unsigned char)num) & mask, for the masks 7 and 15.
  function MaskOut(num: nat, base: int): (d: int)
    requires base == 8 || base == 16
    ensures 0 <= d < base
  {
    num % 256 % base
  }

  // num >> shift, for the shifts 3 and 4.
  function ShiftOut(num: nat, base: int): (n: nat)
    requires base == 8 || base == 16
  {
    num / base
  }

  // One digit of a number in base 8 or 16.
  lemma ShiftedDigit(num: nat, base: int, k: nat)
    requires (base == 8 || base == 16) && num < Pow8(k + 1)
    ensures ShiftOut(num, base) < Pow8(k)
    ensures
      Numeral(num, base) ==
      [Digit(MaskOut(num, base))] + if ShiftOut(num, base) == 0 then "" else Numeral(ShiftOut(num, base), base)
  {
    hide Pow8;
    if base == 8 {
      Shifted8(num, Pow8(k));
    } else {
      Shifted16(num, Pow8(k));
    }
    PowOf8(k);
    NumeralOf(num, base);
  }

  lemma PowOf8(k: nat)
    ensures Pow8(k + 1) == 8 * Pow8(k)
  {
  }

  lemma Shifted8(num: nat, p: int)
    ensures num % 256 % 8 == num % 8 && (num < 8 * p ==> num / 8 < p)
  {
    var q, r := num / 256, num % 256;
    assert num == 8 * (32 * q + r / 8) + r % 8;
  }

  lemma Shifted16(num: nat, p: int)
    ensures num % 256 % 16 == num % 16 && (num < 8 * p ==> num / 16 < p)
  {
    var q, r := num / 256, num % 256;
    var d, m := r / 16, r % 16;
    assert r == 16 * d + m;
    RemainderUnique(num, 16, 16 * q + d, m);
  }

  lemma NumeralOf(num: nat, base: int)
    requires base == 8 || base == 16
    ensures Numeral(num, base) == [Digit(num % base)] + if num / base == 0 then "" else Numeral(num / base, base)
  {
    hide Digit;
    if num < base {
      assert num % base == num && num / base == 0;
    } else {
      QuotientSmaller(num, base);
    }
  }

  // Bases 8 and 16: digits are masked off the low byte, then shifted out.
  method MaskedDigits(tmp: array<char>, num0: nat, base: int) returns (i: nat)
    requires tmp.Length >= TMP_SIZE && num0 < 0x1_0000_0000_0000_0000 && (base == 8 || base == 16)
    modifies tmp
    ensures i <= 22 && tmp[..i] == Numeral(num0, base)
  {
    hide Numeral;
    hide Pow8;
    hide MaskOut;
    hide ShiftOut;
    Pow8Values();
    var num: nat := num0;
    i := 0;
    while true
      invariant i < 22 && num < Pow8(22 - i)
      invariant Numeral(num0, base) == tmp[..i] + Numeral(num, base)
      decreases 22 - i
    {
      ShiftedDigit(num, base, 21 - i);
      ghost var was := tmp[..i];
      tmp[i] := HEX[MaskOut(num, base)];
      num := ShiftOut(num, base);
      i := i + 1;
      assert tmp[..i] == was + [tmp[i - 1]];
      if num == 0 {
        break;
      }
      Pow8Zero();
    }
  }

  lemma Pow8Zero()
    ensures Pow8(0) == 1
  {
  }

  // The digits of number(), least significant first.
  method DigitsOf(tmp: array<char>, num: nat, base: int) returns (i: nat)
    requires tmp.Length == TMP_SIZE && num < 0x1_0000_0000_0000_0000 && (base == 8 || base == 10 || base == 16)
    modifies tmp
    ensures i <= 22 && tmp[..i] == Numeral(num, base)
  {
    if num < base {
      tmp[0] := HEX[num];
      i := 1;
      assert tmp[..1] == [tmp[0]];
    } else if base != 10 {
      i := MaskedDigits(tmp, num, base);
    } else {
      hide Numeral;
      ghost var s := tmp[..];
      Pow10Values();
      NumeralLength(num, 20);
      i := PutDec.PutDec(tmp, 0, num);
      OverSlice(s, 0, Numeral(num, 10));
    }
  }

  // while (--width >= 0) *buf++ = c;
  method Fill(buf: array<char>, p0: nat, c: char, width0: int, ghost s: string, ghost at: nat, ghost u0: string)
    returns (p: nat, width: int, ghost u: string)
    requires buf.Length == |s| && p0 == at + |u0| && p0 <= buf.Length && buf[..] == Over(s, at, u0)
    requires p0 + width0 <= buf.Length
    modifies buf
    ensures u == u0 + Repeat(c, width0) && p == at + |u| && p <= buf.Length && buf[..] == Over(s, at, u)
    ensures width == if width0 > 0 then -1 else width0 - 1
  {
    hide Over;
    p, width, u := p0, width0 - 1, u0;
    while width >= 0
      invariant width == width0 - 1 - (p - p0) && (p == p0 || width >= -1)
      invariant p0 <= p <= buf.Length && p == at + |u| && buf[..] == Over(s, at, u)
      invariant u == u0 + Repeat(c, p - p0)
      decreases width
    {
      p, u := Emit(buf, p, c, s, at, u);
      width := width - 1;
    }
  }

  // while (--i >= 0) *buf++ = tmp[i];
  method EmitReversed(buf: array<char>, p0: nat, tmp: array<char>, n: nat,
                      ghost s: string, ghost at: nat, ghost u0: string)
    returns (p: nat, ghost u: string)
    requires buf != tmp && n <= tmp.Length && buf.Length == |s| && p0 == at + |u0| && p0 + n <= buf.Length
    requires buf[..] == Over(s, at, u0)
    modifies buf
    ensures u == u0 + Reverse(tmp[..n]) && p == at + |u| <= buf.Length && buf[..] == Over(s, at, u)
  {
    hide Over;
    p, u := p0, u0;
    var i := n;
    assert tmp[n..n] == "";
    while i > 0
      invariant 0 <= i <= n && p == p0 + (n - i)
      invariant p == at + |u| && buf[..] == Over(s, at, u)
      invariant u + Reverse(tmp[..i]) == u0 + Reverse(tmp[..n])
    {
      i := i - 1;
      ReverseSplits(tmp[..i], tmp[i]);
      assert tmp[..i + 1] == tmp[..i] + [tmp[i]];
      p, u := Emit(buf, p, tmp[i], s, at, u);
    }
    assert tmp[..0] == "";
  }

  lemma {:induction false} ReverseSplits(s: string, c: char)
    ensures Reverse(s + [c]) == [c] + Reverse(s)
  {
    if s != "" {
      ReverseSplits(s[1..], c);
      assert (s + [c])[1..] == s[1..] + [c];
    }
  }

  // The text fits the crude bound number() checks first.
  lemma NumberTextLength(num: nat, spec: Spec)
    requires spec.Valid() && num < 0x1_0000_0000_0000_0000 && |Numeral(Magnitude(num, spec), spec.base)| <= 22
    ensures
      |NumberText(num, spec)| ==
      Max(spec.width, |SignText(num, spec)| + |PrefixText(spec)| + |Numeral(Magnitude(num, spec), spec.base)|)
    ensures |NumberText(num, spec)| <= Max(TMP_SIZE, spec.width)
  {
  }

  // Sign and prefix.
  method EmitHead(buf: array<char>, p0: nat, sign: bool, spec: Spec, ghost s: string, ghost at: nat, ghost u0: string)
    returns (p: nat, ghost u: string)
    requires buf.Length == |s| && p0 == at + |u0| <= buf.Length && buf[..] == Over(s, at, u0)
    requires p0 + (if sign then 1 else 0) + |PrefixText(spec)| <= buf.Length
    modifies buf
    ensures u == u0 + ((if sign then "-" else "") + PrefixText(spec))
    ensures p == at + |u| <= buf.Length && buf[..] == Over(s, at, u)
  {
    hide Over;
    p, u := p0, u0;
    if sign {
      p, u := Emit(buf, p, '-', s, at, u);
    }
    if spec.special && spec.base != 10 {
      p, u := Emit(buf, p, '0', s, at, u);
      if spec.base == 16 {
        p, u := Emit(buf, p, 'x', s, at, u);
      }
    }
  }

  // The writing part of number().
  method Compose(buf: array<char>, at: nat, tmp: array<char>, n: nat, sign: bool, spec: Spec, width0: int,
                 ghost head: string)
    returns (p: nat)
    requires buf != tmp && n <= tmp.Length && head == (if sign then "-" else "") + PrefixText(spec)
    requires at + Max(width0, 0) + |head| + n <= buf.Length
    modifies buf
    ensures |Composed(spec, head, Reverse(tmp[..n]), width0)| == Max(width0, 0) + |head| + n
    ensures p == at + |Composed(spec, head, Reverse(tmp[..n]), width0)|
    ensures buf[..] == Over(old(buf[..]), at, Composed(spec, head, Reverse(tmp[..n]), width0))
  {
    hide Over;
    hide Composed;
    hide Repeat;
    hide Reverse;
    ghost var s, u := buf[..], "";
    OverNothing(s, at);
    var width := width0;
    p := at;
    if !(spec.zeropad || spec.left) {
      p, width, u := Fill(buf, p, ' ', width, s, at, u);
      assert u == Repeat(' ', width0);
    }
    p, u := EmitHead(buf, p, sign, spec, s, at, u);
    if !spec.left {
      var c := if spec.zeropad then '0' else ' ';
      p, width, u := Fill(buf, p, c, width, s, at, u);
    } else {
      assert u + "" == u;
    }
    ghost var digits := Reverse(tmp[..n]);
    p, u := EmitReversed(buf, p, tmp, n, s, at, u);
    p, width, u := Fill(buf, p, ' ', width, s, at, u);
    Assembled(spec, head, digits, width0);
  }

  // What is left of the width after a padding loop.
  function Used(w: int): int { if w > 0 then -1 else w - 1 }

  // The pieces in the order they are written.
  lemma Assembled(spec: Spec, head: string, digits: string, w: int)
    ensures
      var lead := if spec.zeropad || spec.left then "" else Repeat(' ', w);
      var w1 := if spec.zeropad || spec.left then w else Used(w);
      var mid := if spec.left then "" else Repeat(if spec.zeropad then '0' else ' ', w1);
      var w2 := if spec.left then w1 else Used(w1);
      Composed(spec, head, digits, w) == lead + head + mid + digits + Repeat(' ', w2)
    ensures |Composed(spec, head, digits, w)| == Max(w, 0) + |head| + |digits|
  {
    if spec.left {
      assert "" + head == head;
      assert head + "" == head;
    } else if spec.zeropad {
      assert "" + head == head;
    }
  }

  // number(): either it finds the room too small and only advances, or it
  // writes exactly the text.
  method Number(buf: array<char>, at: nat, end: int, num0: nat, spec: Spec) returns (p: int)
    requires end <= buf.Length && spec.Valid() && num0 < 0x1_0000_0000_0000_0000
    modifies buf
    ensures end - at <= Max(TMP_SIZE, spec.width) ==> p == at + Max(TMP_SIZE, spec.width) && buf[..] == old(buf[..])
    ensures end - at > Max(TMP_SIZE, spec.width) ==>
              && |NumberText(num0, spec)| <= Max(TMP_SIZE, spec.width)
              && p == at + |NumberText(num0, spec)|
              && buf[..] == Over(old(buf[..]), at, NumberText(num0, spec))
  {
    hide Over;
    hide Numeral;
    hide Composed;
    hide Reverse;
    var i := TMP_SIZE;
    if i < spec.width {
      i := spec.width;
    }
    if end - at <= i {
      return at + i;
    }
    var needPfx := spec.special && spec.base != 10;
    var num, sign, width := num0, false, spec.width;
    if spec.sign && num >= 0x8000_0000_0000_0000 {
      sign := true;
      num := 0x1_0000_0000_0000_0000 - num;
      width := width - 1;
    }
    if needPfx {
      width := width - 1;
      if spec.base == 16 {
        width := width - 1;
      }
    }
    var tmp := new char[TMP_SIZE];
    var n := DigitsOf(tmp, num, spec.base);
    assert num == Magnitude(num0, spec);
    NumberTextLength(num0, spec);
    p := Compose(buf, at, tmp, n, sign, spec, width - n, SignText(num0, spec) + PrefixText(spec));
  }

  // Reading a number back as strtol does in a given base: spaces, a sign, an
  // optional 0x in base 16, then digits.
  function ReadDigits(t: string, base: int, acc: int): int {
    if t != "" && 0 <= DigitValue(t[0]) < base then ReadDigits(t[1..], base, acc * base + DigitValue(t[0])) else acc
  }

  function ReadUnsigned(t: string, base: int): int {
    ReadDigits(if base == 16 && "0x" <= t then t[2..] else t, base, 0)
  }

  function ReadNumber(t: string, base: int): int {
    if t != "" && t[0] == ' ' then ReadNumber(t[1..], base)
    else if t != "" && t[0] == '-' then -ReadUnsigned(t[1..], base)
    else ReadUnsigned(t, base)
  }

  lemma {:induction false} ReadReversed(s: string, rest: string, base: int)
    requires IsDigits(s, base)
    ensures ReadDigits(Reverse(s) + rest, base, 0) == ReadDigits(rest, base, Value(s, base))
  {
    if s == "" {
      assert "" + rest == rest;
    } else {
      assert Reverse(s) + rest == Reverse(s[1..]) + ([s[0]] + rest);
      ReadReversed(s[1..], [s[0]] + rest, base);
      assert ([s[0]] + rest)[1..] == rest;
    }
  }

  lemma {:induction false} ReadZeros(n: int, t: string, base: int)
    requires base > 0
    ensures ReadDigits(Repeat('0', n) + t, base, 0) == ReadDigits(t, base, 0)
    decreases n
  {
    if n > 0 {
      assert (Repeat('0', n) + t)[1..] == Repeat('0', n - 1) + t;
      ReadZeros(n - 1, t, base);
    } else {
      assert Repeat('0', n) + t == t;
    }
  }

  lemma {:induction false} ReadSpaces(n: int, t: string, base: int)
    ensures ReadNumber(Repeat(' ', n) + t, base) == ReadNumber(t, base)
    decreases n
  {
    if n > 0 {
      assert (Repeat(' ', n) + t)[1..] == Repeat(' ', n - 1) + t;
      ReadSpaces(n - 1, t, base);
    } else {
      assert Repeat(' ', n) + t == t;
    }
  }

  // The digit part, zero padded or not, with anything that is no digit behind it.
  lemma ReadMagnitude(m: nat, base: int, zeros: int, rest: string)
    requires 2 <= base <= 16 && (rest == "" || rest[0] == ' ')
    ensures
      ReadDigits(Repeat('0', zeros) + Reverse(Numeral(m, base)) + rest, base, 0) == m
    ensures Repeat('0', zeros) + Reverse(Numeral(m, base)) + rest != ""
    ensures
      var t := Repeat('0', zeros) + Reverse(Numeral(m, base)) + rest;
      0 <= DigitValue(t[0]) < base && !("0x" <= t)
  {
    var s := Numeral(m, base);
    NumeralReads(m, base);
    ReadReversed(s, rest, base);
    ReadZeros(zeros, Reverse(s) + rest, base);
    var t := Repeat('0', zeros) + Reverse(s) + rest;
    assert t == Repeat('0', zeros) + (Reverse(s) + rest);
    ReverseDigits(s, base);
    if |t| >= 2 {
      assert t[1] == '0' || t[1] in Reverse(s) || t[1] in rest;
      assert rest != "" && |Repeat('0', zeros) + Reverse(s)| == 1 ==> t[1] == rest[0];
    }
  }

  lemma {:induction false} ReverseDigits(s: string, base: int)
    requires IsDigits(s, base)
    ensures IsDigits(Reverse(s), base)
  {
    if s != "" {
      ReverseDigits(s[1..], base);
    }
  }

  // A prefixed magnitude.
  lemma ReadPrefixed(u: string, spec: Spec)
    requires spec.Valid() && u != "" && 0 <= DigitValue(u[0]) < spec.base && !("0x" <= u)
    ensures
      var t := PrefixText(spec) + u;
      ReadUnsigned(t, spec.base) == ReadDigits(u, spec.base, 0) && t != "" && t[0] != ' ' && t[0] != '-'
  {
    var t := PrefixText(spec) + u;
    if !spec.special || spec.base == 10 {
      assert t == u;
    } else if spec.base == 16 {
      assert t[2..] == u;
    } else {
      assert t[1..] == u && DigitValue('0') == 0;
    }
  }

  // A sign in front.
  lemma ReadSigned(num: nat, spec: Spec, t: string)
    requires t != "" && t[0] != ' ' && t[0] != '-' && ReadUnsigned(t, spec.base) == Magnitude(num, spec)
    ensures ReadNumber(SignText(num, spec) + t, spec.base) == Meaning(num, spec)
  {
    assert ("-" + t)[1..] == t && "" + t == t;
  }

  // Under every combination of flags, the text reads back as the number.
  lemma NumberReadsBack(num: nat, spec: Spec)
    requires spec.Valid() && num < 0x1_0000_0000_0000_0000
    ensures ReadNumber(NumberText(num, spec), spec.base) == Meaning(num, spec)
  {
    hide Numeral;
    hide Reverse;
    hide Repeat;
    hide ReadNumber;
    hide ReadUnsigned;
    hide ReadDigits;
    hide SignText;
    hide PrefixText;
    hide Magnitude;
    hide Meaning;
    var m := Magnitude(num, spec);
    var digits, sign, prefix := Reverse(Numeral(m, spec.base)), SignText(num, spec), PrefixText(spec);
    var pad := spec.width - |sign + prefix| - |digits|;
    var zeros := if spec.zeropad && !spec.left then pad else 0;
    var rest := if spec.left then Repeat(' ', pad) else "";
    var u := Repeat('0', zeros) + digits + rest;
    RepeatFacts(pad);
    ReadMagnitude(m, spec.base, zeros, rest);
    ReadPrefixed(u, spec);
    ReadSigned(num, spec, prefix + u);
    ReadSpaces(pad, sign + (prefix + u), spec.base);
    TextShape(spec, sign, prefix, digits, pad);
  }

  // A signed conversion of a 64-bit number in two's complement prints that
  // number, negative or not.
  lemma SignedReadsBack(v: int, spec: Spec)
    requires spec.Valid() && spec.sign && -0x8000_0000_0000_0000 <= v < 0x8000_0000_0000_0000
    ensures ReadNumber(NumberText(if v < 0 then v + 0x1_0000_0000_0000_0000 else v, spec), spec.base) == v
  {
    NumberReadsBack(if v < 0 then v + 0x1_0000_0000_0000_0000 else v, spec);
  }

  // An unsigned one prints the number itself.
  lemma UnsignedReadsBack(num: nat, spec: Spec)
    requires spec.Valid() && !spec.sign && num < 0x1_0000_0000_0000_0000
    ensures ReadNumber(NumberText(num, spec), spec.base) == num
  {
    NumberReadsBack(num, spec);
  }

  // t is u and then only c.
  predicate StartsWith(t: string, u: string, c: char) {
    u <= t && forall i :: |u| <= i < |t| ==> t[i] == c
  }

  // t is only c and then u.
  predicate EndsWith(t: string, u: string, c: char) {
    |u| <= |t| && t[|t| - |u|..] == u && forall i :: 0 <= i < |t| - |u| ==> t[i] == c
  }

  lemma ComposedLayout(spec: Spec, head: string, digits: string, w: int)
    ensures
      var t := Composed(spec, head, digits, w);
      && |t| == Max(w, 0) + |head| + |digits|
      && (spec.left ==> StartsWith(t, head + digits, ' '))
      && (!spec.left && !spec.zeropad ==> EndsWith(t, head + digits, ' '))
      && (!spec.left && spec.zeropad ==> head <= t && EndsWith(t[|head|..], digits, '0'))
  {
    var t := Composed(spec, head, digits, w);
    if !spec.left {
      if spec.zeropad {
        assert t == head + (Repeat('0', w) + digits);
      } else {
        assert t == Repeat(' ', w) + (head + digits);
      }
    }
  }

  // Where everything stands: sign and prefix right in front of the digits or
  // of the zeros that pad them, spaces on the other side.
  lemma NumberLayout(num: nat, spec: Spec)
    requires spec.Valid() && num < 0x1_0000_0000_0000_0000
    ensures
      var negative := spec.sign && num >= 0x8000_0000_0000_0000;
      var m: nat := if negative then 0x1_0000_0000_0000_0000 - num else num;
      var prefix := if !spec.special then "" else if spec.base == 16 then "0x" else if spec.base == 8 then "0" else "";
      var head, digits := (if negative then "-" else "") + prefix, Reverse(Numeral(m, spec.base));
      var t := NumberText(num, spec);
      && |t| == Max(spec.width, |head| + |digits|)
      && (spec.left ==> StartsWith(t, head + digits, ' '))
      && (!spec.left && !spec.zeropad ==> EndsWith(t, head + digits, ' '))
      && (!spec.left && spec.zeropad ==> head <= t && EndsWith(t[|head|..], digits, '0'))
  {
    var head, digits := SignText(num, spec) + PrefixText(spec), Reverse(Numeral(Magnitude(num, spec), spec.base));
    ComposedLayout(spec, head, digits, spec.width - |head| - |digits|);
    hide Numeral;
    hide Reverse;
    hide Composed;
    hide StartsWith;
    hide EndsWith;
  }

  // The three layouts, associated to the right.
  lemma TextShape(spec: Spec, sign: string, prefix: string, digits: string, pad: int)
    ensures
      var zeros := if spec.zeropad && !spec.left then pad else 0;
      var rest := if spec.left then Repeat(' ', pad) else "";
      var t := sign + (prefix + (Repeat('0', zeros) + digits + rest));
      Composed(spec, sign + prefix, digits, pad) == if spec.left || spec.zeropad then t else Repeat(' ', pad) + t
  {
    var zeros := if spec.zeropad && !spec.left then pad else 0;
    var rest := if spec.left then Repeat(' ', pad) else "";
    var z := Repeat('0', zeros);
    assert Repeat('0', 0) == "";
    assert sign + (prefix + (z + digits + rest)) == sign + prefix + z + digits + rest;
    assert Repeat(' ', pad) + (sign + prefix + digits) == Repeat(' ', pad) + (sign + prefix) + digits;
  }

  lemma RepeatFacts(n: int)
    ensures Repeat('0', 0) == "" && (Repeat(' ', n) == "" || Repeat(' ', n)[0] == ' ')
  {
  }
}
