// string_quote of strace/util.c.
module Quote {
  import opened Buffers
  import opened Digits

  newtype byte = x: int | 0 <= x < 256

  function OctalDigit(d: int): char
    requires 0 <= d < 8
  {
    ('0' as int + d) as char
  }

  predicate IsDecimal(b: byte) { '0' as int <= b as int <= '9' as int }

  function HexEscape(b: byte): string {
    ['\\', 'x', Digit(b as int / 16), Digit(b as int % 16)]
  }

  // \ooo in full before a digit, otherwise as short as possible.
  function OctalEscape(b: byte, full: bool): string {
    var c := b as int;
    "\\" + (if full || c / 64 != 0 then [OctalDigit(c / 64)] else "")
    + (if full || c / 8 != 0 then [OctalDigit(c / 8 % 8)] else "") + [OctalDigit(c % 8)]
  }

  function PlainEscape(b: byte, digitNext: bool): string {
    match b as int
    case 0x22 => "\\\""
    case 0x5c => "\\\\"
    case 0x0c => "\\f"
    case 0x0a => "\\n"
    case 0x0d => "\\r"
    case 0x09 => "\\t"
    case 0x0b => "\\v"
    case c => if 0x20 <= c <= 0x7e then [c as char] else OctalEscape(b, digitNext)
  }

  function Escape(b: byte, usehex: bool, digitNext: bool): string {
    if usehex then HexEscape(b) else PlainEscape(b, digitNext)
  }

  function Body(bytes: seq<byte>, usehex: bool): string {
    if bytes == [] then ""
    else Escape(bytes[0], usehex, |bytes| > 1 && IsDecimal(bytes[1])) + Body(bytes[1..], usehex)
  }

  function Quoted(bytes: seq<byte>, usehex: bool): string {
    "\"" + Body(bytes, usehex) + "\""
  }

  // ---------- reading a quoted string back ----------
  // The escape sequences of section 6.4.4.4 of ISO/IEC 9899:1999: an octal
  // escape takes at most three digits, a hexadecimal one as many as follow.

  datatype Reading = Bad | Good(bytes: seq<int>)

  function Prepend(b: int, r: Reading): Reading {
    if r.Good? then Good([b] + r.bytes) else Bad
  }

  function HexValue(c: char): int {
    if '0' <= c <= '9' then c as int - '0' as int
    else if 'a' <= c <= 'f' then c as int - 'a' as int + 10
    else if 'A' <= c <= 'F' then c as int - 'A' as int + 10
    else -1
  }

  predicate IsOctal(c: char) { '0' <= c <= '7' }

  function OctalLength(t: string, most: nat): (n: nat)
    ensures n <= most && n <= |t|
  {
    if most > 0 && t != "" && IsOctal(t[0]) then 1 + OctalLength(t[1..], most - 1) else 0
  }

  function HexLength(t: string): (n: nat)
    ensures n <= |t|
  {
    if t != "" && HexValue(t[0]) >= 0 then 1 + HexLength(t[1..]) else 0
  }

  // The digits of t, most significant first.
  function DigitsValue(t: string, base: int, acc: int): int {
    if t == "" then acc else DigitsValue(t[1..], base, base * acc + HexValue(t[0]))
  }

  function SimpleEscape(c: char): int {
    match c
    case '\'' => 0x27
    case '\"' => 0x22
    case '?' => 0x3f
    case '\\' => 0x5c
    case 'a' => 0x07
    case 'b' => 0x08
    case 'f' => 0x0c
    case 'n' => 0x0a
    case 'r' => 0x0d
    case 't' => 0x09
    case 'v' => 0x0b
    case _ => -1
  }

  function ReadBody(t: string): Reading
    decreases |t|
  {
    if t == "" then Bad
    else if t[0] == '\"' then if |t| == 1 then Good([]) else Bad
    else if t[0] != '\\' then Prepend(t[0] as int, ReadBody(t[1..]))
    else if |t| == 1 then Bad
    else if SimpleEscape(t[1]) >= 0 then Prepend(SimpleEscape(t[1]), ReadBody(t[2..]))
    else if t[1] == 'x' then
      var n := HexLength(t[2..]);
      if n == 0 then Bad else Prepend(DigitsValue(t[2..2 + n], 16, 0), ReadBody(t[2 + n..]))
    else
      var n := OctalLength(t[1..], 3);
      if n == 0 then Bad else Prepend(DigitsValue(t[1..1 + n], 8, 0), ReadBody(t[1 + n..]))
  }

  function Unquote(t: string): Reading {
    if t != "" && t[0] == '\"' then ReadBody(t[1..]) else Bad
  }

  function AsInts(bytes: seq<byte>): seq<int> {
    seq(|bytes|, i requires 0 <= i < |bytes| => bytes[i] as int)
  }

  // How many digits an escape takes when nothing of its kind follows.
  lemma {:induction false} HexRun(u: string, rest: string)
    requires (forall i :: 0 <= i < |u| ==> HexValue(u[i]) >= 0) && (rest != "" ==> HexValue(rest[0]) < 0)
    ensures HexLength(u + rest) == |u|
  {
    if u != "" {
      assert (u + rest)[1..] == u[1..] + rest;
      HexRun(u[1..], rest);
    } else {
      assert u + rest == rest;
    }
  }

  lemma {:induction false} OctalRun(u: string, rest: string, most: nat)
    requires (forall i :: 0 <= i < |u| ==> IsOctal(u[i])) && |u| <= most
    requires |u| == most || (rest != "" ==> !IsOctal(rest[0]))
    ensures OctalLength(u + rest, most) == |u|
  {
    if u != "" {
      assert (u + rest)[1..] == u[1..] + rest;
      OctalRun(u[1..], rest, most - 1);
    } else {
      assert u + rest == rest;
    }
  }

  lemma DigitsValueStep(x: char, u: string, base: int, acc: int)
    ensures DigitsValue([x] + u, base, acc) == DigitsValue(u, base, base * acc + HexValue(x))
  {
    assert ([x] + u)[1..] == u;
  }

  lemma DigitsValueShort(a: char, b: char, c: char, base: int)
    ensures DigitsValue([a], base, 0) == HexValue(a)
    ensures DigitsValue([a, b], base, 0) == base * HexValue(a) + HexValue(b)
    ensures DigitsValue([a, b, c], base, 0) == base * (base * HexValue(a) + HexValue(b)) + HexValue(c)
  {
    hide HexValue;
    hide DigitsValue;
    var x, y := HexValue(a), HexValue(b);
    assert base * 0 == 0;
    assert [a] == [a] + "" && [a, b] == [a] + [b] && [b] == [b] + "";
    assert [a, b, c] == [a] + [b, c] && [b, c] == [b] + [c] && [c] == [c] + "";
    DigitsValueStep(a, "", base, 0);
    DigitsValueStep(a, [b], base, 0);
    DigitsValueStep(b, "", base, x);
    DigitsValueStep(a, [b, c], base, 0);
    DigitsValueStep(b, [c], base, x);
    DigitsValueStep(c, "", base, base * x + y);
    DigitsValueNone(base);
  }

  lemma DigitsValueNone(base: int)
    ensures forall acc :: DigitsValue("", base, acc) == acc
  {
  }

  lemma HexReads(b: byte, rest: string)
    requires rest != "" && HexValue(rest[0]) < 0
    ensures ReadBody(HexEscape(b) + rest) == Prepend(b as int, ReadBody(rest))
  {
    hide HexLength;
    hide DigitsValue;
    hide HexValue;
    hide Digit;
    var t := HexEscape(b) + rest;
    var h, l := Digit(b as int / 16), Digit(b as int % 16);
    HexDigits(b as int / 16);
    HexDigits(b as int % 16);
    HexRun([h, l], rest);
    DigitsValueShort(h, l, l, 16);
    assert t[2..] == [h, l] + rest && t[2..4] == [h, l] && t[4..] == rest;
  }

  lemma HexDigits(d: int)
    requires 0 <= d < 16
    ensures HexValue(Digit(d)) == d
  {
  }

  // The three other kinds of input, one step each.
  lemma ReadSimple(c: char, rest: string)
    requires SimpleEscape(c) >= 0
    ensures ReadBody(['\\', c] + rest) == Prepend(SimpleEscape(c), ReadBody(rest))
  {
    hide SimpleEscape;
    assert (['\\', c] + rest)[2..] == rest;
  }

  lemma ReadOrdinary(c: char, rest: string)
    requires c != '\"' && c != '\\'
    ensures ReadBody([c] + rest) == Prepend(c as int, ReadBody(rest))
  {
    assert ([c] + rest)[1..] == rest;
  }

  lemma ReadOctalStep(t: string, n: nat)
    requires |t| > 1 && t[0] == '\\' && IsOctal(t[1]) && SimpleEscape(t[1]) < 0
    requires 0 < n < |t| && OctalLength(t[1..], 3) == n
    ensures ReadBody(t) == Prepend(DigitsValue(t[1..1 + n], 8, 0), ReadBody(t[1 + n..]))
  {
    hide OctalLength;
    hide DigitsValue;
    hide SimpleEscape;
    hide HexLength;
  }

  lemma ReadOctal(u: string, rest: string)
    requires u != "" && |u| <= 3 && (forall i :: 0 <= i < |u| ==> IsOctal(u[i]))
    requires |u| == 3 || (rest != "" && !IsOctal(rest[0]))
    requires SimpleEscape(u[0]) < 0
    ensures ReadBody("\\" + u + rest) == Prepend(DigitsValue(u, 8, 0), ReadBody(rest))
  {
    hide ReadBody;
    hide OctalLength;
    hide DigitsValue;
    hide SimpleEscape;
    hide IsOctal;
    var t := "\\" + u + rest;
    OctalRun(u, rest, 3);
    assert t[1] == u[0] && t[1..] == u + rest && t[1..1 + |u|] == u && t[1 + |u|..] == rest;
    ReadOctalStep(t, |u|);
  }

  // An octal escape in its full form, or before something that is no digit.
  lemma OctalReads(b: byte, full: bool, rest: string)
    requires full || (rest != "" && !IsOctal(rest[0]))
    ensures ReadBody(OctalEscape(b, full) + rest) == Prepend(b as int, ReadBody(rest))
  {
    hide ReadBody;
    hide DigitsValue;
    hide OctalDigit;
    hide HexValue;
    hide SimpleEscape;
    hide IsOctal;
    var c := b as int;
    OctalDigits();
    var x, y, z := OctalDigit(c / 64), OctalDigit(c / 8 % 8), OctalDigit(c % 8);
    var u := if full || c / 64 != 0 then [x, y, z] else if c / 8 != 0 then [y, z] else [z];
    assert OctalEscape(b, full) == "\\" + u;
    DigitsValueShort(x, y, z, 8);
    DigitsValueShort(y, z, z, 8);
    DigitsValueShort(z, z, z, 8);
    ReadOctal(u, rest);
  }

  lemma OctalDigits()
    ensures forall d :: 0 <= d < 8 ==>
              IsOctal(OctalDigit(d)) && HexValue(OctalDigit(d)) == d && SimpleEscape(OctalDigit(d)) < 0
  {
  }

  lemma PlainReads(b: byte, digitNext: bool, rest: string)
    requires digitNext || (rest != "" && !IsOctal(rest[0]))
    ensures ReadBody(PlainEscape(b, digitNext) + rest) == Prepend(b as int, ReadBody(rest))
  {
    hide ReadBody;
    hide OctalEscape;
    match b as int
    case 0x22 => ReadSimple('\"', rest);
    case 0x5c => ReadSimple('\\', rest);
    case 0x0c => ReadSimple('f', rest);
    case 0x0a => ReadSimple('n', rest);
    case 0x0d => ReadSimple('r', rest);
    case 0x09 => ReadSimple('t', rest);
    case 0x0b => ReadSimple('v', rest);
    case c =>
      if 0x20 <= c <= 0x7e {
        ReadOrdinary(c as char, rest);
      } else {
        OctalReads(b, digitNext, rest);
      }
  }

  // An escape starts with a digit exactly for the bytes that are digits.
  lemma EscapeStart(b: byte, usehex: bool, digitNext: bool)
    ensures
      var t := Escape(b, usehex, digitNext);
      t != "" && (if usehex then t[0] == '\\' else (IsOctal(t[0]) ==> IsDecimal(b)))
  {
  }

  // What follows an escape does not extend it.
  lemma RestStart(tail: seq<byte>, usehex: bool, digitNext: bool)
    requires tail != [] ==> (digitNext <==> IsDecimal(tail[0]))
    ensures
      var rest := Body(tail, usehex) + "\"";
      rest != "" && if usehex then HexValue(rest[0]) < 0 else digitNext || !IsOctal(rest[0])
  {
    hide Escape;
    if tail != [] {
      EscapeStart(tail[0], usehex, |tail| > 1 && IsDecimal(tail[1]));
    }
  }

  lemma EscapeReads(b: byte, usehex: bool, digitNext: bool, rest: string)
    requires rest != "" && if usehex then HexValue(rest[0]) < 0 else digitNext || !IsOctal(rest[0])
    ensures ReadBody(Escape(b, usehex, digitNext) + rest) == Prepend(b as int, ReadBody(rest))
  {
    if usehex {
      HexReads(b, rest);
    } else {
      PlainReads(b, digitNext, rest);
    }
  }

  lemma BodyUnfolds(bytes: seq<byte>, usehex: bool)
    requires bytes != []
    ensures
      Body(bytes, usehex) ==
      Escape(bytes[0], usehex, |bytes| > 1 && IsDecimal(bytes[1])) + Body(bytes[1..], usehex)
  {
    hide Escape;
  }

  // Every quoted string reads back as the bytes it was made from.
  lemma {:induction false} BodyReads(bytes: seq<byte>, usehex: bool)
    ensures ReadBody(Body(bytes, usehex) + "\"") == Good(AsInts(bytes))
  {
    if bytes == [] {
      assert Body(bytes, usehex) + "\"" == "\"";
      assert AsInts(bytes) == [];
    } else {
      hide ReadBody;
      hide Body;
      hide Escape;
      hide HexValue;
      hide IsOctal;
      hide IsDecimal;
      var b, tail := bytes[0], bytes[1..];
      var digitNext := |bytes| > 1 && IsDecimal(bytes[1]);
      BodyReads(tail, usehex);
      RestStart(tail, usehex, digitNext);
      EscapeReads(b, usehex, digitNext, Body(tail, usehex) + "\"");
      BodyUnfolds(bytes, usehex);
      assert Body(bytes, usehex) + "\"" == Escape(b, usehex, digitNext) + (Body(tail, usehex) + "\"");
      assert AsInts(bytes) == [b as int] + AsInts(tail);
    }
  }

  lemma QuotedReads(bytes: seq<byte>, usehex: bool)
    ensures Unquote(Quoted(bytes, usehex)) == Good(AsInts(bytes))
  {
    BodyReads(bytes, usehex);
    assert Quoted(bytes, usehex)[1..] == Body(bytes, usehex) + "\"";
  }

  // ---------- which escape it is ----------

  // Printable characters stand for themselves; quote, backslash and the five
  // white-space characters with a name take two characters; everything else is
  // octal, in three digits before a digit and otherwise in as few as possible.
  lemma EscapeLength(b: byte, digitNext: bool)
    ensures
      var c := b as int;
      |PlainEscape(b, digitNext)| ==
      if c == 0x22 || c == 0x5c || 0x09 <= c <= 0x0d then 2
      else if 0x20 <= c <= 0x7e then 1
      else 1 + if digitNext || c >= 64 then 3 else if c >= 8 then 2 else 1
  {
  }

  lemma NamedEscapes(digitNext: bool)
    ensures PlainEscape(0x22, digitNext) == "\\\"" && PlainEscape(0x5c, digitNext) == "\\\\"
    ensures PlainEscape(0x0a, digitNext) == "\\n" && PlainEscape(0x09, digitNext) == "\\t"
    ensures PlainEscape(0x0d, digitNext) == "\\r" && PlainEscape(0x0c, digitNext) == "\\f"
    ensures PlainEscape(0x0b, digitNext) == "\\v"
  {
  }

  // A hexadecimal escape is \x and two lower-case digits.
  lemma HexEscapeLayout(b: byte)
    ensures
      var t := HexEscape(b);
      && |t| == 4 && t[..2] == "\\x"
      && (forall i :: 2 <= i < 4 ==> '0' <= t[i] <= '9' || 'a' <= t[i] <= 'f')
  {
  }

  // Of an octal escape, the full form is taken exactly where a decimal digit
  // follows.
  lemma {:induction false} PlainBodyLength(bytes: seq<byte>, n: nat)
    requires n < |bytes|
    ensures
      |Body(bytes[n..], false)| ==
      |PlainEscape(bytes[n], n + 1 < |bytes| && 0x30 <= bytes[n + 1] as int <= 0x39)| + |Body(bytes[n + 1..], false)|
  {
    BodySplits(bytes, n, false);
  }

  // ---------- string_quote ----------

  // Where the bytes to quote end: at the first NUL if there is one.
  function NulIndex(s: seq<byte>): (n: nat)
    ensures n <= |s| && (forall i :: 0 <= i < n ==> s[i] != 0) && (n < |s| ==> s[n] == 0)
  {
    if s == [] || s[0] == 0 then 0 else 1 + NulIndex(s[1..])
  }

  // The bytes that get quoted.
  function Content(s: seq<byte>, len: int, size: nat): seq<byte>
    requires size <= |s| && (len == -1 ==> size >= 1)
  {
    if len == -1 then s[..NulIndex(s[..size - 1])] else s[..size]
  }

  predicate NeedsHex(b: byte) {
    b as int > 0x7e || (b as int < 0x20 && !(9 <= b as int <= 13))
  }

  // Which of the three modes applies: -xx, -x or neither.
  predicate UseHex(content: seq<byte>, xflag: int) {
    xflag > 1 || (xflag != 0 && exists i :: 0 <= i < |content| && NeedsHex(content[i]))
  }

  // A byte that is neither printable nor one of the six white-space characters.
  lemma NeedsHexExactly(b: byte)
    ensures NeedsHex(b) <==> b as int > 0x7e || b as int < 9 || 13 < b as int < 0x20
  {
  }

  // One flag asks for hex if there is such a byte, two ask for it always.
  lemma UseHexExactly(content: seq<byte>, xflag: int)
    ensures xflag > 1 ==> UseHex(content, xflag)
    ensures xflag == 0 ==> !UseHex(content, xflag)
    ensures xflag <= 1 && xflag != 0 ==>
              (UseHex(content, xflag) <==>
               exists b :: b in content && (b as int > 0x7e || b as int < 9 || 13 < b as int < 0x20))
  {
    if i :| 0 <= i < |content| && NeedsHex(content[i]) {
      assert content[i] in content;
    }
  }

  lemma {:induction false} BodyLength(bytes: seq<byte>, usehex: bool)
    ensures |Body(bytes, usehex)| <= 4 * |bytes|
  {
    if bytes != [] {
      BodyLength(bytes[1..], usehex);
    }
  }

  lemma {:induction false} BodySplits(bytes: seq<byte>, n: nat, usehex: bool)
    requires n < |bytes|
    ensures
      Body(bytes[n..], usehex) ==
      Escape(bytes[n], usehex, n + 1 < |bytes| && IsDecimal(bytes[n + 1])) + Body(bytes[n + 1..], usehex)
  {
    assert bytes[n..][1..] == bytes[n + 1..];
  }

  // The check for bytes that make -x quote the whole string in hex.
  method ScanForHex(ustr: array<byte>, size: int, eol: int, ghost content: seq<byte>) returns (usehex: bool)
    requires 0 <= size <= ustr.Length && |content| <= size && ustr[..|content|] == content
    requires forall i :: 0 <= i < |content| ==> content[i] as int != eol
    requires |content| < size ==> ustr[|content|] as int == eol
    ensures usehex == exists i :: 0 <= i < |content| && NeedsHex(content[i])
  {
    usehex := false;
    var i := 0;
    while i < size
      invariant 0 <= i <= |content|
      invariant forall j :: 0 <= j < i ==> !NeedsHex(content[j])
    {
      var c := ustr[i] as int;
      if c == eol {
        break;
      }
      assert i < |content| && ustr[..|content|][i] == content[i];
      // (unsigned)(c - 9) >= 5
      if c > 0x7e || (c < 0x20 && (c - 9) % 0x1_0000_0000 >= 5) {
        assert NeedsHex(content[i]);
        usehex := true;
        break;
      }
      i := i + 1;
    }
  }

  // Backslash and one character.
  method EmitPair(out: array<char>, p0: nat, c: char, ghost s: string, ghost u0: string)
    returns (p: nat, ghost u: string)
    requires out.Length == |s| && p0 == |u0| && p0 + 2 <= out.Length && out[..] == Over(s, 0, u0)
    modifies out
    ensures u == u0 + ['\\', c] && p == |u| <= out.Length && out[..] == Over(s, 0, u)
  {
    hide Over;
    p, u := Emit(out, p0, '\\', s, 0, u0);
    p, u := Emit(out, p, c, s, 0, u);
  }

  method EmitHex(out: array<char>, p0: nat, b: byte, ghost s: string, ghost u0: string)
    returns (p: nat, ghost u: string)
    requires out.Length == |s| && p0 == |u0| && p0 + 4 <= out.Length && out[..] == Over(s, 0, u0)
    modifies out
    ensures u == u0 + HexEscape(b) && p == |u| <= out.Length && out[..] == Over(s, 0, u)
  {
    hide Over;
    p, u := EmitPair(out, p0, 'x', s, u0);
    p, u := Emit(out, p, HEX[b as int / 16], s, 0, u);
    p, u := Emit(out, p, HEX[b as int % 16], s, 0, u);
  }

  method EmitOctal(out: array<char>, p0: nat, b: byte, full: bool, ghost s: string, ghost u0: string)
    returns (p: nat, ghost u: string)
    requires out.Length == |s| && p0 == |u0| && p0 + 4 <= out.Length && out[..] == Over(s, 0, u0)
    modifies out
    ensures u == u0 + OctalEscape(b, full) && p == |u| <= out.Length && out[..] == Over(s, 0, u)
  {
    hide Over;
    hide OctalDigit;
    var c := b as int;
    p, u := Emit(out, p0, '\\', s, 0, u0);
    if full {
      p, u := Emit(out, p, OctalDigit(c / 64), s, 0, u);
      p, u := Emit(out, p, OctalDigit(c / 8 % 8), s, 0, u);
    } else if c / 8 != 0 {
      if c / 64 != 0 {
        p, u := Emit(out, p, OctalDigit(c / 64), s, 0, u);
      }
      p, u := Emit(out, p, OctalDigit(c / 8 % 8), s, 0, u);
    }
    p, u := Emit(out, p, OctalDigit(c % 8), s, 0, u);
  }

  method EmitPlain(out: array<char>, p0: nat, b: byte, digitNext: bool, ghost s: string, ghost u0: string)
    returns (p: nat, ghost u: string)
    requires out.Length == |s| && p0 == |u0| && p0 + 4 <= out.Length && out[..] == Over(s, 0, u0)
    modifies out
    ensures u == u0 + PlainEscape(b, digitNext) && p == |u| <= out.Length && out[..] == Over(s, 0, u)
  {
    hide Over;
    hide OctalEscape;
    match b as int
    case 0x22 => p, u := EmitPair(out, p0, '\"', s, u0);
    case 0x5c => p, u := EmitPair(out, p0, '\\', s, u0);
    case 0x0c => p, u := EmitPair(out, p0, 'f', s, u0);
    case 0x0a => p, u := EmitPair(out, p0, 'n', s, u0);
    case 0x0d => p, u := EmitPair(out, p0, 'r', s, u0);
    case 0x09 => p, u := EmitPair(out, p0, 't', s, u0);
    case 0x0b => p, u := EmitPair(out, p0, 'v', s, u0);
    case c =>
      if 0x20 <= c <= 0x7e {
        p, u := Emit(out, p0, c as char, s, 0, u0);
      } else {
        p, u := EmitOctal(out, p0, b, digitNext, s, u0);
      }
  }

  // The loop over the bytes; returns where it stopped.
  method EmitBody(ustr: array<byte>, out: array<char>, p0: nat, size: int, eol: int, usehex: bool,
                  ghost content: seq<byte>, ghost s: string, ghost u0: string)
    returns (p: nat, ended: bool, i: nat, ghost u: string)
    requires 0 <= size <= ustr.Length && |content| <= size && ustr[..|content|] == content
    requires forall j :: 0 <= j < |content| ==> content[j] as int != eol
    requires |content| < size ==> ustr[|content|] as int == eol && ustr[|content|] == 0
    requires out.Length == |s| && p0 == |u0| && p0 + 4 * |content| <= out.Length && out[..] == Over(s, 0, u0)
    modifies out
    ensures u == u0 + Body(content, usehex) && p == |u| <= p0 + 4 * |content| && out[..] == Over(s, 0, u)
    ensures i == |content| && ended == (|content| < size)
  {
    hide Over;
    hide Escape;
    p, u, i, ended := p0, u0, 0, false;
    assert content[0..] == content;
    while i < size
      invariant 0 <= i <= |content|
      invariant u + Body(content[i..], usehex) == u0 + Body(content, usehex)
      invariant p == |u| <= p0 + 4 * i && out[..] == Over(s, 0, u)
    {
      var c := ustr[i];
      if c as int == eol {
        ended := true;
        break;
      }
      assert i < |content| && ustr[..|content|][i] == content[i];
      var digitNext := i + 1 < size && IsDecimal(ustr[i + 1]);
      assert digitNext == (i + 1 < |content| && IsDecimal(content[i + 1]));
      BodySplits(content, i, usehex);
      p, u := EmitByte(out, p, c, usehex, digitNext, s, u);
      i := i + 1;
    }
    assert content[|content|..] == [];
  }

  method EmitByte(out: array<char>, p0: nat, b: byte, usehex: bool, digitNext: bool, ghost s: string, ghost u0: string)
    returns (p: nat, ghost u: string)
    requires out.Length == |s| && p0 == |u0| && p0 + 4 <= out.Length && out[..] == Over(s, 0, u0)
    modifies out
    ensures u == u0 + Escape(b, usehex, digitNext) && |u0| <= |u| <= |u0| + 4
    ensures p == |u| <= out.Length && out[..] == Over(s, 0, u)
  {
    if usehex {
      p, u := EmitHex(out, p0, b, s, u0);
    } else {
      p, u := EmitPlain(out, p0, b, digitNext, s, u0);
    }
  }

  method StringQuote(instr: array<byte>, outstr: array<char>, len: int, size0: nat, xflag: int) returns (r: int)
    requires size0 <= instr.Length && (len == -1 ==> size0 >= 1)
    requires 3 + 4 * size0 <= outstr.Length
    modifies outstr
    ensures
      var content := Content(instr[..], len, size0);
      var text := Quoted(content, UseHex(content, xflag)) + "\0";
      |text| <= 3 + 4 * size0 && outstr[..] == Over(old(outstr[..]), 0, text)
    ensures r == if len == -1 && 0 in instr[..size0] then 0 else 1
  {
    hide Over;
    hide Body;
    var size, eol := size0 as int, 0x100;
    if len == -1 {
      size := size - 1;
      eol := 0;
    }
    ghost var content := Content(instr[..], len, size0);
    ContentFacts(instr[..], len, size0);
    assert instr[..|content|] == instr[..][..|content|];
    var usehex := false;
    if xflag > 1 {
      usehex := true;
    } else if xflag != 0 {
      usehex := ScanForHex(instr, size, eol, content);
    }
    assert usehex == UseHex(content, xflag);
    ghost var s, u := outstr[..], "";
    OverNothing(s, 0);
    var p;
    BodyLength(content, usehex);
    p, u := Emit(outstr, 0, '\"', s, 0, u);
    var ended, i;
    p, ended, i, u := EmitBody(instr, outstr, p, size, eol, usehex, content, s, u);
    p, u := Emit(outstr, p, '\"', s, 0, u);
    p, u := Emit(outstr, p, '\0', s, 0, u);
    assert u == Quoted(content, usehex) + "\0";
    if ended || (len == -1 && instr[i] == 0) {
      r := 0;
    } else {
      r := 1;
    }
  }

  // What the loops rely on, and what the return value reports.
  lemma ContentFacts(s: seq<byte>, len: int, size0: nat)
    requires size0 <= |s| && (len == -1 ==> size0 >= 1)
    ensures
      var size, eol := if len == -1 then size0 - 1 else size0, if len == -1 then 0 else 0x100;
      var content := Content(s, len, size0);
      && |content| <= size && s[..|content|] == content
      && (forall j :: 0 <= j < |content| ==> content[j] as int != eol)
      && (|content| < size ==> s[|content|] as int == eol && s[|content|] == 0)
      && (len == -1 ==> (0 in s[..size0] <==> s[|content|] == 0))
  {
    if len == -1 {
      var n := NulIndex(s[..size0 - 1]);
      assert forall j :: 0 <= j < n ==> s[j] == s[..size0 - 1][j];
      if n < size0 - 1 {
        assert s[n] == s[..size0 - 1][n] && s[..size0][n] == 0;
      }
      if s[n] == 0 {
        assert s[..size0][n] == 0;
      }
    }
  }
}
