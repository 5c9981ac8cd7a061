// kernel_vsnprintf and strace_vfprintf of strace/vsprintf.c, on conversions
// that format_decode has already split off the format string.
module Vsnprintf {
  import opened Arithmetic
  import opened Buffers
  import opened Digits
  import opened PutDec
  import opened Number

  datatype Pointer = Null | String(chars: string)

  // One conversion with its argument. An invalid conversion prints a percent
  // sign, as %% does.
  datatype Item =
    | Text(s: string)
    | Character(c: char, spec: Spec)
    | Str(p: Pointer, spec: Spec)
    | Address(a: nat, spec: Spec)
    | Percent
    | Integer(num: nat, spec: Spec)
  {
    predicate Valid() {
      match this
      case Address(a, spec) => a < 0x1_0000_0000_0000_0000
      case Integer(num, spec) => spec.Valid() && num < 0x1_0000_0000_0000_0000
      case _ => true
    }
  }

  // ---------- string() ----------

  function Chars(p: Pointer): string {
    if p.Null? then "(null)" else p.chars
  }

  // strnlen(s, precision): a negative precision is a huge size_t.
  function StrnLen(s: string, precision: int): nat {
    if 0 <= precision < |s| then precision else |s|
  }

  function StringText(p: Pointer, spec: Spec): string {
    var t := Chars(p)[..StrnLen(Chars(p), spec.precision)];
    var pad := Repeat(' ', spec.width - |t|);
    if spec.left then t + pad else pad + t
  }

  // while (len < width--) *buf++ = ' ';
  method FillTo(buf: array<char>, p0: nat, len: nat, width0: int, ghost s: string, ghost at: nat, ghost u0: string)
    returns (p: nat, width: int, ghost u: string)
    requires buf.Length == |s| && p0 == at + |u0| <= buf.Length && buf[..] == Over(s, at, u0)
    requires p0 + width0 - len <= buf.Length
    modifies buf
    ensures u == u0 + Repeat(' ', width0 - len) && p == at + |u| <= buf.Length && buf[..] == Over(s, at, u)
    ensures width == (if width0 > len then len else width0) - 1
  {
    hide Over;
    p, width, u := p0, width0, u0;
    while len < width
      invariant width == width0 - (p - p0) && (p == p0 || len <= width)
      invariant p0 <= p <= buf.Length && p == at + |u| && buf[..] == Over(s, at, u)
      invariant u == u0 + Repeat(' ', p - p0)
      decreases width - len
    {
      width := width - 1;
      p, u := Emit(buf, p, ' ', s, at, u);
    }
    width := width - 1;
  }

  // for (i = 0; i < len; ++i) *buf++ = *s++;
  method EmitAll(buf: array<char>, p0: nat, t: string, ghost s: string, ghost at: nat, ghost u0: string)
    returns (p: nat, ghost u: string)
    requires buf.Length == |s| && p0 == at + |u0| && p0 + |t| <= buf.Length && buf[..] == Over(s, at, u0)
    modifies buf
    ensures u == u0 + t && p == at + |u| <= buf.Length && buf[..] == Over(s, at, u)
  {
    hide Over;
    p, u := p0, u0;
    var i := 0;
    while i < |t|
      invariant 0 <= i <= |t| && p == p0 + i && p == at + |u| && buf[..] == Over(s, at, u)
      invariant u == u0 + t[..i]
    {
      p, u := Emit(buf, p, t[i], s, at, u);
      i := i + 1;
    }
  }

  method StringOut(buf: array<char>, at: nat, end: int, ptr: Pointer, spec: Spec) returns (p: int)
    requires end <= buf.Length
    modifies buf
    ensures p == at + |StringText(ptr, spec)|
    ensures end - at <= |StringText(ptr, spec)| ==> buf[..] == old(buf[..])
    ensures end - at > |StringText(ptr, spec)| ==> buf[..] == Over(old(buf[..]), at, StringText(ptr, spec))
  {
    hide Over;
    hide Repeat;
    var str := Chars(ptr);
    var len := StrnLen(str, spec.precision);
    var i := len;
    if i < spec.width {
      i := spec.width;
    }
    assert i == |StringText(ptr, spec)|;
    if end - at <= i {
      return at + i;
    }
    ghost var s, u := buf[..], "";
    OverNothing(s, at);
    p := at;
    var width := spec.width;
    if !spec.left {
      p, width, u := FillTo(buf, p, len, width, s, at, u);
    }
    p, u := EmitAll(buf, p, str[..len], s, at, u);
    p, width, u := FillTo(buf, p, len, width, s, at, u);
    assert u == StringText(ptr, spec);
  }

  // ---------- the text of a conversion ----------

  // pointer(): hexadecimal, and zero padded to the pointer size by default.
  function AddressSpec(spec: Spec): Spec {
    if spec.width == -1 then spec.(width := 16, zeropad := true, base := 16) else spec.(base := 16)
  }

  function CharText(c: char, spec: Spec): string {
    var pad := Repeat(' ', spec.width - 1);
    if spec.left then [c] + pad else pad + [c]
  }

  function ItemText(item: Item): string
    requires item.Valid()
  {
    match item
    case Text(s) => s
    case Character(c, spec) => CharText(c, spec)
    case Str(p, spec) => StringText(p, spec)
    case Address(a, spec) => NumberText(a, AddressSpec(spec))
    case Percent => "%"
    case Integer(num, spec) => NumberText(num, spec)
  }

  // The output of the whole format, in a buffer without end.
  function TextOf(items: seq<Item>): string
    requires forall item :: item in items ==> item.Valid()
  {
    if items == [] then "" else ItemText(items[0]) + TextOf(items[1..])
  }

  // The text of a format in two parts is that of the first and then that of
  // the second.
  lemma {:induction false} TextOfJoins(a: seq<Item>, b: seq<Item>)
    requires (forall item :: item in a ==> item.Valid()) && (forall item :: item in b ==> item.Valid())
    ensures TextOf(a + b) == TextOf(a) + TextOf(b)
  {
    if a == [] {
      assert a + b == b;
    } else {
      assert (a + b)[1..] == a[1..] + b;
      TextOfJoins(a[1..], b);
    }
  }

  // A string, or "(null)", cut at a precision that is not negative; padded with
  // spaces on the right if left-justified and on the left otherwise.
  lemma StringLayout(p: Pointer, spec: Spec)
    ensures
      var chars := if p.Null? then "(null)" else p.chars;
      var n := if 0 <= spec.precision <= |chars| then spec.precision else |chars|;
      var t := ItemText(Str(p, spec));
      && |t| == Max(spec.width, n)
      && if spec.left then StartsWith(t, chars[..n], ' ') else EndsWith(t, chars[..n], ' ')
  {
  }

  lemma CharacterLayout(c: char, spec: Spec)
    ensures
      var t := ItemText(Character(c, spec));
      |t| == Max(spec.width, 1) && if spec.left then StartsWith(t, [c], ' ') else EndsWith(t, [c], ' ')
  {
  }

  // Without a width, a pointer is sixteen hexadecimal digits that read back as it.
  lemma AddressReadsBack(a: nat, spec: Spec)
    requires a < 0x1_0000_0000_0000_0000 && spec.width == -1 && !spec.left && !spec.sign && !spec.special
    ensures |ItemText(Address(a, spec))| == 16 && IsDigits(ItemText(Address(a, spec)), 16)
    ensures ReadNumber(ItemText(Address(a, spec)), 16) == a
  {
    var s := AddressSpec(spec);
    UnsignedReadsBack(a, s);
    NumberLayout(a, s);
    NumeralReads(a, 16);
    ReverseDigits(Numeral(a, 16), 16);
    Pow16Values();
    HexNumeralShort(a, 16);
    hide Numeral;
    hide Reverse;
    hide NumberText;
    var t, digits := NumberText(a, s), Reverse(Numeral(a, 16));
    assert t[0..] == t;
    forall i | 0 <= i < |t| ensures 0 <= DigitValue(t[i]) < 16 {
      if i >= |t| - |digits| {
        assert t[|t| - |digits|..][i - (|t| - |digits|)] == t[i];
      }
    }
  }

  // With one, it is a number in base 16 of that width and these flags.
  lemma AddressIsNumber(a: nat, spec: Spec)
    requires a < 0x1_0000_0000_0000_0000 && spec.width != -1
    ensures ItemText(Address(a, spec)) == ItemText(Integer(a, spec.(base := 16)))
  {
  }

  function Pow16(k: nat): (p: int)
    ensures p > 0
  {
    if k == 0 then 1 else 16 * Pow16(k - 1)
  }

  lemma Pow16Values()
    ensures Pow16(16) == 0x1_0000_0000_0000_0000
  {
    assert Pow16(4) == 0x10000;
    assert Pow16(8) == 0x1_0000_0000;
    assert Pow16(12) == 0x1_0000_0000_0000;
  }

  lemma {:induction false} HexNumeralShort(n: nat, k: nat)
    requires n < Pow16(k) && 1 <= k
    ensures |Numeral(n, 16)| <= k
  {
    if n >= 16 {
      assert k > 1 by { assert Pow16(1) == 16; }
      HexNumeralShort(n / 16, k - 1);
    }
  }

  // Literal text stands for itself, and a percent sign for one.
  lemma LiteralText(s: string)
    ensures TextOf([Text(s), Percent]) == s + "%"
  {
    assert [Text(s), Percent][1..] == [Percent];
    assert [Percent][1..] == [];
    assert "%" + "" == "%";
  }

  // How far str moves: number() overestimates where it finds the room too small.
  function Advance(item: Item, at: int, end: int): int
    requires item.Valid()
  {
    match item
    case Address(a, spec) => NumberAdvance(a, AddressSpec(spec), at, end)
    case Integer(num, spec) => NumberAdvance(num, spec, at, end)
    case _ => at + |ItemText(item)|
  }

  function NumberAdvance(num: nat, spec: Spec, at: int, end: int): int
    requires spec.Valid()
  {
    at + if end - at <= Max(TMP_SIZE, spec.width) then Max(TMP_SIZE, spec.width) else |NumberText(num, spec)|
  }

  // What kernel_vsnprintf returns for a buffer of `end` cells.
  function PassLength(items: seq<Item>, at: int, end: int): int
    requires forall item :: item in items ==> item.Valid()
    decreases items
  {
    if items == [] then at else PassLength(items[1..], Advance(items[0], at, end), end)
  }

  // In an empty buffer a number asks for 28 cells, or for its width.
  lemma EmptyBufferAsks(num: nat, spec: Spec)
    requires spec.Valid() && num < 0x1_0000_0000_0000_0000
    ensures PassLength([Integer(num, spec)], 0, 0) == Max(28, spec.width)
  {
    assert [Integer(num, spec)][1..] == [];
  }

  // ---------- the two passes ----------

  lemma {:induction false} NumeralShort(n: nat, base: int, k: nat)
    requires (base == 8 || base == 16) && n < Pow8(k) && 1 <= k
    ensures |Numeral(n, base)| <= k
  {
    if n >= base {
      ShiftedDigit(n, base, k - 1);
      assert k > 1 by { assert Pow8(1) == 8; }
      NumeralShort(n / base, base, k - 1);
    }
  }

  lemma NumberLength(num: nat, spec: Spec)
    requires spec.Valid() && num < 0x1_0000_0000_0000_0000
    ensures spec.width <= |NumberText(num, spec)| <= Max(TMP_SIZE, spec.width)
  {
    var m := Magnitude(num, spec);
    assert m < 0x1_0000_0000_0000_0000;
    if spec.base == 10 {
      Pow10Values();
      NumeralLength(m, 20);
    } else {
      Pow8Values();
      NumeralShort(m, spec.base, 22);
    }
    NumberTextLength(num, spec);
  }

  // An advance never falls short of the text, nor of a number's field width.
  lemma AdvanceCovers(item: Item, at: int, end: int)
    requires item.Valid()
    ensures Advance(item, at, end) >= at + |ItemText(item)|
    ensures item.Integer? ==> |ItemText(item)| >= item.spec.width
    ensures item.Address? ==> |ItemText(item)| >= AddressSpec(item.spec).width
  {
    match item
    case Address(a, spec) => NumberLength(a, AddressSpec(spec));
    case Integer(num, spec) => NumberLength(num, spec);
    case _ =>
  }

  lemma {:induction false} PassCovers(items: seq<Item>, at: int, end: int)
    requires forall item :: item in items ==> item.Valid()
    ensures PassLength(items, at, end) >= at + |TextOf(items)|
    decreases items
  {
    if items != [] {
      AdvanceCovers(items[0], at, end);
      PassCovers(items[1..], Advance(items[0], at, end), end);
    }
  }

  // With 256 cells more than a first pass asked for, no conversion finds the
  // room too small: the second pass is exact.
  lemma {:induction false} SecondPassExact(items: seq<Item>, at0: int, end0: int, at: int, end: int)
    requires forall item :: item in items ==> item.Valid()
    requires at <= at0 && PassLength(items, at0, end0) + 256 <= end
    ensures PassLength(items, at, end) == at + |TextOf(items)|
    decreases items
  {
    if items != [] {
      var item, rest := items[0], items[1..];
      AdvanceCovers(item, at0, end0);
      PassCovers(rest, Advance(item, at0, end0), end0);
      assert Advance(item, at, end) == at + |ItemText(item)|;
      SecondPassExact(rest, Advance(item, at0, end0), end0, at + |ItemText(item)|, end);
    }
  }

  // A number has the room it is checked for, or is as long as that itself.
  predicate Measured(item: Item, at: int, end: int)
    requires item.Valid()
  {
    match item
    case Address(a, spec) => NumberMeasured(a, AddressSpec(spec), at, end)
    case Integer(num, spec) => NumberMeasured(num, spec, at, end)
    case _ => true
  }

  predicate NumberMeasured(num: nat, spec: Spec, at: int, end: int)
    requires spec.Valid()
  {
    end - at > Max(TMP_SIZE, spec.width) || |NumberText(num, spec)| == Max(TMP_SIZE, spec.width)
  }

  // At its place in the text, every number is measured exactly.
  predicate AllMeasured(items: seq<Item>, at: int, end: int)
    requires forall item :: item in items ==> item.Valid()
    decreases items
  {
    items != [] ==> Measured(items[0], at, end) && AllMeasured(items[1..], at + |ItemText(items[0])|, end)
  }

  // The length a pass reports is that of the text exactly when no number is
  // given more room than it needs.
  lemma {:induction false} LengthExact(items: seq<Item>, at: int, end: int)
    requires forall item :: item in items ==> item.Valid()
    ensures PassLength(items, at, end) == at + |TextOf(items)| <==> AllMeasured(items, at, end)
    decreases items
  {
    if items != [] {
      var item, rest := items[0], items[1..];
      var next := Advance(item, at, end);
      AdvanceCovers(item, at, end);
      PassCovers(rest, next, end);
      assert Measured(item, at, end) <==> next == at + |ItemText(item)|;
      LengthExact(rest, next, end);
    }
  }

  // ---------- kernel_vsnprintf ----------

  // if (str < end) *str = c; ++str;
  method PutGuarded(buf: array<char>, p: nat, c: char, ghost s: string, ghost at: nat, ghost u: string)
    returns (p': nat, ghost u': string)
    requires buf.Length == |s| && p == at + |u| && (p <= buf.Length ==> buf[..] == Over(s, at, u))
    modifies buf
    ensures u' == u + [c] && p' == at + |u'| == p + 1
    ensures p' <= buf.Length ==> buf[..] == Over(s, at, u')
  {
    hide Over;
    u' := u + [c];
    if p < buf.Length {
      p', u' := Emit(buf, p, c, s, at, u);
    }
    p' := p + 1;
  }

  // while (--width > 0) put a space.
  method SpacesGuarded(buf: array<char>, p0: nat, width0: int, ghost s: string, ghost at: nat, ghost u0: string)
    returns (p: nat, width: int, ghost u: string)
    requires buf.Length == |s| && p0 == at + |u0| && (p0 <= buf.Length ==> buf[..] == Over(s, at, u0))
    modifies buf
    ensures u == u0 + Repeat(' ', width0 - 1) && p == at + |u| && (p <= buf.Length ==> buf[..] == Over(s, at, u))
    ensures width == if width0 > 0 then 0 else width0 - 1
  {
    hide Over;
    p, width, u := p0, width0 - 1, u0;
    while width > 0
      invariant width == width0 - 1 - (p - p0) && (p == p0 || width >= 0)
      invariant p0 <= p && p == at + |u| && (p <= buf.Length ==> buf[..] == Over(s, at, u))
      invariant u == u0 + Repeat(' ', p - p0)
    {
      p, u := PutGuarded(buf, p, ' ', s, at, u);
      width := width - 1;
    }
  }

  method CharOut(buf: array<char>, at: nat, c: char, spec: Spec) returns (p: nat)
    modifies buf
    ensures p == at + |CharText(c, spec)|
    ensures p <= buf.Length ==> buf[..] == Over(old(buf[..]), at, CharText(c, spec))
  {
    hide Over;
    ghost var s, u := buf[..], "";
    if at <= buf.Length { OverNothing(s, at); }
    p := at;
    var width := spec.width;
    if !spec.left {
      p, width, u := SpacesGuarded(buf, p, width, s, at, u);
    }
    p, u := PutGuarded(buf, p, c, s, at, u);
    p, width, u := SpacesGuarded(buf, p, width, s, at, u);
    assert u == CharText(c, spec);
  }

  // memcpy of as much of a literal part as fits.
  method TextOut(buf: array<char>, at: nat, t: string) returns (p: nat)
    modifies buf
    ensures p == at + |t|
    ensures p <= buf.Length ==> buf[..] == Over(old(buf[..]), at, t)
  {
    hide Over;
    if at <= buf.Length { OverNothing(buf[..], at); }
    if at < buf.Length {
      var copy := |t|;
      if copy > buf.Length - at {
        copy := buf.Length - at;
      }
      ghost var q, u := EmitAll(buf, at, t[..copy], buf[..], at, "");
      assert u == t[..copy];
    }
    p := at + |t|;
    assert p <= buf.Length ==> t[..|t|] == t && (at == buf.Length ==> t == "");
  }

  // One turn of the loop. While str stays within the buffer, the item's text
  // has been written whole.
  method PutItem(buf: array<char>, at: nat, item: Item) returns (p: int)
    requires item.Valid()
    modifies buf
    ensures p == Advance(item, at, buf.Length)
    ensures p >= at + |ItemText(item)|
    ensures p < buf.Length ==> p == at + |ItemText(item)| && buf[..] == Over(old(buf[..]), at, ItemText(item))
  {
    hide Over;
    hide NumberText;
    hide StringText;
    hide CharText;
    AdvanceCovers(item, at, buf.Length);
    match item
    case Text(s) =>
      p := TextOut(buf, at, s);
    case Character(c, spec) =>
      p := CharOut(buf, at, c, spec);
    case Str(ptr, spec) =>
      p := StringOut(buf, at, buf.Length, ptr, spec);
    case Address(a, spec) =>
      p := Number.Number(buf, at, buf.Length, a, AddressSpec(spec));
    case Percent =>
      ghost var s := buf[..];
      if at <= buf.Length { OverNothing(s, at); }
      ghost var u;
      p, u := PutGuarded(buf, at, '%', s, at, "");
      assert u == "%";
    case Integer(num, spec) =>
      p := Number.Number(buf, at, buf.Length, num, spec);
  }

  method Vsnprintf(buf: array<char>, items: seq<Item>) returns (len: nat)
    requires forall item :: item in items ==> item.Valid()
    modifies buf
    ensures len == PassLength(items, 0, buf.Length)
    ensures len < buf.Length ==> len == |TextOf(items)| && buf[..len] == TextOf(items) && buf[len] == '\0'
  {
    hide Advance;
    hide ItemText;
    var str, i := 0, 0;
    while i < |items|
      invariant 0 <= i <= |items| && 0 <= str
      invariant PassLength(items[i..], str, buf.Length) == PassLength(items, 0, buf.Length)
      invariant str < buf.Length ==> buf[..str] + TextOf(items[i..]) == TextOf(items)
    {
      ghost var was := buf[..];
      var p := PutItem(buf, str, items[i]);
      assert items[i..][1..] == items[i + 1..];
      if p < buf.Length {
        OverStart(was, str, ItemText(items[i]));
        assert buf[..p] + TextOf(items[i + 1..]) == was[..str] + (ItemText(items[i]) + TextOf(items[i + 1..]));
      }
      str := p;
      i := i + 1;
    }
    assert items[i..] == [];
    if str < buf.Length {
      assert buf[..str] + "" == buf[..str];
      buf[str] := '\0';
    }
    len := str;
  }

  // ---------- strace_vfprintf ----------

  // A C string ends at its first NUL.
  function UpToNul(t: string): string {
    if t == "" || t[0] == '\0' then "" else [t[0]] + UpToNul(t[1..])
  }

  // The longest part from the start that holds no NUL.
  lemma {:induction false} UpToNulExact(t: string)
    ensures UpToNul(t) <= t && '\0' !in UpToNul(t)
    ensures |UpToNul(t)| < |t| ==> t[|UpToNul(t)|] == '\0'
    ensures '\0' !in t ==> UpToNul(t) == t
  {
    if t != "" && t[0] != '\0' {
      UpToNulExact(t[1..]);
      assert t == [t[0]] + t[1..];
    }
  }

  lemma {:induction false} UpToNulStops(t: string, rest: string)
    ensures UpToNul(t + "\0" + rest) == UpToNul(t)
  {
    if t != "" && t[0] != '\0' {
      assert (t + "\0" + rest)[1..] == t[1..] + "\0" + rest;
      UpToNulStops(t[1..], rest);
    }
  }

  // The function's static buffer and the stream it prints to.
  class Printer {
    var buf: array<char>
    var buflen: nat
    var out: string

    ghost predicate Valid()
      reads this
    {
      buf.Length == buflen
    }

    constructor ()
      ensures Valid() && fresh(buf) && out == ""
    {
      buf, buflen, out := new char[0], 0, "";
    }

    // fputs_unlocked: reads the buffer up to the NUL that ends it.
    method Fputs(ghost nul: nat)
      requires Valid() && nul < buflen && buf[nul] == '\0'
      modifies this`out
      ensures out == old(out) + UpToNul(buf[..nul])
    {
      UpToNulStops(buf[..nul], buf[nul + 1..]);
      assert buf[..] == buf[..nul] + "\0" + buf[nul + 1..];
      var i := 0;
      while buf[i] != '\0'
        invariant 0 <= i <= nul
        invariant out + UpToNul(buf[i..]) == old(out) + UpToNul(buf[..])
        decreases nul - i
      {
        assert buf[i..][1..] == buf[i + 1..];
        out := out + [buf[i]];
        i := i + 1;
      }
      assert UpToNul(buf[i..]) == "";
    }

    // Whatever the buffer's size has become, the whole text is printed.
    method Vfprintf(items: seq<Item>) returns (len: nat)
      requires Valid() && forall item :: item in items ==> item.Valid()
      modifies this, buf
      ensures Valid() && (buf == old(buf) || fresh(buf)) && buflen >= old(buflen)
      ensures out == old(out) + UpToNul(TextOf(items))
      ensures '\0' !in TextOf(items) ==> out == old(out) + TextOf(items)
      ensures buflen == if len < old(buflen) then old(buflen) else len + 256
      ensures len == PassLength(items, 0, old(buflen)) >= |TextOf(items)|
    {
      hide UpToNul;
      hide PassLength;
      hide TextOf;
      PassCovers(items, 0, buf.Length);
      UpToNulExact(TextOf(items));
      len := Vsnprintf(buf, items);
      ghost var n := len;
      if len >= buflen {
        SecondPassExact(items, 0, buf.Length, 0, len + 256);
        buflen := len + 256;
        buf := new char[buflen];
        n := Vsnprintf(buf, items);
      }
      Fputs(n);
    }
  }
}
