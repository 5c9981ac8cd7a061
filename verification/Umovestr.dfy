// The word-by-word fallback of umovestr in strace/util.c, with 8-byte longs.
module Umovestr {
  import opened Arithmetic

  // Byte i of a word as it lies in memory.
  function ByteOf(w: bv64, i: int): bv64
    requires 0 <= i < 8
  {
    if i == 0 then w & 0xff
    else if i == 1 then (w >> 8) & 0xff
    else if i == 2 then (w >> 16) & 0xff
    else if i == 3 then (w >> 24) & 0xff
    else if i == 4 then (w >> 32) & 0xff
    else if i == 5 then (w >> 40) & 0xff
    else if i == 6 then (w >> 48) & 0xff
    else (w >> 56) & 0xff
  }

  // The bytes are below 256 and, put in their places, make up the word: byte 0
  // is the lowest, as on a little-endian machine.
  lemma BytesMakeWord(w: bv64)
    ensures
      ByteOf(w, 0) | (ByteOf(w, 1) << 8) | (ByteOf(w, 2) << 16) | (ByteOf(w, 3) << 24)
      | (ByteOf(w, 4) << 32) | (ByteOf(w, 5) << 40) | (ByteOf(w, 6) << 48) | (ByteOf(w, 7) << 56) == w
    ensures ByteOf(w, 0) < 256 && ByteOf(w, 1) < 256 && ByteOf(w, 2) < 256 && ByteOf(w, 3) < 256
    ensures ByteOf(w, 4) < 256 && ByteOf(w, 5) < 256 && ByteOf(w, 6) < 256 && ByteOf(w, 7) < 256
  {
  }

  // And so byte i of a word made of eight bytes is the i-th of them.
  lemma WordMadeOf(b0: bv64, b1: bv64, b2: bv64, b3: bv64, b4: bv64, b5: bv64, b6: bv64, b7: bv64)
    requires b0 < 256 && b1 < 256 && b2 < 256 && b3 < 256 && b4 < 256 && b5 < 256 && b6 < 256 && b7 < 256
    ensures
      var w := b0 | (b1 << 8) | (b2 << 16) | (b3 << 24) | (b4 << 32) | (b5 << 40) | (b6 << 48) | (b7 << 56);
      && ByteOf(w, 0) == b0 && ByteOf(w, 1) == b1 && ByteOf(w, 2) == b2 && ByteOf(w, 3) == b3
      && ByteOf(w, 4) == b4 && ByteOf(w, 5) == b5 && ByteOf(w, 6) == b6 && ByteOf(w, 7) == b7
  {
  }

  // The test for a NUL anywhere in a word.
  predicate HasNulBits(w: bv64) {
    (w - 0x0101010101010101) & !w & 0x8080808080808080 != 0
  }

  lemma NulBitsFound(w: bv64)
    ensures HasNulBits(w) <==>
            || w & 0xff == 0 || w & 0xff00 == 0 || w & 0xff0000 == 0 || w & 0xff000000 == 0
            || w & 0xff00000000 == 0 || w & 0xff0000000000 == 0 || w & 0xff000000000000 == 0
            || w & 0xff00000000000000 == 0
  {
  }

  lemma LowZeroBytes(w: bv64)
    ensures ByteOf(w, 0) == 0 <==> w & 0xff == 0
    ensures ByteOf(w, 1) == 0 <==> w & 0xff00 == 0
    ensures ByteOf(w, 2) == 0 <==> w & 0xff0000 == 0
    ensures ByteOf(w, 3) == 0 <==> w & 0xff000000 == 0
  {
  }

  lemma HighZeroBytes(w: bv64)
    ensures ByteOf(w, 4) == 0 <==> w & 0xff00000000 == 0
    ensures ByteOf(w, 5) == 0 <==> w & 0xff0000000000 == 0
    ensures ByteOf(w, 6) == 0 <==> w & 0xff000000000000 == 0
    ensures ByteOf(w, 7) == 0 <==> w & 0xff00000000000000 == 0
  {
  }

  predicate HasNulByte(w: bv64) {
    exists i :: 0 <= i < 8 && ByteOf(w, i) == 0
  }

  // The test is exact: it flags a word if and only if one of its bytes is NUL.
  lemma NulBits(w: bv64)
    ensures HasNulBits(w) <==> HasNulByte(w)
  {
    hide ByteOf;
    hide HasNulBits;
    NulBitsFound(w);
    LowZeroBytes(w);
    HighZeroBytes(w);
    if HasNulByte(w) {
      var i :| 0 <= i < 8 && ByteOf(w, i) == 0;
      assert i == 0 || i == 1 || i == 2 || i == 3 || i == 4 || i == 5 || i == 6 || i == 7;
    }
  }

  datatype Option<T> = None | Some(value: T)

  // What PTRACE_PEEKDATA yields at each word address: a word or an error.
  type Memory = int -> Option<bv64>

  function WordAddress(a: int): int { a - a % 8 }

  // The byte at address a; meant for addresses whose word can be read.
  function At(mem: Memory, a: int): bv64 {
    match mem(WordAddress(a))
    case Some(w) => ByteOf(w, a % 8)
    case None => 1
  }

  predicate Readable(mem: Memory, a: int) {
    mem(WordAddress(a)).Some?
  }

  // The end of the last word that is looked at: tails of words count.
  function LookedAtEnd(addr: int, len: nat): int {
    addr + len + (8 - (addr + len) % 8) % 8
  }

  predicate NulIn(mem: Memory, from: int, to: int) {
    exists a :: from <= a < to && At(mem, a) == 0
  }

  predicate Clean(mem: Memory, from: int, to: int) {
    forall a :: from <= a < to ==> Readable(mem, a) && At(mem, a) != 0
  }

  // The word of a is the first to be special, and a is a NUL, or unreadable.
  predicate FirstNul(mem: Memory, from: int, a: int) {
    Readable(mem, a) && At(mem, a) == 0 && Clean(mem, from, WordAddress(a))
  }

  predicate FirstHole(mem: Memory, from: int, a: int) {
    !Readable(mem, a) && Clean(mem, from, WordAddress(a))
  }

  // The answer for the bytes from..to: -1 for a word that cannot be read, 1 for
  // a word with a NUL, whichever comes first, and 0 if there is neither.
  ghost predicate Verdict(mem: Memory, from: int, to: int, r: int) {
    || (r == 0 && Clean(mem, from, to))
    || (r == 1 && exists a :: from <= a < to && FirstNul(mem, from, a))
    || (r == -1 && exists a :: from <= a < to && FirstHole(mem, from, a))
  }

  // There is only one answer.
  lemma VerdictUnique(mem: Memory, from: int, to: int, r: int, r': int)
    requires Verdict(mem, from, to, r) && Verdict(mem, from, to, r')
    ensures r == r'
  {
    if (r == 1 && r' == -1) || (r == -1 && r' == 1) {
      var a :| from <= a < to && FirstNul(mem, from, a);
      var b :| from <= b < to && FirstHole(mem, from, b);
      OneSpecialWord(mem, from, a, b);
    }
  }

  lemma OneSpecialWord(mem: Memory, from: int, a: int, b: int)
    requires from <= a && from <= b && FirstNul(mem, from, a)
    ensures !FirstHole(mem, from, b)
  {
    hide At;
    if WordAddress(b) <= a && WordAddress(a) <= b {
      WordsMeet(a, b);
    }
  }

  lemma WordsMeet(a: int, b: int)
    requires WordAddress(b) <= a && WordAddress(a) <= b
    ensures WordAddress(a) == WordAddress(b)
  {
  }

  lemma WordAbove(a: int, w: int)
    requires w <= a && w % 8 == 0
    ensures w <= WordAddress(a) <= a
  {
  }

  lemma SameWord(a: int, w: int)
    requires w % 8 == 0 && w <= a < w + 8
    ensures WordAddress(a) == w && a % 8 == a - w
  {
  }

  // On readable memory the answer is whether there is a NUL.
  lemma VerdictReadable(mem: Memory, from: int, to: int, r: int)
    requires Verdict(mem, from, to, r) && forall a :: from <= a < to ==> Readable(mem, a)
    ensures r == if NulIn(mem, from, to) then 1 else 0
  {
  }

  // The bytes up to and including the first NUL, or all there are, were copied.
  ghost predicate Copied(mem: Memory, addr: int, len: nat, out: seq<bv64>)
    requires len <= |out|
  {
    forall j :: 0 <= j < len && !NulIn(mem, addr, addr + j) ==> out[j] == At(mem, addr + j)
  }

  // So the string is there with the NUL that ends it, if that is among the len
  // bytes, and otherwise all of them are.
  lemma CopiedString(mem: Memory, addr: int, len: nat, out: seq<bv64>, n: nat)
    requires len <= |out| && Copied(mem, addr, len, out) && n <= len
    requires forall a :: addr <= a < addr + n ==> At(mem, a) != 0
    ensures forall j :: 0 <= j < n ==> out[j] == At(mem, addr + j)
    ensures n < len ==> out[n] == At(mem, addr + n)
  {
    hide At;
  }

  // memcpy of m bytes of a word, from its byte n on, to out[at..].
  method CopyBytes(w: bv64, n: nat, out: array<bv64>, at: nat, m: nat)
    requires n + m <= 8 && at + m <= out.Length
    modifies out
    ensures forall j :: 0 <= j < out.Length ==>
              out[j] == if at <= j < at + m then ByteOf(w, n + j - at) else old(out[j])
  {
    hide ByteOf;
    var i := 0;
    while i < m
      invariant 0 <= i <= m
      invariant forall j :: 0 <= j < out.Length ==>
                  out[j] == if at <= j < at + i then ByteOf(w, n + j - at) else old(out[j])
    {
      out[at + i] := ByteOf(w, n + i);
      i := i + 1;
    }
  }

  lemma WordAt(mem: Memory, addr: int)
    requires addr % 8 == 0
    ensures forall a {:trigger WordAddress(a)} :: addr <= a < addr + 8 ==> WordAddress(a) == addr
    ensures forall a {:trigger Readable(mem, a)} :: addr <= a < addr + 8 ==> (Readable(mem, a) <==> mem(addr).Some?)
    ensures mem(addr).Some? ==>
              forall a {:trigger At(mem, a)} :: addr <= a < addr + 8 ==> At(mem, a) == ByteOf(mem(addr).value, a - addr)
  {
    hide ByteOf;
    forall a | addr <= a < addr + 8 ensures WordAddress(a) == addr && a % 8 == a - addr {
      SameWord(a, addr);
    }
  }

  // The same in terms of the memory the word was fetched from.
  method CopyPart(mem: Memory, addr: int, w: bv64, n: nat, out: array<bv64>, at: nat, m: nat)
    requires addr % 8 == 0 && mem(addr) == Some(w) && n + m <= 8 && at + m <= out.Length
    modifies out
    ensures forall j :: 0 <= j < out.Length ==>
              out[j] == if at <= j < at + m then At(mem, addr + n + (j - at)) else old(out[j])
  {
    WordAt(mem, addr);
    hide ByteOf;
    hide At;
    hide WordAddress;
    CopyBytes(w, n, out, at, m);
    forall j | at <= j < at + m ensures out[j] == At(mem, addr + n + (j - at)) {
      assert out[j] == ByteOf(w, n + j - at);
    }
  }

  // What comes before is clean.
  lemma VerdictExtends(mem: Memory, from: int, mid: int, to: int, r: int)
    requires from <= mid <= to && mid % 8 == 0 && Clean(mem, from, mid) && Verdict(mem, mid, to, r)
    ensures Verdict(mem, from, to, r)
  {
    hide At;
    hide Readable;
    hide WordAddress;
    if r == 1 {
      var a :| mid <= a < to && FirstNul(mem, mid, a);
      WordAbove(a, mid);
      assert FirstNul(mem, from, a);
    } else if r == -1 {
      var a :| mid <= a < to && FirstHole(mem, mid, a);
      WordAbove(a, mid);
      assert FirstHole(mem, from, a);
    }
  }

  // One word decides, or is clean.
  lemma WordVerdict(mem: Memory, addr: int, from: int, to: int)
    requires addr % 8 == 0 && addr <= from < addr + 8 <= to
    ensures mem(addr).None? ==> Verdict(mem, from, to, -1)
    ensures mem(addr).Some? && NulIn(mem, from, addr + 8) ==> Verdict(mem, from, to, 1)
    ensures mem(addr).Some? && !NulIn(mem, from, addr + 8) ==> Clean(mem, from, addr + 8)
  {
    WordAt(mem, addr);
    hide ByteOf;
    hide At;
    hide Readable;
    hide WordAddress;
    if mem(addr).None? {
      assert FirstHole(mem, from, from);
    } else if NulIn(mem, from, addr + 8) {
      var a :| from <= a < addr + 8 && At(mem, a) == 0;
      assert FirstNul(mem, from, a);
    }
  }

  // The loop over whole words.
  method CopyWords(mem: Memory, addr0: int, len0: nat, laddr: array<bv64>, to0: nat) returns (r: int)
    requires addr0 % 8 == 0 && to0 + len0 <= laddr.Length
    modifies laddr
    ensures Verdict(mem, addr0, LookedAtEnd(addr0, len0), r)
    ensures forall j :: 0 <= j < to0 || to0 + len0 <= j < laddr.Length ==> laddr[j] == old(laddr[j])
    ensures r >= 0 ==> Copied(mem, addr0, len0, laddr[to0..])
  {
    hide ByteOf;
    hide HasNulBits;
    hide Verdict;
    hide At;
    hide Readable;
    hide WordAddress;
    hide LookedAtEnd;
    hide Copied;
    hide NulIn;
    EndOfNothing(addr0, len0);
    var addr, len, to := addr0, len0, to0;
    while len != 0
      invariant 0 <= len && addr % 8 == 0 && to + len == to0 + len0 && to0 <= to
      invariant addr0 <= addr && if len == 0 then addr == LookedAtEnd(addr0, len0) else addr - addr0 == to - to0
      invariant Clean(mem, addr0, addr)
      invariant forall j :: to0 <= j < to ==> laddr[j] == At(mem, addr0 + (j - to0))
      invariant forall j :: 0 <= j < to0 || to0 + len0 <= j < laddr.Length ==> laddr[j] == old(laddr[j])
    {
      EndAhead(addr0, len0, addr);
      WordVerdict(mem, addr, addr, LookedAtEnd(addr0, len0));
      match mem(addr)
      case None =>
        VerdictExtends(mem, addr0, addr, LookedAtEnd(addr0, len0), -1);
        return -1;
      case Some(w) =>
        var m := Min(8, len);
        CopyPart(mem, addr, w, 0, laddr, to, m);
        NulBits(w);
        WordHasNul(mem, addr, w);
        if HasNulBits(w) {
          VerdictExtends(mem, addr0, addr, LookedAtEnd(addr0, len0), 1);
          CopiedToNul(mem, addr0, len0, laddr[to0..], addr + m - addr0, addr);
          return 1;
        }
        addr := addr + 8;
        to := to + m;
        len := len - m;
    }
    VerdictClean(mem, addr0, addr);
    CopiedAll(mem, addr0, len0, laddr[to0..]);
    r := 0;
  }

  lemma EndAhead(addr0: int, len0: nat, addr: int)
    requires addr0 % 8 == 0 && addr % 8 == 0 && addr0 <= addr < addr0 + len0
    ensures addr + 8 <= LookedAtEnd(addr0, len0)
    ensures addr0 + len0 - addr <= 8 ==> addr + 8 == LookedAtEnd(addr0, len0)
  {
  }

  lemma VerdictClean(mem: Memory, from: int, to: int)
    requires Clean(mem, from, to)
    ensures Verdict(mem, from, to, 0)
  {
  }

  lemma WordHasNul(mem: Memory, addr: int, w: bv64)
    requires addr % 8 == 0 && mem(addr) == Some(w)
    ensures NulIn(mem, addr, addr + 8) <==> HasNulByte(w)
  {
    WordAt(mem, addr);
    hide ByteOf;
    hide At;
    if NulIn(mem, addr, addr + 8) {
      var a :| addr <= a < addr + 8 && At(mem, a) == 0;
      assert ByteOf(w, a - addr) == 0;
    }
    if HasNulByte(w) {
      var i :| 0 <= i < 8 && ByteOf(w, i) == 0;
      assert At(mem, addr + i) == 0;
    }
  }

  lemma EndOfNothing(addr0: int, len0: nat)
    ensures len0 == 0 && addr0 % 8 == 0 ==> LookedAtEnd(addr0, len0) == addr0
  {
  }

  lemma CopiedAll(mem: Memory, addr: int, len: nat, out: seq<bv64>)
    requires len <= |out| && forall j :: 0 <= j < len ==> out[j] == At(mem, addr + j)
    ensures Copied(mem, addr, len, out)
  {
  }

  // n bytes copied, and a NUL before the rest.
  lemma CopiedToNul(mem: Memory, addr: int, len: nat, out: seq<bv64>, n: nat, word: int)
    requires n <= len <= |out| && addr <= word && word % 8 == 0
    requires forall j :: 0 <= j < n ==> out[j] == At(mem, addr + j)
    requires NulIn(mem, word, word + 8) && (n < len ==> word + 8 <= addr + n)
    ensures Copied(mem, addr, len, out)
  {
  }

  lemma NulInNothing(mem: Memory, a: int)
    ensures !NulIn(mem, a, a)
  {
  }

  lemma NulInStep(mem: Memory, from: int, a: int, to: int)
    requires from <= a < to
    ensures NulIn(mem, from, a + 1) <==> NulIn(mem, from, a) || At(mem, a) == 0
    ensures At(mem, a) == 0 ==> NulIn(mem, from, to)
  {
    hide At;
  }

  // The bytes of a word from n0 on, one at a time.
  method ScanHead(mem: Memory, addr: int, w: bv64, n0: int) returns (seen: bool)
    requires addr % 8 == 0 && mem(addr) == Some(w) && 0 < n0 < 8
    ensures seen <==> NulIn(mem, addr + n0, addr + 8)
  {
    WordAt(mem, addr);
    hide ByteOf;
    hide At;
    hide NulIn;
    NulInNothing(mem, addr + n0);
    seen := false;
    var n := n0;
    while n % 8 != 0
      invariant n0 <= n <= 8
      invariant !NulIn(mem, addr + n0, addr + n)
      decreases 8 - n
    {
      assert At(mem, addr + n) == ByteOf(w, n);
      NulInStep(mem, addr + n0, addr + n, addr + 8);
      if ByteOf(w, n) == 0 {
        return true;
      }
      n := n + 1;
    }
  }

  // The bytes of the first, partial word. All of them are tested, also the ones
  // beyond len.
  method CopyHead(mem: Memory, addr0: int, w: bv64, len0: nat, laddr: array<bv64>) returns (seen: bool, m: nat)
    requires addr0 % 8 != 0 && len0 <= laddr.Length && mem(WordAddress(addr0)) == Some(w)
    modifies laddr
    ensures m == Min(8 - addr0 % 8, len0)
    ensures seen <==> NulIn(mem, addr0, WordAddress(addr0) + 8)
    ensures forall j :: len0 <= j < laddr.Length ==> laddr[j] == old(laddr[j])
    ensures forall j :: 0 <= j < m ==> laddr[j] == At(mem, addr0 + j)
  {
    var n, addr := addr0 % 8, WordAddress(addr0);
    assert addr % 8 == 0 && addr + n == addr0;
    WordAt(mem, addr);
    hide ByteOf;
    hide At;
    hide WordAddress;
    hide NulIn;
    m := Min(8 - n, len0);
    CopyPart(mem, addr, w, n, laddr, 0, m);
    seen := ScanHead(mem, addr, w, n);
  }

  lemma SameEnd(addr0: int, len0: nat, m: nat)
    requires addr0 % 8 != 0 && m == Min(8 - addr0 % 8, len0)
    ensures LookedAtEnd(WordAddress(addr0) + 8, len0 - m) == LookedAtEnd(addr0, len0) >= WordAddress(addr0) + 8
    ensures WordAddress(addr0) % 8 == 0 && WordAddress(addr0) <= addr0 < WordAddress(addr0) + 8
    ensures m < len0 ==> addr0 + m == WordAddress(addr0) + 8
  {
  }

  lemma CopiedTail(mem: Memory, addr: int, len: nat, out: seq<bv64>, m: nat)
    requires m <= len <= |out| && Copied(mem, addr + m, len - m, out[m..])
    requires forall j :: 0 <= j < m ==> out[j] == At(mem, addr + j)
    ensures Copied(mem, addr, len, out)
  {
    hide At;
    forall j | 0 <= j < len && !NulIn(mem, addr, addr + j) ensures out[j] == At(mem, addr + j) {
      if m <= j {
        assert !NulIn(mem, addr + m, addr + m + (j - m));
        assert out[j] == out[m..][j - m];
      }
    }
  }

  // Negative on an error, positive if a NUL was seen, else zero. What is looked
  // at are whole words, up to the end of the last one; what is copied stays
  // within the len bytes.
  method Umovestr(mem: Memory, addr0: int, len0: nat, laddr: array<bv64>) returns (r: int)
    requires len0 <= laddr.Length
    modifies laddr
    ensures Verdict(mem, addr0, LookedAtEnd(addr0, len0), r)
    ensures laddr[len0..] == old(laddr[len0..])
    ensures r >= 0 ==> Copied(mem, addr0, len0, laddr[..])
  {
    hide At;
    hide WordAddress;
    hide LookedAtEnd;
    hide Verdict;
    hide Copied;
    hide NulIn;
    if addr0 % 8 != 0 {
      var addr := WordAddress(addr0);
      ghost var end := LookedAtEnd(addr0, len0);
      SameEnd(addr0, len0, Min(8 - addr0 % 8, len0));
      WordVerdict(mem, addr, addr0, end);
      match mem(addr)
      case None => return -1;
      case Some(w) =>
        var seen, m := CopyHead(mem, addr0, w, len0, laddr);
        if seen {
          HeadCopied(mem, addr0, len0, laddr[..], m);
          return 1;
        }
        ghost var first := laddr[..m];
        r := CopyWords(mem, addr + 8, len0 - m, laddr, m);
        VerdictExtends(mem, addr0, addr + 8, end, r);
        if r >= 0 {
          assert forall j :: 0 <= j < m ==> laddr[..][j] == laddr[j] == first[j];
          HeadAndTail(mem, addr0, len0, laddr[..], m);
        }
    } else {
      r := CopyWords(mem, addr0, len0, laddr, 0);
      assert laddr[0..] == laddr[..];
    }
  }

  lemma HeadCopied(mem: Memory, addr: int, len: nat, out: seq<bv64>, m: nat)
    requires addr % 8 != 0 && m == Min(8 - addr % 8, len) && len <= |out|
    requires NulIn(mem, addr, WordAddress(addr) + 8) && forall j :: 0 <= j < m ==> out[j] == At(mem, addr + j)
    ensures Copied(mem, addr, len, out)
  {
    SameEnd(addr, len, m);
    hide At;
    hide WordAddress;
  }

  lemma HeadAndTail(mem: Memory, addr: int, len: nat, out: seq<bv64>, m: nat)
    requires addr % 8 != 0 && m == Min(8 - addr % 8, len) && len <= |out|
    requires forall j :: 0 <= j < m ==> out[j] == At(mem, addr + j)
    requires Copied(mem, WordAddress(addr) + 8, len - m, out[m..])
    ensures Copied(mem, addr, len, out)
  {
    SameEnd(addr, len, m);
    hide At;
    hide WordAddress;
    if m < len {
      CopiedTail(mem, addr, len, out, m);
    }
  }

  // On readable memory, the answer is right for the len bytes exactly when the
  // rest of the last word holds no NUL or the bytes themselves do.
  lemma AnswerExact(mem: Memory, addr: int, len: nat, r: int)
    requires Verdict(mem, addr, LookedAtEnd(addr, len), r)
    requires forall a :: addr <= a < LookedAtEnd(addr, len) ==> Readable(mem, a)
    ensures
      (r == if NulIn(mem, addr, addr + len) then 1 else 0)
      <==> (NulIn(mem, addr, addr + len) || !NulIn(mem, addr + len, LookedAtEnd(addr, len)))
    ensures (addr + len) % 8 == 0 ==> r == if NulIn(mem, addr, addr + len) then 1 else 0
    ensures r == 0 ==> !NulIn(mem, addr, addr + len)
  {
    VerdictReadable(mem, addr, LookedAtEnd(addr, len), r);
    hide At;
    hide Readable;
    assert addr + len <= LookedAtEnd(addr, len);
  }

  // Four bytes without a NUL, reported as if there were one: it is in the
  // other half of the word.
  lemma OvershootExample(mem: Memory)
    requires mem(0) == Some(0x41414141)
    ensures !NulIn(mem, 0, 4) && Verdict(mem, 0, LookedAtEnd(0, 4), 1)
  {
    WordAt(mem, 0);
    WordVerdict(mem, 0, 0, 8);
    assert At(mem, 4) == ByteOf(0x41414141, 4) == 0;
    forall a | 0 <= a < 4 ensures At(mem, a) == 0x41 {
      assert At(mem, a) == ByteOf(0x41414141, a);
    }
  }
}
