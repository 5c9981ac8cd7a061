// Maximum and minimum, and the few facts about products and quotients that the
// solver is not left to find.
module Arithmetic {

  function Max(x: int, y: int): int {
    if x > y then x else y
  }

  function Min(x: int, y: int): int {
    if x < y then x else y
  }

  lemma MulUpper(a: int, b: int, c: int)
    requires 0 <= a < b && 0 <= c
    ensures a * c + c <= b * c
  {
    assert (a + 1) * c <= b * c;
  }

  // Quotient and remainder are unique.
  lemma QuotientUnique(a: int, b: int, r: int, s: int, d: int)
    requires 0 <= r < d && 0 <= s < d
    requires r + d * a == s + d * b
    ensures a == b && r == s
  {
    if a != b {
      var lo, hi := if a < b then a else b, if a < b then b else a;
      assert d * hi - d * lo == d * (hi - lo);
      MulUpper(0, hi - lo, d);
      assert false;
    }
  }

  lemma RemainderUnique(a: int, w: int, k: int, r: int)
    requires w > 0 && a == w * k + r && 0 <= r < w
    ensures a % w == r
  {
    QuotientUnique(a / w, k, a % w, r, w);
  }
}
