/** Facts about real products and quotients that the bounds on averages
    rest on, each stated on plain variables. */
module Reals {

  lemma MulMono(a: real, b: real, c: real)
    requires a <= b && c > 0.0
    ensures a * c <= b * c
  {
  }

  lemma CancelLe(a: real, b: real, c: real)
    requires c > 0.0 && a * c <= b * c
    ensures a <= b
  {
  }

  /** A sum of `c` values, each between `lo` and `hi`, lies between
      `c·lo` and `c·hi`. */
  predicate Within(c: real, s: real, lo: real, hi: real)
  {
    c * lo <= s <= c * hi
  }

  /** A sum between c·lo and c·hi has its mean over c between lo and hi. */
  lemma DivBetween(s: real, c: real, lo: real, hi: real)
    requires c > 0.0 && Within(c, s, lo, hi)
    ensures lo <= s / c <= hi
  {
    var q := s / c;
    assert q * c == s;
    CancelLe(lo, q, c);
    CancelLe(q, hi, c);
  }

  /** Adding nothing, or one more value between lo and hi, keeps a sum
      within its bounds. */
  lemma StepBounds(c: real, s: real, c2: real, s2: real, lo: real, hi: real)
    requires Within(c, s, lo, hi)
    requires (c2 == c && s2 == s) || (c2 == c + 1.0 && lo <= s2 - s <= hi)
    ensures Within(c2, s2, lo, hi)
  {
    if c2 != c {
      assert c2 * lo == c * lo + lo;
      assert c2 * hi == c * hi + hi;
    }
  }
}
