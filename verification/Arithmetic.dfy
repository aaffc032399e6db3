/** Facts about integer products and quotients with a symbolic divisor. */
module Arithmetic {

  lemma TimesAtLeast(k: int, d: int)
    requires d > 0
    ensures k >= 1 ==> k * d >= d
    ensures k <= -1 ==> k * d <= -d
  {
    assert (k - 1) * d == k * d - d && (k + 1) * d == k * d + d;
  }

  lemma UniqueQuotient(d: int, q: int, r: int, p: int, s: int)
    requires d > 0 && q * d + r == p * d + s && 0 <= r < d && 0 <= s < d
    ensures q == p
  {
    assert (q - p) * d == q * d - p * d;
    TimesAtLeast(q - p, d);
  }

  /** A quotient is known from any decomposition with a proper remainder. */
  lemma QuotientOf(n: int, d: int, q: int, r: int)
    requires d > 0 && n == q * d + r && 0 <= r < d
    ensures n / d == q
  {
    UniqueQuotient(d, q, r, n / d, n % d);
  }
}
