/** Division by a positive constant, stated so that callers only meet linear facts. */
module Arith {

  /** The machine: 32-bit words, 4 KiB pages. */
  const WORD := 0x1_0000_0000

  const PAGE := 0x1000

  /** A number written as q * n + r with 0 <= r < n has quotient q and remainder r. */
  lemma Quotient(v: int, n: int, q: int, r: int)
    requires 0 <= r < n && v == q * n + r
    ensures v / n == q && v % n == r
  {
    var p := v / n;
    assert v == p * n + v % n;
    assert (q - p) * n == v % n - r;
    NonzeroMultiple(q - p, n);
  }

  lemma NonzeroMultiple(k: int, n: int)
    requires n > 0
    ensures k >= 1 ==> k * n >= n
    ensures k <= -1 ==> k * n <= -n
  {
  }
}
