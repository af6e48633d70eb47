/** The ends of the machine's 64-bit integers, and division with remainder, stated once so that proofs
    elsewhere need no division of their own. */
module Arithmetic {

  /** Unsigned values lie below this. */
  const WORD := 0x1_0000_0000_0000_0000

  /** Signed values lie from its negative up to just below it. */
  const INT64_LIMIT := 0x8000_0000_0000_0000

  lemma ProductGrows(a: int, b: int, m: nat)
    ensures a >= b ==> a * m >= b * m
  {
  }

  function Product(a: nat, b: nat): (r: nat)
    ensures r == a * b
  {
    ProductGrows(a, 0, b);
    a * b
  }

  /** The quotient and the remainder are the only ones. */
  lemma Euclid(x: int, k: int, r: int, m: int)
    requires 0 <= r < m && x == k * m + r
    ensures x / m == k && x % m == r
  {
    var q, s := x / m, x % m;
    assert x == q * m + s;
    ProductGrows(q, k + 1, m);
    ProductGrows(k, q + 1, m);
  }

  /** A number scaled stays below its bound scaled, and is a multiple of the scale. */
  lemma Scaled(n: nat, bound: nat, scale: nat)
    requires n < bound && scale > 0
    ensures n * scale < bound * scale && n * scale % scale == 0
  {
    ProductGrows(bound, n + 1, scale);
    Euclid(n * scale, n, 0, scale);
  }
}
