/** The few facts about remainders that ring indices and hash slots rest on. */
module Modular {

  lemma MulAtLeast(a: int, n: int)
    requires a >= 1 && n >= 0
    ensures a * n >= n
  {
  }

  lemma MulDistribute(a: int, b: int, n: int)
    ensures (a - b) * n == a * n - b * n
  {
  }

  lemma QuotientUnique(q: int, r: int, q': int, r': int, n: nat)
    requires 0 <= r < n && 0 <= r' < n && q * n + r == q' * n + r'
    ensures q == q' && r == r'
  {
    if q > q' {
      MulAtLeast(q - q', n);
      MulDistribute(q, q', n);
    } else if q < q' {
      MulAtLeast(q' - q, n);
      MulDistribute(q', q, n);
    }
  }

  lemma DivModIdentity(x: int, n: nat)
    requires n > 0
    ensures x / n * n + x % n == x
  {
  }

  /** A number of the form q * n + r has quotient q and remainder r. */
  lemma ModIs(x: int, q: int, r: int, n: nat)
    requires 0 <= r < n && x == q * n + r
    ensures x % n == r && x / n == q
  {
    DivModIdentity(x, n);
    QuotientUnique(q, r, x / n, x % n, n);
  }

  lemma ModSmall(x: int, n: nat)
    requires 0 <= x < n
    ensures x % n == x
  {
    ModIs(x, 0, x, n);
  }

  /** One wrap-around at most: what a ring index does. */
  lemma ModWrap(x: int, n: nat)
    requires n > 0 && 0 <= x < 2 * n
    ensures x % n == if x < n then x else x - n
  {
    if x < n { ModIs(x, 0, x, n); } else { ModIs(x, 1, x - n, n); }
  }
}
