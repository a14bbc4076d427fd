/** Facts about Euclidean `%` that the solver does not find on its own.
    The djb2 proofs need them to move between the 2^64 wrap-around of
    `unsigned long` and small table capacities. */
module Arith {

  lemma MulAtLeast(x: int, m: int)
    requires x >= 1 && m > 0
    ensures x * m >= m
  {
  }

  /** Division is unique: a representation `d * m + r` with `0 <= r < m`
      fixes the remainder. */
  lemma ModUnique(n: int, d: int, m: int, r: int)
    requires m > 0 && 0 <= r < m && n == d * m + r
    ensures n % m == r
  {
    var q := n / m;
    assert n == q * m + n % m;
    var e := d - q;
    assert e * m == n % m - r;
    if e >= 1 {
      MulAtLeast(e, m);
    } else if e <= -1 {
      MulAtLeast(-e, m);
    }
  }

  /** Adding a multiple of the modulus does not change the remainder. */
  lemma ModMultiple(k: int, z: int, m: int)
    requires m > 0
    ensures (k * m + z) % m == z % m
  {
    var q := z / m;
    assert z == q * m + z % m;
    assert k * m + z == (k + q) * m + z % m;
    ModUnique(k * m + z, k + q, m, z % m);
  }

  /** Reducing the left operand of a sum first does not change the remainder. */
  lemma ModAddLeft(x: int, y: int, m: int)
    requires m > 0
    ensures (x % m + y) % m == (x + y) % m
  {
    var q := x / m;
    assert x == q * m + x % m;
    assert x + y == q * m + (x % m + y);
    ModMultiple(q, x % m + y, m);
  }

  /** Reducing modulo a multiple of `a` first does not change the remainder modulo `a`. */
  lemma ModMod(x: int, a: int, b: int)
    requires a > 0 && b > 0
    ensures (x % (a * b)) % a == x % a
  {
    var q := x / (a * b);
    assert x == q * (a * b) + x % (a * b);
    assert x == (q * b) * a + x % (a * b);
    ModMultiple(q * b, x % (a * b), a);
  }
}
