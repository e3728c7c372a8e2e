/** Powers of two and the division facts the bit-level proofs rely on. */
module Bits {
  function Pow2(n: nat): (p: nat)
    ensures p >= 1
  {
    if n == 0 then 1 else 2 * Pow2(n - 1)
  }

  /** Bit `j` of `x` (bit 0 is the least significant), i.e. `(x >> j) & 1`. */
  function BitAt(x: nat, j: nat): (b: nat)
    ensures b <= 1
  {
    (x / Pow2(j)) % 2
  }

  lemma {:induction false} Pow2Monotone(m: nat, n: nat)
    requires m <= n
    ensures Pow2(m) <= Pow2(n)
  {
    if m < n {
      Pow2Monotone(m, n - 1);
    }
  }

  lemma Pow2Values()
    ensures Pow2(8) == 0x100
    ensures Pow2(16) == 0x1_0000
    ensures Pow2(24) == 0x100_0000
    ensures Pow2(32) == 0x1_0000_0000
    ensures Pow2(40) == 0x100_0000_0000
  {
    assert Pow2(8) == 0x100;
    assert Pow2(16) == 0x1_0000;
    assert Pow2(24) == 0x100_0000;
    assert Pow2(32) == 0x1_0000_0000;
    assert Pow2(40) == 0x100_0000_0000;
  }

  /** Euclidean division is determined by quotient and remainder. */
  lemma DivUnique(x: int, d: int, q: int, r: int)
    requires d > 0 && 0 <= r < d && x == q * d + r
    ensures x / d == q && x % d == r
  {
    var q', r' := x / d, x % d;
    assert x == q' * d + r';
    assert (q - q') * d == r' - r;
    if q > q' {
      MulAtLeast(q - q', d);
    } else if q < q' {
      MulAtLeast(q' - q, d);
    }
  }

  lemma MulAtLeast(k: int, d: int)
    requires k >= 1 && d > 0
    ensures k * d >= d
  {
    assert k * d == (k - 1) * d + d;
  }

  /** Dividing by `d` and then by `e` is dividing by `d * e`. */
  lemma DivAgain(x: nat, d: nat, e: nat)
    requires d > 0 && e > 0
    ensures x / (d * e) == (x / d) / e
  {
    var q, r := x / d, x % d;
    var q', r' := q / e, q % e;
    assert x == q * d + r;
    assert q == q' * e + r';
    MulRegroup(q', e, r', d);
    MulAtMost(r', e - 1, d);
    MulRegroup(1, e - 1, 0, d);
    DivUnique(x, d * e, q', r' * d + r);
  }

  lemma MulRegroup(a: int, e: int, b: int, d: int)
    ensures (a * e + b) * d == a * (d * e) + b * d
  {
  }

  lemma MulAtMost(a: int, b: int, d: int)
    requires 0 <= a <= b && d >= 0
    ensures a * d <= b * d
  {
    assert b * d - a * d == (b - a) * d;
  }

  /** Shifting a bit `b` in at the bottom of `a` and then shifting right by
      `j >= 1` is the same as shifting `a` right by `j - 1`. */
  lemma ShiftInThenOut(a: nat, b: nat, j: nat)
    requires b <= 1 && j >= 1
    ensures (2 * a + b) / Pow2(j) == a / Pow2(j - 1)
  {
    var p := Pow2(j - 1);
    var q, r := a / p, a % p;
    assert a == q * p + r;
    assert 2 * a + b == q * (2 * p) + (2 * r + b);
    DivUnique(2 * a + b, 2 * p, q, 2 * r + b);
  }
}
