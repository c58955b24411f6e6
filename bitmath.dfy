/**
 * Arithmetic on Python's unbounded integers shared by the bit-packing
 * modules: powers of two, `int.bit_length()`, and the division facts that
 * shifting (`>>`) and masking (`& 0b11`, `% 256`) rely on.
 */
module BitMath {

  function Pow2(k: nat): (r: nat)
    ensures r >= 1
  {
    if k == 0 then 1 else 2 * Pow2(k - 1)
  }

  /** `x.bit_length()`: the number of binary digits of x, 0 for 0. */
  function BitLength(x: nat): nat
  {
    if x == 0 then 0 else 1 + BitLength(x / 2)
  }

  lemma {:induction false} Pow2Add(a: nat, b: nat)
    ensures Pow2(a + b) == Pow2(a) * Pow2(b)
  {
    if b > 0 {
      Pow2Add(a, b - 1);
      assert Pow2(a + b) == 2 * Pow2(a + b - 1);
    }
  }

  lemma Pow2Step2(k: nat)
    ensures Pow2(k + 2) == 4 * Pow2(k)
  {
    assert Pow2(k + 2) == 2 * Pow2(k + 1);
  }

  lemma {:induction false} Pow2Monotone(a: nat, b: nat)
    requires a <= b
    ensures Pow2(a) <= Pow2(b)
    decreases b - a
  {
    if a < b {
      Pow2Monotone(a, b - 1);
    }
  }

  /** A number below 2^b has at most b binary digits. */
  lemma {:induction false} BitLengthUpper(x: nat, b: nat)
    requires x < Pow2(b)
    ensures BitLength(x) <= b
  {
    if x > 0 {
      assert b > 0;
      BitLengthUpper(x / 2, b - 1);
    }
  }

  /** A number at least 2^a has more than a binary digits. */
  lemma {:induction false} BitLengthLower(x: nat, a: nat)
    requires Pow2(a) <= x
    ensures BitLength(x) >= a + 1
  {
    if a > 0 {
      BitLengthLower(x / 2, a - 1);
    }
  }

  lemma MulAtLeast(k: int, d: int)
    requires k >= 1 && d > 0
    ensures k * d >= d
  {
    assert k * d == (k - 1) * d + d;
  }

  /** Division with remainder has a unique quotient and remainder. */
  lemma DivModUnique(a: int, d: int, q: int, r: int)
    requires d > 0 && 0 <= r < d && a == q * d + r
    ensures a / d == q && a % d == r
  {
    var q', r' := a / d, a % d;
    assert q * d + r == q' * d + r';
    assert (q - q') * d == r' - r;
    if q > q' {
      MulAtLeast(q - q', d);
    } else if q < q' {
      MulAtLeast(q' - q, d);
    }
  }

  /** Dropping one more base-m digit: (m*x + c) / (m*p) == x / p. */
  lemma DivStep(x: nat, c: nat, m: nat, p: nat)
    requires 0 <= c < m && p > 0
    ensures (m * x + c) / (m * p) == x / p
  {
    var q, r := x / p, x % p;
    assert x == q * p + r;
    Distribute(m, q, p, r);
    MulBelow(m, r, p, c);
    DivModUnique(m * x + c, m * p, q, m * r + c);
  }

  lemma Distribute(m: int, q: int, p: int, r: int)
    ensures m * (q * p + r) == q * (m * p) + m * r
  {
  }

  lemma MulBelow(m: nat, r: nat, p: nat, c: nat)
    requires r < p && c < m
    ensures m * r + c < m * p
  {
    assert m * p == m * r + m * (p - r);
    MulAtLeast(p - r, m);
    assert (p - r) * m == m * (p - r);
  }
}
