/** Powers of two and the Euclidean-division facts the byte and bit models
    rest on.  Python's `1 << k` is `Pow2(k)`. */
module Pow {

  function Pow2(k: nat): (p: nat)
    ensures p >= 1
    decreases k
  {
    if k == 0 then 1 else 2 * Pow2(k - 1)
  }

  /** Larger exponents give strictly larger powers. */
  lemma {:induction false} Pow2Strict(a: nat, b: nat)
    requires a < b
    ensures Pow2(a) < Pow2(b)
    decreases b
  {
    if a + 1 < b {
      Pow2Strict(a, b - 1);
    }
  }

  /** `Pow2` is injective, so distinct shift counts give distinct powers. */
  lemma Pow2Injective(a: nat, b: nat)
    requires Pow2(a) == Pow2(b)
    ensures a == b
  {
    if a < b {
      Pow2Strict(a, b);
    } else if b < a {
      Pow2Strict(b, a);
    }
  }

  /** Eight more bits multiply the range by one byte's worth. */
  lemma Pow2Byte(k: nat)
    ensures Pow2(k + 8) == 256 * Pow2(k)
  {
    calc {
      Pow2(k + 8);
      2 * Pow2(k + 7);
      4 * Pow2(k + 6);
      8 * Pow2(k + 5);
      16 * Pow2(k + 4);
      32 * Pow2(k + 3);
      64 * Pow2(k + 2);
      128 * Pow2(k + 1);
      256 * Pow2(k);
    }
  }

  /** Euclidean division is unique: any quotient/remainder pair with the
      remainder in range is the one Dafny's `/` and `%` produce. */
  lemma DivModUnique(x: int, d: int, q: int, r: int)
    requires d > 0 && 0 <= r < d && x == q * d + r
    ensures x / d == q && x % d == r
  {
    var q0, r0 := x / d, x % d;
    assert x == q0 * d + r0;
    assert (q - q0) * d == r0 - r;
    if q > q0 {
      MulAtLeast(q - q0, d);
      assert false;
    } else if q < q0 {
      MulAtLeast(q0 - q, d);
      assert false;
    }
  }

  lemma MulAtLeast(k: int, d: int)
    requires k >= 1 && d > 0
    ensures k * d >= d
  {
  }

  /** Taking the low `k+8` bits: the low 8 bits, and above them the low `k`
      bits of what remains after a one-byte shift. */
  lemma ModSplitByte(n: int, k: nat)
    ensures (n / 256) % Pow2(k) * 256 + n % 256 == n % Pow2(k + 8)
  {
    var p := Pow2(k);
    Pow2Byte(k);
    var hi, lo := n / 256, n % 256;
    var q, r := hi / p, hi % p;
    assert hi == q * p + r;
    assert n == (q * p + r) * 256 + lo;
    assert n == q * (256 * p) + (r * 256 + lo) by {
      assert (q * p + r) * 256 == q * (256 * p) + r * 256;
    }
    assert r * 256 + lo < 256 * p by {
      assert r <= p - 1;
      assert r * 256 <= (p - 1) * 256;
    }
    DivModUnique(n, 256 * p, q, r * 256 + lo);
  }

  /** Taking the low `k+1` bits: the low bit, and above it the low `k` bits
      of what remains after a one-bit shift. */
  lemma ModSplitBit(n: int, k: nat)
    ensures 2 * ((n / 2) % Pow2(k)) + n % 2 == n % Pow2(k + 1)
  {
    var p := Pow2(k);
    var q, r := (n / 2) / p, (n / 2) % p;
    assert n / 2 == q * p + r;
    assert n == q * (2 * p) + (2 * r + n % 2);
    DivModUnique(n, 2 * p, q, 2 * r + n % 2);
  }

  /** Powers of two multiply by adding exponents. */
  lemma {:induction false} Pow2Add(a: nat, b: nat)
    ensures Pow2(a + b) == Pow2(a) * Pow2(b)
    decreases b
  {
    if b > 0 {
      Pow2Add(a, b - 1);
      assert Pow2(a + b) == 2 * Pow2(a + b - 1);
    }
  }

  /** Splitting a remainder at a product of moduli: the low part modulo
      `p`, and above it the quotient modulo `q`. */
  lemma ModSplit(n: int, p: nat, q: nat)
    requires p > 0 && q > 0
    ensures ((n / p) % q) * p + n % p == n % (q * p)
  {
    var a, r0 := n / p, n % p;
    var hi, r1 := a / q, a % q;
    assert a == hi * q + r1;
    assert n == (hi * q + r1) * p + r0;
    assert n == hi * (q * p) + (r1 * p + r0) by {
      assert (hi * q + r1) * p == hi * (q * p) + r1 * p;
    }
    assert r1 * p + r0 < q * p by {
      assert r1 <= q - 1;
      assert r1 * p <= (q - 1) * p;
    }
    DivModUnique(n, q * p, hi, r1 * p + r0);
  }
}
