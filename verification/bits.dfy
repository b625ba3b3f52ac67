/** Bitwise operators on Python integers, restricted to a width.

    `Bitwise(op, a, b, w)` is the low `w` bits of Python's unbounded
    two's-complement `a op b`.  Dafny's `/` and `%` by 2 round toward
    negative infinity, exactly like Python's `>> 1` and `& 1`, so the same
    definition holds for negative operands such as `~x == -x - 1`. */
module Bits {
  import opened Pow

  datatype BitOp = AndOp | OrOp | XorOp

  function Combine(op: BitOp, x: bool, y: bool): bool {
    match op
    case AndOp => x && y
    case OrOp => x || y
    case XorOp => x != y
  }

  function Bitwise(op: BitOp, a: int, b: int, w: nat): nat
    decreases w
  {
    if w == 0 then 0
    else 2 * Bitwise(op, a / 2, b / 2, w - 1) + (if Combine(op, a % 2 == 1, b % 2 == 1) then 1 else 0)
  }

  /** Bit `i` of `x` in two's complement (Python's `(x >> i) & 1 == 1`). */
  predicate BitSet(x: int, i: nat)
    decreases i
  {
    if i == 0 then x % 2 == 1 else BitSet(x / 2, i - 1)
  }

  /** The result of a width-`w` operation fits in `w` bits. */
  lemma {:induction false} BitwiseBound(op: BitOp, a: int, b: int, w: nat)
    ensures Bitwise(op, a, b, w) < Pow2(w)
    decreases w
  {
    if w > 0 {
      BitwiseBound(op, a / 2, b / 2, w - 1);
    }
  }

  /** Below the width, each result bit combines the operands' bits at the
      same position. */
  lemma {:induction false} BitwiseBits(op: BitOp, a: int, b: int, w: nat, i: nat)
    requires i < w
    ensures BitSet(Bitwise(op, a, b, w), i) == Combine(op, BitSet(a, i), BitSet(b, i))
    decreases i
  {
    var r := Bitwise(op, a, b, w);
    assert r / 2 == Bitwise(op, a / 2, b / 2, w - 1);
    if i > 0 {
      BitwiseBits(op, a / 2, b / 2, w - 1, i - 1);
    }
  }

  /** A value below `2^w` has no bits at or above position `w`. */
  lemma {:induction false} HighBitsClear(x: int, w: nat, i: nat)
    requires 0 <= x < Pow2(w) && w <= i
    ensures !BitSet(x, i)
    decreases i
  {
    if i > 0 {
      if w > 0 {
        HighBitsClear(x / 2, w - 1, i - 1);
      } else {
        assert x == 0;
        HighBitsClear(0, 0, i - 1);
      }
    }
  }

  /** Two `w`-bit values with the same low `w` bits are equal. */
  lemma {:induction false} BitsExtensional(x: int, y: int, w: nat)
    requires 0 <= x < Pow2(w) && 0 <= y < Pow2(w)
    requires forall i :: 0 <= i < w ==> BitSet(x, i) == BitSet(y, i)
    ensures x == y
    decreases w
  {
    if w > 0 {
      forall i | 0 <= i < w - 1
        ensures BitSet(x / 2, i) == BitSet(y / 2, i)
      {
        assert BitSet(x, i + 1) == BitSet(y, i + 1);
      }
      BitsExtensional(x / 2, y / 2, w - 1);
      assert BitSet(x, 0) == BitSet(y, 0);
    }
  }

  /** `2^w - 1 - m` is the bitwise complement of `m` within `w` bits. */
  lemma {:induction false} ComplementBits(m: int, w: nat, i: nat)
    requires 0 <= m < Pow2(w) && i < w
    ensures BitSet(Pow2(w) - 1 - m, i) == !BitSet(m, i)
    decreases i
  {
    assert (Pow2(w) - 1 - m) / 2 == Pow2(w - 1) - 1 - m / 2;
    if i > 0 {
      ComplementBits(m / 2, w - 1, i - 1);
    }
  }

  /** `2^k - 1` has exactly the low `k` bits set. */
  lemma {:induction false} LowOnesBits(k: nat, i: nat)
    ensures BitSet(Pow2(k) - 1, i) <==> i < k
    decreases i
  {
    if k == 0 {
      if i > 0 {
        assert (Pow2(0) - 1) / 2 == 0;
        LowOnesBits(0, i - 1);
      }
    } else {
      assert (Pow2(k) - 1) / 2 == Pow2(k - 1) - 1;
      if i > 0 {
        LowOnesBits(k - 1, i - 1);
      }
    }
  }

  /** `-2^k`, which is Python's `~((1 << k) - 1)`, has every bit from `k`
      upward set and none below. */
  lemma {:induction false} NegPow2Bits(k: nat, i: nat)
    ensures BitSet(-(Pow2(k) as int), i) <==> k <= i
    decreases i
  {
    if k == 0 {
      if i > 0 {
        assert (-(Pow2(0) as int)) / 2 == -1;
        NegPow2Bits(0, i - 1);
      }
    } else {
      assert (-(Pow2(k) as int)) / 2 == -(Pow2(k - 1) as int);
      if i > 0 {
        NegPow2Bits(k - 1, i - 1);
      }
    }
  }

  /** `2^w - 2^k` (for `k <= w`) is the `w`-bit value whose set bits are
      exactly positions `k .. w-1`. */
  lemma {:induction false} HighOnesBits(w: nat, k: nat, i: nat)
    requires k <= w && i < w
    ensures BitSet(Pow2(w) - Pow2(k), i) <==> k <= i
    decreases i
  {
    if k == 0 {
      ComplementBits(0, w, i);
      assert Pow2(w) - Pow2(0) == Pow2(w) - 1 - 0;
      assert !BitSet(0, i) by { HighBitsClear(0, 0, i); }
    } else {
      assert (Pow2(w) - Pow2(k)) / 2 == Pow2(w - 1) - Pow2(k - 1);
      assert (Pow2(w) - Pow2(k)) % 2 == 0;
      if i > 0 {
        HighOnesBits(w - 1, k - 1, i - 1);
      }
    }
  }

  /** `2^w - 2^k` lies in `[0, 2^w)` for `k <= w`. */
  lemma HighOnesRange(w: nat, k: nat)
    requires k <= w
    ensures 0 <= Pow2(w) - Pow2(k) < Pow2(w)
  {
    if k < w {
      Pow2Strict(k, w);
    }
  }

  /** Bitwise operators are symmetric, so Python's reflected operators
      (`__rand__`, `__ror__`, `__rxor__`) agree with the forward ones. */
  lemma {:induction false} BitwiseCommutes(op: BitOp, a: int, b: int, w: nat)
    ensures Bitwise(op, a, b, w) == Bitwise(op, b, a, w)
    decreases w
  {
    if w > 0 {
      BitwiseCommutes(op, a / 2, b / 2, w - 1);
    }
  }

  /** All bits at once: the width-`w` result agrees bit by bit with the
      operator applied to the operands' bits. */
  lemma BitwiseAllBits(op: BitOp, a: int, b: int, w: nat)
    ensures Bitwise(op, a, b, w) < Pow2(w)
    ensures forall i :: 0 <= i < w ==> BitSet(Bitwise(op, a, b, w), i) == Combine(op, BitSet(a, i), BitSet(b, i))
  {
    BitwiseBound(op, a, b, w);
    forall i | 0 <= i < w
      ensures BitSet(Bitwise(op, a, b, w), i) == Combine(op, BitSet(a, i), BitSet(b, i))
    {
      BitwiseBits(op, a, b, w, i);
    }
  }

  /** Every bit of the width's complement is the opposite bit. */
  lemma ComplementAllBits(m: int, w: nat)
    ensures 0 <= m < Pow2(w) ==> forall i | 0 <= i < w :: BitSet(Pow2(w) - 1 - m, i) == !BitSet(m, i)
  {
    if 0 <= m < Pow2(w) {
      forall i | 0 <= i < w
        ensures BitSet(Pow2(w) - 1 - m, i) == !BitSet(m, i)
      {
        ComplementBits(m, w, i);
      }
    }
  }

  /** Zero has no bits set. */
  lemma ZeroBits(i: nat)
    ensures !BitSet(0, i)
  {
    HighBitsClear(0, 0, i);
  }

  // ------------------------------------------------ laws used by the models

  /** `max & ~((1 << k) - 1)` in width `w` clears the low `k` bits of the
      all-ones value: it is `2^w - 2^k`. */
  lemma MaskLowClear(w: nat, k: nat)
    requires k <= w
    ensures Bitwise(AndOp, Pow2(w) - 1, -(Pow2(k) as int), w) == Pow2(w) - Pow2(k)
  {
    var r := Bitwise(AndOp, Pow2(w) - 1, -(Pow2(k) as int), w);
    BitwiseBound(AndOp, Pow2(w) - 1, -(Pow2(k) as int), w);
    HighOnesRange(w, k);
    forall i | 0 <= i < w
      ensures BitSet(r, i) == BitSet(Pow2(w) - Pow2(k), i)
    {
      BitwiseBits(AndOp, Pow2(w) - 1, -(Pow2(k) as int), w, i);
      LowOnesBits(w, i);
      NegPow2Bits(k, i);
      HighOnesBits(w, k, i);
    }
    BitsExtensional(r, Pow2(w) - Pow2(k), w);
  }

  /** `max ^ ((1 << k) - 1)` in width `w` is `2^w - 2^k` when `k <= w` and
      zero beyond the width. */
  lemma XorLowOnes(w: nat, k: nat)
    ensures Bitwise(XorOp, Pow2(w) - 1, Pow2(k) - 1, w) == (if k <= w then Pow2(w) - Pow2(k) else 0)
  {
    var r := Bitwise(XorOp, Pow2(w) - 1, Pow2(k) - 1, w);
    var e := if k <= w then Pow2(w) - Pow2(k) else 0;
    BitwiseBound(XorOp, Pow2(w) - 1, Pow2(k) - 1, w);
    if k <= w {
      HighOnesRange(w, k);
    }
    forall i | 0 <= i < w
      ensures BitSet(r, i) == BitSet(e, i)
    {
      BitwiseBits(XorOp, Pow2(w) - 1, Pow2(k) - 1, w, i);
      LowOnesBits(w, i);
      LowOnesBits(k, i);
      if k <= w {
        HighOnesBits(w, k, i);
      } else {
        ZeroBits(i);
      }
    }
    BitsExtensional(r, e, w);
  }

  /** Masking with `m` and with its complement splits `a` into two parts
      with no common bit whose union is `a`. */
  lemma AndComplementPartition(a: int, m: int, w: nat)
    requires 0 <= a < Pow2(w) && 0 <= m < Pow2(w)
    ensures Bitwise(OrOp, Bitwise(AndOp, a, m, w), Bitwise(AndOp, a, Pow2(w) - 1 - m, w), w) == a
    ensures Bitwise(AndOp, Bitwise(AndOp, a, m, w), Bitwise(AndOp, a, Pow2(w) - 1 - m, w), w) == 0
  {
    var hi, lo := Bitwise(AndOp, a, m, w), Bitwise(AndOp, a, Pow2(w) - 1 - m, w);
    var both, neither := Bitwise(OrOp, hi, lo, w), Bitwise(AndOp, hi, lo, w);
    BitwiseBound(OrOp, hi, lo, w);
    BitwiseBound(AndOp, hi, lo, w);
    forall i | 0 <= i < w
      ensures BitSet(both, i) == BitSet(a, i)
      ensures BitSet(neither, i) == BitSet(0, i)
    {
      BitwiseBits(AndOp, a, m, w, i);
      BitwiseBits(AndOp, a, Pow2(w) - 1 - m, w, i);
      BitwiseBits(OrOp, hi, lo, w, i);
      BitwiseBits(AndOp, hi, lo, w, i);
      ComplementBits(m, w, i);
      ZeroBits(i);
    }
    BitsExtensional(both, a, w);
    BitsExtensional(neither, 0, w);
  }

  /** Masking twice with the same mask is masking once. */
  lemma AndMaskIdempotent(a: int, m: int, w: nat)
    ensures Bitwise(AndOp, Bitwise(AndOp, a, m, w), m, w) == Bitwise(AndOp, a, m, w)
  {
    var r := Bitwise(AndOp, a, m, w);
    var rr := Bitwise(AndOp, r, m, w);
    BitwiseBound(AndOp, a, m, w);
    BitwiseBound(AndOp, r, m, w);
    forall i | 0 <= i < w
      ensures BitSet(rr, i) == BitSet(r, i)
    {
      BitwiseBits(AndOp, a, m, w, i);
      BitwiseBits(AndOp, r, m, w, i);
    }
    BitsExtensional(rr, r, w);
  }

  /** The broadcast value `(m & a) | ~m`, masked with `m`, is `a & m`. */
  lemma BroadcastMasked(a: int, m: int, w: nat)
    requires 0 <= m < Pow2(w)
    ensures Bitwise(AndOp, Bitwise(OrOp, Bitwise(AndOp, m, a, w), Pow2(w) - 1 - m, w), m, w) == Bitwise(AndOp, a, m, w)
  {
    var net := Bitwise(AndOp, m, a, w);
    var bc := Bitwise(OrOp, net, Pow2(w) - 1 - m, w);
    var r := Bitwise(AndOp, bc, m, w);
    var e := Bitwise(AndOp, a, m, w);
    BitwiseBound(AndOp, bc, m, w);
    BitwiseBound(AndOp, a, m, w);
    forall i | 0 <= i < w
      ensures BitSet(r, i) == BitSet(e, i)
    {
      BitwiseBits(AndOp, m, a, w, i);
      BitwiseBits(OrOp, net, Pow2(w) - 1 - m, w, i);
      BitwiseBits(AndOp, bc, m, w, i);
      BitwiseBits(AndOp, a, m, w, i);
      ComplementBits(m, w, i);
    }
    BitsExtensional(r, e, w);
  }

  /** `max ^ ((1 << k) - 1)` at width `w`. */
  function HostBitsCleared(w: nat, k: nat): (r: nat)
    ensures r < Pow2(w)
    ensures r == (if k <= w then Pow2(w) - Pow2(k) else 0)
  {
    XorLowOnes(w, k);
    Bitwise(XorOp, Pow2(w) - 1, Pow2(k) - 1, w)
  }

  /** `x & (2^w - 1)` keeps the low `w` bits: it is `x` modulo `2^w`, for
      negative `x` too. */
  lemma {:induction false} AndLowOnes(x: int, w: nat)
    ensures Bitwise(AndOp, x, Pow2(w) - 1, w) == x % Pow2(w)
    decreases w
  {
    if w > 0 {
      var m := Pow2(w) - 1;
      var p := Pow2(w - 1);
      assert Pow2(w) == 2 * p;
      DivModUnique(m, 2, p - 1, 1);
      var rest := Bitwise(AndOp, x / 2, p - 1, w - 1);
      AndLowOnes(x / 2, w - 1);
      assert rest == (x / 2) % p;
      var low := if Combine(AndOp, x % 2 == 1, m % 2 == 1) then 1 else 0;
      assert low == x % 2;
      assert Bitwise(AndOp, x, m, w) == 2 * rest + low;
      ModSplitBit(x, w - 1);
    }
  }
}
