/** Big-endian conversion between numbers and byte strings, as `IPBase`
    performs it in `_setIPNumber` (number to bytes, keeping the low
    `byteCount` bytes) and `_getIPNumber` (bytes to number). */
module Bytes {
  import opened Pow

  type byte = x: int | 0 <= x < 256

  /** `count` big-endian bytes of `n`; higher bytes are dropped and negative
      values come out in two's complement, as Python's
      `(n >> 8*(k-1)) & 0xff` does. */
  function ToBytes(n: int, count: nat): (bs: seq<byte>)
    ensures |bs| == count
    decreases count
  {
    if count == 0 then [] else ToBytes(n / 256, count - 1) + [n % 256]
  }

  /** Folds bytes most-significant first: `n = (n << 8) | b`.  Because
      `b < 256`, the `|` of the source is the `+` written here. */
  function FromBytes(bs: seq<byte>): nat
    decreases |bs|
  {
    if |bs| == 0 then 0 else FromBytes(bs[..|bs| - 1]) * 256 + bs[|bs| - 1]
  }

  /** A byte string of length `c` denotes a number below `2^(8c)`. */
  lemma {:induction false} FromBytesBound(bs: seq<byte>)
    ensures FromBytes(bs) < Pow2(8 * |bs|)
    decreases |bs|
  {
    if |bs| > 0 {
      var init := bs[..|bs| - 1];
      FromBytesBound(init);
      Pow2Byte(8 * |init|);
    }
  }

  /** Writing a number and reading it back keeps its low `8 * count` bits:
      the truncation `_setIPNumber` applies. */
  lemma {:induction false} FromToBytes(n: int, count: nat)
    ensures FromBytes(ToBytes(n, count)) == n % Pow2(8 * count)
    decreases count
  {
    if count > 0 {
      var bs := ToBytes(n, count);
      assert bs[..|bs| - 1] == ToBytes(n / 256, count - 1);
      FromToBytes(n / 256, count - 1);
      ModSplitByte(n, 8 * (count - 1));
    }
  }

  /** For an in-range number the round trip is exact. */
  lemma FromToBytesExact(n: int, count: nat)
    requires 0 <= n < Pow2(8 * count)
    ensures FromBytes(ToBytes(n, count)) == n
  {
    FromToBytes(n, count);
    DivModUnique(n, Pow2(8 * count), 0, n);
  }

  /** In-range numbers are written differently when they differ. */
  lemma ToBytesInjective(x: int, y: int, count: nat)
    requires 0 <= x < Pow2(8 * count) && 0 <= y < Pow2(8 * count)
    requires ToBytes(x, count) == ToBytes(y, count)
    ensures x == y
  {
    FromToBytesExact(x, count);
    FromToBytesExact(y, count);
  }

  /** Reading bytes as a number and writing it back at the same length
      returns the same bytes. */
  lemma {:induction false} ToFromBytes(bs: seq<byte>)
    ensures ToBytes(FromBytes(bs), |bs|) == bs
    decreases |bs|
  {
    if |bs| > 0 {
      var init := bs[..|bs| - 1];
      ToFromBytes(init);
      var n := FromBytes(bs);
      assert n / 256 == FromBytes(init);
      assert n % 256 == bs[|bs| - 1];
      assert bs == init + [bs[|bs| - 1]];
    }
  }

  /** Byte `i` (counting from the most significant) is
      `(n >> 8*(count-1-i)) & 0xff`, the source's formula. */
  lemma {:induction false} ToBytesAt(n: int, count: nat, i: nat)
    requires i < count
    ensures ToBytes(n, count)[i] == (n / Pow2(8 * (count - 1 - i))) % 256
    decreases count
  {
    if i == count - 1 {
      assert Pow2(0) == 1;
    } else {
      ToBytesAt(n / 256, count - 1, i);
      DivDivByte(n, 8 * (count - 2 - i));
      assert 8 * (count - 2 - i) + 8 == 8 * (count - 1 - i);
    }
  }

  /** Shifting right by 8 and then by `k` is shifting by `k + 8`. */
  lemma DivDivByte(n: int, k: nat)
    ensures n / 256 / Pow2(k) == n / Pow2(k + 8)
  {
    var p := Pow2(k);
    Pow2Byte(k);
    var q, r := (n / 256) / p, (n / 256) % p;
    assert n / 256 == q * p + r;
    assert n == q * (256 * p) + (r * 256 + n % 256) by {
      assert (q * p + r) * 256 == q * (256 * p) + r * 256;
    }
    assert r * 256 + n % 256 < 256 * p by {
      assert r * 256 <= (p - 1) * 256;
    }
    DivModUnique(n, 256 * p, q, r * 256 + n % 256);
  }

  /** Writing `-n-1` (Python's `~n`) keeps the `8*count`-bit complement. */
  lemma {:induction false} ComplementBytes(n: int, count: nat)
    requires 0 <= n < Pow2(8 * count)
    ensures FromBytes(ToBytes(-n - 1, count)) == Pow2(8 * count) - 1 - n
    decreases count
  {
    if count == 0 {
    } else {
      Pow2Byte(8 * (count - 1));
      var bs := ToBytes(-n - 1, count);
      assert (-n - 1) / 256 == -(n / 256) - 1;
      assert (-n - 1) % 256 == 255 - n % 256;
      assert bs[..|bs| - 1] == ToBytes(-(n / 256) - 1, count - 1);
      ComplementBytes(n / 256, count - 1);
    }
  }

  /** Concatenated byte strings read as the high part shifted over the low
      part (struct's `'!QQ'` packing of two halves). */
  lemma {:induction false} FromBytesConcat(hi: seq<byte>, lo: seq<byte>)
    ensures FromBytes(hi + lo) == FromBytes(hi) * Pow2(8 * |lo|) + FromBytes(lo)
    decreases |lo|
  {
    if |lo| == 0 {
      assert hi + lo == hi;
    } else {
      var init, last := lo[..|lo| - 1], lo[|lo| - 1];
      assert (hi + lo)[..|hi + lo| - 1] == hi + init;
      assert (hi + lo)[|hi + lo| - 1] == last;
      FromBytesConcat(hi, init);
      var a, b, p := FromBytes(hi), FromBytes(init), Pow2(8 * |init|);
      assert FromBytes(hi + lo) == (a * p + b) * 256 + last;
      assert FromBytes(lo) == b * 256 + last;
      Pow2Byte(8 * |init|);
      assert Pow2(8 * |lo|) == 256 * p;
      ShiftByte(a, b, p, last);
    }
  }

  /** Appending a byte multiplies the high part's weight by 256. */
  lemma ShiftByte(a: int, b: int, p: int, last: int)
    ensures (a * p + b) * 256 + last == a * (256 * p) + (b * 256 + last)
  {
  }

  /** `_setIPNumber` followed by `_getIPNumber`: the number `count` packed
      big-endian bytes read back as.  A number in range comes back
      unchanged and a negative one above `-2^(8*count)` comes back as its
      two's complement. */
  function Pack(n: int, count: nat): (r: nat)
    ensures r < Pow2(8 * count)
    ensures 0 <= n < Pow2(8 * count) ==> r == n
    ensures -(Pow2(8 * count) as int) <= n < 0 ==> r == n + Pow2(8 * count)
  {
    FromBytesBound(ToBytes(n, count));
    FromToBytes(n, count);
    if 0 <= n < Pow2(8 * count) then
      DivModUnique(n, Pow2(8 * count), 0, n);
      FromBytes(ToBytes(n, count))
    else if -(Pow2(8 * count) as int) <= n < 0 then
      DivModUnique(n, Pow2(8 * count), -1, n + Pow2(8 * count));
      FromBytes(ToBytes(n, count))
    else FromBytes(ToBytes(n, count))
  }

  /** The bytes written depend only on the value modulo `2^(8*count)`. */
  lemma ToBytesMod(n: int, count: nat)
    ensures ToBytes(n % Pow2(8 * count), count) == ToBytes(n, count)
  {
    ToFromBytes(ToBytes(n, count));
    FromToBytes(n, count);
  }

  /** Writing `a + b` bytes is writing the high `a` bytes of what remains
      after dropping the low `b` bytes, then the low `b` bytes. */
  lemma {:induction false} ToBytesSplit(n: int, a: nat, b: nat)
    ensures ToBytes(n, a + b) == ToBytes(n / Pow2(8 * b), a) + ToBytes(n, b)
    decreases b
  {
    if b == 0 {
      assert Pow2(0) == 1;
    } else {
      ToBytesSplit(n / 256, a, b - 1);
      DivDivByte(n, 8 * (b - 1));
      assert 8 * (b - 1) + 8 == 8 * b;
    }
  }
}
