/** Text renderings used by the interface listings and address classes:
    decimal numbers (`'%d'`, `str`, `long`), two-digit lowercase hex
    (`encode('hex')`), `sep.join`, `str.split`, `str.count`, and the
    dotted-decimal and colon-separated MAC forms built from them.  Each
    renderer comes with the parser that inverts it. */
module Text {
  import opened Base
  import opened Bytes

  // ---------------------------------------------------------------- decimal

  predicate IsDigit(c: char) {
    '0' <= c <= '9'
  }

  predicate AllDigits(s: string) {
    forall i :: 0 <= i < |s| ==> IsDigit(s[i])
  }

  /** Python's `str.isdigit()` on a byte string: non-empty, all digits. */
  predicate IsDigits(s: string) {
    |s| > 0 && AllDigits(s)
  }

  function DigitChar(d: nat): (c: char)
    requires d < 10
    ensures IsDigit(c)
  {
    (('0' as int) + d) as char
  }

  function DigitValue(c: char): nat
    requires IsDigit(c)
  {
    (c as int) - ('0' as int)
  }

  /** `str(n)` / `'%d' % n` for a non-negative integer. */
  function Decimal(n: nat): (s: string)
    decreases n
  {
    if n < 10 then [DigitChar(n)] else Decimal(n / 10) + [DigitChar(n % 10)]
  }

  /** `long(s)` for a string of digits (leading zeros allowed). */
  function ParseDecimal(s: string): nat
    requires AllDigits(s)
    decreases |s|
  {
    if |s| == 0 then 0 else ParseDecimal(s[..|s| - 1]) * 10 + DigitValue(s[|s| - 1])
  }

  /** `str(n)` is a digit string, and `long` reads it back as `n`. */
  lemma {:induction false} DecimalRoundTrip(n: nat)
    ensures IsDigits(Decimal(n))
    ensures ParseDecimal(Decimal(n)) == n
    decreases n
  {
    if n >= 10 {
      DecimalRoundTrip(n / 10);
      var s := Decimal(n);
      assert s[..|s| - 1] == Decimal(n / 10);
    }
  }

  // -------------------------------------------------------------------- hex

  predicate IsHexDigit(c: char) {
    IsDigit(c) || 'a' <= c <= 'f'
  }

  function HexDigit(d: nat): (c: char)
    requires d < 16
    ensures IsHexDigit(c)
  {
    if d < 10 then DigitChar(d) else (('a' as int) + d - 10) as char
  }

  function HexValue(c: char): nat
    requires IsHexDigit(c)
  {
    if IsDigit(c) then DigitValue(c) else (c as int) - ('a' as int) + 10
  }

  /** One byte as two lowercase hex digits, `chr(b).encode('hex')`. */
  function HexByte(b: byte): string {
    [HexDigit(b / 16), HexDigit(b % 16)]
  }

  function ParseHexByte(s: string): Option<byte> {
    if |s| == 2 && IsHexDigit(s[0]) && IsHexDigit(s[1]) && HexValue(s[0]) < 16 && HexValue(s[1]) < 16
    then Some(HexValue(s[0]) * 16 + HexValue(s[1]))
    else None
  }

  lemma HexByteRoundTrip(b: byte)
    ensures ParseHexByte(HexByte(b)) == Some(b)
  {
  }

  /** The whole byte string as hex with no separators, `s.encode('hex')`. */
  function HexString(bs: seq<byte>): (s: string)
    decreases |bs|
  {
    if |bs| == 0 then [] else HexByte(bs[0]) + HexString(bs[1..])
  }

  function ParseHexString(s: string): Option<seq<byte>>
    decreases |s|
  {
    if |s| == 0 then Some([])
    else if |s| < 2 then None
    else match ParseHexByte(s[..2])
      case None => None
      case Some(b) =>
        match ParseHexString(s[2..])
        case None => None
        case Some(rest) => Some([b] + rest)
  }

  /** Hex rendering has two digits per byte and is inverted by
      `ParseHexString`. */
  lemma {:induction false} HexStringRoundTrip(bs: seq<byte>)
    ensures |HexString(bs)| == 2 * |bs|
    ensures ParseHexString(HexString(bs)) == Some(bs)
    decreases |bs|
  {
    if |bs| > 0 {
      HexStringRoundTrip(bs[1..]);
      var s := HexString(bs);
      assert s[..2] == HexByte(bs[0]);
      assert s[2..] == HexString(bs[1..]);
      HexByteRoundTrip(bs[0]);
      assert [bs[0]] + bs[1..] == bs;
    }
  }

  // ----------------------------------------------------------- join / split

  /** `sep.join(parts)`. */
  function Join(parts: seq<string>, sep: char): string
    decreases |parts|
  {
    if |parts| == 0 then ""
    else if |parts| == 1 then parts[0]
    else parts[0] + [sep] + Join(parts[1..], sep)
  }

  /** The first position of `c` in `s`, if any. */
  function IndexOf(s: string, c: char): (r: Option<nat>)
    ensures r.Some? ==> r.value < |s| && s[r.value] == c && c !in s[..r.value]
    ensures r.None? ==> c !in s
    decreases |s|
  {
    if |s| == 0 then None
    else if s[0] == c then Some(0)
    else match IndexOf(s[1..], c)
      case None => None
      case Some(i) => Some(i + 1)
  }

  /** `s.split(sep)`: every occurrence of `sep` separates two fields. */
  function Split(s: string, sep: char): seq<string>
    decreases |s|
  {
    match IndexOf(s, sep)
    case None => [s]
    case Some(i) => [s[..i]] + Split(s[i + 1..], sep)
  }

  lemma IndexOfAfter(a: string, b: string, c: char)
    requires c !in a
    ensures IndexOf(a + [c] + b, c) == Some(|a|)
  {
    var s := a + [c] + b;
    assert s[|a|] == c;
    assert s[..|a|] == a;
  }

  /** Splitting a join gives the parts back, provided no part contains the
      separator. */
  lemma {:induction false} SplitJoin(parts: seq<string>, sep: char)
    requires |parts| >= 1
    requires forall k :: 0 <= k < |parts| ==> sep !in parts[k]
    ensures Split(Join(parts, sep), sep) == parts
    decreases |parts|
  {
    if |parts| == 1 {
      assert IndexOf(parts[0], sep).None?;
    } else {
      var rest := Join(parts[1..], sep);
      IndexOfAfter(parts[0], rest, sep);
      var s := parts[0] + [sep] + rest;
      assert s[..|parts[0]|] == parts[0];
      assert s[|parts[0]| + 1..] == rest;
      SplitJoin(parts[1..], sep);
      assert [parts[0]] + parts[1..] == parts;
    }
  }

  /** `s.count(c)`. */
  function Count(s: string, c: char): nat
    decreases |s|
  {
    if |s| == 0 then 0 else (if s[0] == c then 1 else 0) + Count(s[1..], c)
  }

  // ------------------------------------------------------- composite forms

  function DecimalParts(bs: seq<byte>): (parts: seq<string>)
    ensures |parts| == |bs|
    ensures forall k :: 0 <= k < |bs| ==> parts[k] == Decimal(bs[k])
  {
    seq(|bs|, k requires 0 <= k < |bs| => Decimal(bs[k]))
  }

  function HexParts(bs: seq<byte>): (parts: seq<string>)
    ensures |parts| == |bs|
    ensures forall k :: 0 <= k < |bs| ==> parts[k] == HexByte(bs[k])
  {
    seq(|bs|, k requires 0 <= k < |bs| => HexByte(bs[k]))
  }

  /** `'.'.join('%d' % ord(c) for c in bytes)`, which is also what
      `inet_ntop(AF_INET, ...)` produces for four bytes. */
  function DottedDecimal(bs: seq<byte>): string {
    Join(DecimalParts(bs), '.')
  }

  /** `':'.join(x.encode('hex') for x in bytes)`. */
  function MacString(bs: seq<byte>): string {
    Join(HexParts(bs), ':')
  }

  function ParseDecimalByte(s: string): Option<byte> {
    if IsDigits(s) && ParseDecimal(s) < 256 then Some(ParseDecimal(s)) else None
  }

  function ParseFields(parts: seq<string>, field: string -> Option<byte>): Option<seq<byte>>
    decreases |parts|
  {
    if |parts| == 0 then Some([])
    else match field(parts[0])
      case None => None
      case Some(b) =>
        match ParseFields(parts[1..], field)
        case None => None
        case Some(rest) => Some([b] + rest)
  }

  function ParseDottedDecimal(s: string): Option<seq<byte>> {
    ParseFields(Split(s, '.'), ParseDecimalByte)
  }

  function ParseMac(s: string): Option<seq<byte>> {
    ParseFields(Split(s, ':'), ParseHexByte)
  }

  lemma {:induction false} ParseFieldsOf(bs: seq<byte>, parts: seq<string>, field: string -> Option<byte>)
    requires |parts| == |bs|
    requires forall k :: 0 <= k < |bs| ==> field(parts[k]) == Some(bs[k])
    ensures ParseFields(parts, field) == Some(bs)
    decreases |bs|
  {
    if |bs| > 0 {
      ParseFieldsOf(bs[1..], parts[1..], field);
      assert [bs[0]] + bs[1..] == bs;
    }
  }

  lemma DecimalHasNoSeparator(n: nat, c: char)
    requires !IsDigit(c)
    ensures c !in Decimal(n)
  {
    DecimalRoundTrip(n);
  }

  /** Dotted decimal is inverted by splitting at '.' and reading each field
      as a decimal byte. */
  lemma DottedDecimalRoundTrip(bs: seq<byte>)
    requires |bs| >= 1
    ensures ParseDottedDecimal(DottedDecimal(bs)) == Some(bs)
  {
    var parts := DecimalParts(bs);
    forall k | 0 <= k < |parts|
      ensures '.' !in parts[k]
    {
      DecimalHasNoSeparator(bs[k], '.');
    }
    SplitJoin(parts, '.');
    forall k | 0 <= k < |bs|
      ensures ParseDecimalByte(parts[k]) == Some(bs[k])
    {
      DecimalRoundTrip(bs[k]);
    }
    ParseFieldsOf(bs, parts, ParseDecimalByte);
  }

  /** The colon-separated MAC form is inverted by splitting at ':' and
      reading each field as a hex byte. */
  lemma MacStringRoundTrip(bs: seq<byte>)
    requires |bs| >= 1
    ensures ParseMac(MacString(bs)) == Some(bs)
  {
    var parts := HexParts(bs);
    forall k | 0 <= k < |parts|
      ensures ':' !in parts[k]
    {
      assert parts[k] == HexByte(bs[k]);
    }
    SplitJoin(parts, ':');
    forall k | 0 <= k < |bs|
      ensures ParseHexByte(parts[k]) == Some(bs[k])
    {
      HexByteRoundTrip(bs[k]);
    }
    ParseFieldsOf(bs, parts, ParseHexByte);
  }

  /** A MAC string is empty exactly when there are no bytes. */
  lemma MacStringEmpty(bs: seq<byte>)
    ensures MacString(bs) == "" <==> |bs| == 0
  {
    if |bs| > 0 {
      var parts := HexParts(bs);
      if |parts| == 1 {
        assert |MacString(bs)| == 2;
      } else {
        assert |MacString(bs)| >= |parts[0]| + 1;
      }
    }
  }
}
