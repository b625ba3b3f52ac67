/** IP address and netmask values (`IPBase`, `IPv4`, `IPv6`, `IPNetBase`).

    An address is a number below `2^Width(family)` that is `ByteCount(family)`
    bytes wide, together with the text `_ip` holds: either the caller's text
    or, for values built from numbers, `inet_ntop` of the packed number.
    The text codec of the platform (`inet_pton`, `inet_ntop`) is a parameter;
    everything numeric is computed here. */
module Ip {
  import opened Base
  import opened Pow
  import opened Bits
  import opened Bytes
  import opened Text

  /** The socket address family an address class uses with `inet_pton`
      and `inet_ntop`. */
  datatype AddressFamily = AfInet | AfInet6

  /** The class attributes of an address class: its address family and
      `byteCount`. */
  datatype Family = Family(af: AddressFamily, byteCount: nat)

  const IPv4: Family := Family(AfInet, 4)
  const IPv6: Family := Family(AfInet6, 16)

  function ByteCount(f: Family): nat {
    f.byteCount
  }

  function Width(f: Family): nat {
    8 * ByteCount(f)
  }

  /** The platform's `inet_pton` (None when it rejects the text) and
      `inet_ntop`. */
  type Pton = (Family, string) -> Option<seq<byte>>
  type Ntop = (Family, seq<byte>) -> string

  /** What `_ip` holds. */
  datatype IpText = Given(text: string) | Rendered

  datatype IP = IP(family: Family, isNetmask: bool, number: nat, stored: IpText)

  predicate Valid(a: IP) {
    a.number < Pow2(Width(a.family))
  }

  /** A constructor argument: an integer, a text, or an existing address
      (which `asIP` returns as it is). */
  datatype Address = AddrNumber(n: int) | AddrText(s: string) | AddrValue(ip: IP)

  // ------------------------------------------------------------ construction

  /** `_setIPNumber(n)`: pack the low `ByteCount` bytes big-endian and keep
      them; `_getIPNumber` reads back exactly `n` when `0 <= n < 2^Width`
      (`FromNumberTruncates` gives the general case). */
  function FromNumber(f: Family, n: int, isNetmask: bool): (r: IP)
    ensures r.family == f && r.isNetmask == isNetmask && r.stored == Rendered
    ensures 0 <= n < Pow2(Width(f)) ==> r.number == n
    ensures Valid(r)
  {
    IP(f, isNetmask, Pack(n, ByteCount(f)), Rendered)
  }

  /** Any integer, negative or too wide, keeps its low `Width` bits: the
      number read back is `n mod 2^Width`. */
  lemma FromNumberTruncates(f: Family, n: int, isNetmask: bool)
    ensures FromNumber(f, n, isNetmask).number == n % Pow2(Width(f))
  {
    FromToBytes(n, ByteCount(f));
  }

  /** An in-range number is stored as it is. */
  lemma SetIPNumberInRange(f: Family, n: int, isNetmask: bool)
    requires 0 <= n < Pow2(Width(f))
    ensures FromNumber(f, n, isNetmask) == IP(f, isNetmask, n, Rendered)
  {
  }

  /** The netmask a digit string `k` denotes: `max ^ ((1 << k) - 1)`, which
      already lies in the family's width, so `_setIPNumber` keeps it as it is
      (`FromNumber`): the all-ones value with the low `k` bits cleared, or
      zero once `k` reaches the width. */
  function DigitNetmask(f: Family, k: nat): (r: IP)
    ensures r.isNetmask && r.family == f && Valid(r) && r.stored == Rendered
    ensures r.number == (if k <= Width(f) then Pow2(Width(f)) - Pow2(k) else 0)
  {
    IP(f, true, HostBitsCleared(Width(f), k), Rendered)
  }

  /** `_setIP(text)`: a digit string given for a netmask is a host-bit count;
      any other text is kept as given and its number is what `inet_pton`
      packs.  The source defers the `inet_pton` failure to the first numeric
      use; here it is reported at construction. */
  function FromText(f: Family, s: string, isNetmask: bool, pton: Pton): (r: Result<IP>)
    ensures r.Ok? ==> r.value.family == f && r.value.isNetmask == isNetmask && Valid(r.value)
    ensures isNetmask && IsDigits(s) ==> r == Ok(DigitNetmask(f, ParseDecimal(s)))
    ensures !(isNetmask && IsDigits(s)) ==>
              (r.Ok? <==> pton(f, s).Some? && |pton(f, s).value| == ByteCount(f))
    ensures r.Ok? && !(isNetmask && IsDigits(s)) ==>
              r.value.stored == Given(s) && ToBytes(r.value.number, ByteCount(f)) == pton(f, s).value
  {
    if isNetmask && IsDigits(s) then
      Ok(DigitNetmask(f, ParseDecimal(s)))
    else
      match pton(f, s)
      case None => Err(IllegalAddress)
      case Some(packed) =>
        if |packed| != ByteCount(f) then Err(IllegalAddress)
        else
          FromBytesBound(packed);
          ToFromBytes(packed);
          Ok(IP(f, isNetmask, FromBytes(packed), Given(s)))
  }

  /** `asIP(ip, isNetmask)`: an address object is returned unchanged, an
      integer goes through `_setIPNumber`, a text through `_setIP`. */
  function AsIP(f: Family, a: Address, isNetmask: bool, pton: Pton): Result<IP> {
    match a
    case AddrValue(ip) => Ok(ip)
    case AddrNumber(n) => Ok(FromNumber(f, n, isNetmask))
    case AddrText(s) => FromText(f, s, isNetmask, pton)
  }

  // ---------------------------------------------------------- comparisons

  /** `__eq__`: equal numbers. */
  predicate Eq(a: IP, b: IP) {
    a.number == b.number
  }

  /** `__ne__` is `not __eq__`. */
  predicate Ne(a: IP, b: IP) {
    !Eq(a, b)
  }

  /** `a == other` for anything `asIP` accepts: the other side is built in
      `a`'s family and the numbers are compared. */
  function EqAddress(a: IP, other: Address, pton: Pton): (r: Result<bool>)
    ensures r.Err? <==> AsIP(a.family, other, false, pton).Err?
    ensures r.Err? ==> r.error == AsIP(a.family, other, false, pton).error
    ensures r.Ok? ==> r.value == Eq(a, AsIP(a.family, other, false, pton).value)
  {
    var b :- AsIP(a.family, other, false, pton);
    Ok(Eq(a, b))
  }

  /** An integer compares equal to an address exactly when it agrees with
      the address's number in the family's width. */
  lemma EqNumberArgument(a: IP, n: int, pton: Pton)
    requires Valid(a)
    ensures EqAddress(a, AddrNumber(n), pton) == Ok(a.number == n % Pow2(Width(a.family)))
  {
    FromNumberTruncates(a.family, n, false);
  }

  /** Equality of values is equality of their packed bytes, for addresses
      of one family. */
  lemma EqIffPackedEqual(a: IP, b: IP)
    requires Valid(a) && Valid(b) && a.family == b.family
    ensures Eq(a, b) <==> ToBytes(a.number, ByteCount(a.family)) == ToBytes(b.number, ByteCount(b.family))
    ensures Ne(a, b) <==> !Eq(a, b)
  {
    var c := ByteCount(a.family);
    if ToBytes(a.number, c) == ToBytes(b.number, c) {
      FromToBytesExact(a.number, c);
      FromToBytesExact(b.number, c);
    }
  }

  /** Integers given to the constructor compare equal exactly when they
      agree in the family's width (so `IPv4(2**32) == IPv4(0)`). */
  lemma EqFromNumbers(f: Family, n: int, m: int)
    ensures Eq(FromNumber(f, n, false), FromNumber(f, m, false)) <==> n % Pow2(Width(f)) == m % Pow2(Width(f))
  {
    FromNumberTruncates(f, n, false);
    FromNumberTruncates(f, m, false);
  }

  // ------------------------------------------------------------- operators

  /** `~a`: `asIP(~n)`, i.e. `_setIPNumber(-n - 1)`, which is the width's
      complement `2^Width - 1 - n`.  The result is never a netmask. */
  function Invert(a: IP): (r: IP)
    ensures r.family == a.family && !r.isNetmask && Valid(r)
    ensures Valid(a) ==> r.number == Pow2(Width(a.family)) - 1 - a.number
  {
    FromNumber(a.family, -(a.number as int) - 1, false)
  }

  /** `a & other`, `a | other`, `a ^ other` (and the reflected forms, which
      agree by `BitwiseCommutes`): the width-`W` bitwise value, which lies in
      range, so `asIP` stores it unchanged (`SetIPNumberInRange`); the result
      is a plain address. */
  function Op(op: BitOp, a: IP, other: int): (r: IP)
    ensures r.family == a.family && !r.isNetmask && Valid(r) && r.stored == Rendered
  {
    BitwiseBound(op, a.number, other, Width(a.family));
    IP(a.family, false, Bitwise(op, a.number, other, Width(a.family)), Rendered)
  }

  /** Each bit of an operator's result combines the operands' bits at the
      same position. */
  lemma OpBits(op: BitOp, a: IP, other: int, i: nat)
    requires i < Width(a.family)
    ensures BitSet(Op(op, a, other).number, i) == Combine(op, BitSet(a.number, i), BitSet(other, i))
  {
    BitwiseBits(op, a.number, other, Width(a.family), i);
  }

  /** `inNetwork(first, *rest)`: every further address has the same masked
      value as the first. */
  function InNetwork(mask: IP, first: IP, rest: seq<IP>): (r: bool)
    ensures r <==> forall k :: 0 <= k < |rest| ==>
                     Eq(Op(AndOp, rest[k], mask.number), Op(AndOp, first, mask.number))
    decreases |rest|
  {
    if |rest| == 0 then true
    else if Ne(Op(AndOp, first, mask.number), Op(AndOp, rest[0], mask.number)) then false
    else InNetwork(mask, first, rest[1..])
  }

  // ------------------------------------------------------ short netmasks

  /** The key the class body stores for `i`: `max & ~((1 << i) - 1)`. */
  function ShortKey(w: nat, i: nat): (key: nat)
    requires i <= w
    ensures key == Pow2(w) - Pow2(i)
  {
    MaskLowClear(w, i);
    Bitwise(AndOp, Pow2(w) - 1, -(Pow2(i) as int), w)
  }

  /** The table built for `i` in `0 .. n-1`, later entries overwriting. */
  function ShortTableUpTo(w: nat, n: nat): map<nat, nat>
    requires n <= w + 1
    decreases n
  {
    if n == 0 then map[] else ShortTableUpTo(w, n - 1)[ShortKey(w, n - 1) := n - 1]
  }

  /** `_shortNetmasks`, for `i` in `0 .. Width`. */
  function ShortTable(f: Family): map<nat, nat> {
    ShortTableUpTo(Width(f), Width(f) + 1)
  }

  /** Entries of the partial table are exactly `ShortKey(w, i) -> i` for
      `i < n`. */
  lemma {:induction false} ShortTableUpToEntries(w: nat, n: nat)
    requires n <= w + 1
    ensures forall i :: 0 <= i < n ==> ShortKey(w, i) in ShortTableUpTo(w, n)
                                       && ShortTableUpTo(w, n)[ShortKey(w, i)] == i
    ensures forall key :: key in ShortTableUpTo(w, n) ==>
              ShortTableUpTo(w, n)[key] < n && key == ShortKey(w, ShortTableUpTo(w, n)[key])
    decreases n
  {
    if n > 0 {
      var prev, k := ShortTableUpTo(w, n - 1), ShortKey(w, n - 1);
      assert ShortTableUpTo(w, n) == prev[k := n - 1];
      ShortTableUpToEntries(w, n - 1);
      forall i | 0 <= i < n - 1
        ensures ShortKey(w, i) != k
      {
        Pow2Strict(i, n - 1);
      }
    }
  }

  /** The short table maps a value to `i` exactly when the value is the
      all-ones value with the low `i` bits cleared, `0 <= i <= Width`. */
  lemma ShortTableMeaning(f: Family, v: nat, i: nat)
    ensures (v in ShortTable(f) && ShortTable(f)[v] == i) <==> (i <= Width(f) && v == Pow2(Width(f)) - Pow2(i))
  {
    var w := Width(f);
    ShortTableUpToEntries(w, w + 1);
    if i <= w && v == Pow2(w) - Pow2(i) {
      assert v == ShortKey(w, i);
    }
  }

  /** What `_getIP()` returns: the text given, or `inet_ntop` of the packed
      number. */
  function StoredText(a: IP, ntop: Ntop): string {
    match a.stored
    case Given(s) => s
    case Rendered => ntop(a.family, ToBytes(a.number, ByteCount(a.family)))
  }

  /** `asStr(short)`: a netmask found in the short table renders as its
      table entry in decimal; anything else renders its stored text. */
  function AsStr(a: IP, short: bool, ntop: Ntop): string {
    if short && a.isNetmask && a.number in ShortTable(a.family)
    then Decimal(ShortTable(a.family)[a.number])
    else StoredText(a, ntop)
  }

  /** Short rendering: a netmask whose number is `2^W - 2^i` renders as
      `str(i)`; any other number, any non-netmask, or `short == False`
      renders the stored text. */
  lemma AsStrMeaning(a: IP, short: bool, ntop: Ntop, i: nat)
    ensures (short && a.isNetmask && i <= Width(a.family) && a.number == Pow2(Width(a.family)) - Pow2(i))
              ==> AsStr(a, short, ntop) == Decimal(i)
    ensures !short || !a.isNetmask ==> AsStr(a, short, ntop) == StoredText(a, ntop)
    ensures (forall j :: 0 <= j <= Width(a.family) ==> a.number != Pow2(Width(a.family)) - Pow2(j))
              ==> AsStr(a, short, ntop) == StoredText(a, ntop)
  {
    ShortTableMeaning(a.family, a.number, i);
    if a.number in ShortTable(a.family) {
      ShortTableMeaning(a.family, a.number, ShortTable(a.family)[a.number]);
    }
  }

  /** Digit netmask text and short rendering invert each other:
      `asStr` of the netmask built from `str(k)` is `str(k)`. */
  lemma DigitNetmaskRoundTrip(f: Family, k: nat, pton: Pton, ntop: Ntop)
    requires k <= Width(f)
    ensures FromText(f, Decimal(k), true, pton).Ok?
    ensures AsStr(FromText(f, Decimal(k), true, pton).value, true, ntop) == Decimal(k)
  {
    DecimalRoundTrip(k);
    AsStrMeaning(DigitNetmask(f, k), true, ntop, k);
  }

  // -------------------------------------------------------------- networks

  /** `IPNetBase`: an address and an optional netmask. */
  datatype IPNet = IPNet(ip: IP, netmask: Option<IP>)

  predicate ValidNet(n: IPNet) {
    Valid(n.ip) && (n.netmask.Some? ==> Valid(n.netmask.value) && n.netmask.value.family == n.ip.family)
  }

  /** A netmask argument as `_splitIPandNetmask` sees it. */
  datatype MaskArg = MaskText(s: string) | MaskNumber(n: int)

  /** `_splitIPandNetmask(ip, netmask)`: a text is split at its first '/';
      a netmask given both ways must agree, otherwise `ValueError`; anything
      but text is passed through. */
  function SplitIPandNetmask(ip: Address, netmask: Option<MaskArg>): (r: Result<(Address, Option<MaskArg>)>)
    ensures !ip.AddrText? ==> r == Ok((ip, netmask))
    ensures ip.AddrText? && '/' !in ip.s ==> r == Ok((ip, netmask))
    ensures ip.AddrText? && '/' in ip.s ==>
              var j := IndexOf(ip.s, '/').value;
              var head, tail := ip.s[..j], ip.s[j + 1..];
              && ip.s == head + ['/'] + tail
              && '/' !in head
              && (r.Err? <==> netmask.Some? && netmask.value != MaskText(tail))
              && (r.Ok? ==> r.value == (AddrText(head), Some(MaskText(tail))))
  {
    match ip
    case AddrText(s) =>
      (match IndexOf(s, '/')
       case None => Ok((ip, netmask))
       case Some(j) =>
         assert s == s[..j] + ['/'] + s[j + 1..];
         var tail := s[j + 1..];
         if netmask.Some? && netmask.value != MaskText(tail) then Err(ValueError)
         else Ok((AddrText(s[..j]), Some(MaskText(tail)))))
    case _ => Ok((ip, netmask))
  }

  /** Python truthiness of a netmask argument. */
  predicate MaskTruthy(m: Option<MaskArg>) {
    match m
    case None => false
    case Some(MaskText(s)) => s != ""
    case Some(MaskNumber(n)) => n != 0
  }

  function MaskAddress(m: MaskArg): Address {
    match m
    case MaskText(s) => AddrText(s)
    case MaskNumber(n) => AddrNumber(n)
  }

  /** `IPNetBase(ip, netmask)` / `setIP`: split, build the address, and set
      the netmask only when the argument is truthy. */
  function MakeNet(f: Family, ip: Address, netmask: Option<MaskArg>, pton: Pton): (r: Result<IPNet>)
    ensures SplitIPandNetmask(ip, netmask).Err? ==> r == Err(ValueError)
    ensures r.Ok? && !ip.AddrValue? ==> r.value.ip.family == f && Valid(r.value.ip) && !r.value.ip.isNetmask
    ensures r.Ok? ==> (r.value.netmask.Some? <==> MaskTruthy(SplitIPandNetmask(ip, netmask).value.1))
    ensures r.Ok? && r.value.netmask.Some? ==>
              r.value.netmask.value.isNetmask && r.value.netmask.value.family == f && Valid(r.value.netmask.value)
    ensures SplitIPandNetmask(ip, netmask).Ok? ==>
              var split := SplitIPandNetmask(ip, netmask).value;
              && (AsIP(f, split.0, false, pton).Err? ==> r == Err(AsIP(f, split.0, false, pton).error))
              && (r.Ok? ==> r.value.ip == AsIP(f, split.0, false, pton).value)
              && (AsIP(f, split.0, false, pton).Ok? && MaskTruthy(split.1) ==>
                    r == (match AsIP(f, MaskAddress(split.1.value), true, pton)
                          case Err(e) => Err(e)
                          case Ok(mask) => Ok(IPNet(AsIP(f, split.0, false, pton).value, Some(mask)))))
  {
    var (ipPart, maskPart) :- SplitIPandNetmask(ip, netmask);
    var addr :- AsIP(f, ipPart, false, pton);
    if MaskTruthy(maskPart) then
      var mask :- AsIP(f, MaskAddress(maskPart.value), true, pton);
      Ok(IPNet(addr, Some(mask)))
    else Ok(IPNet(addr, None))
  }

  /** `network`: `ip & netmask`, the address with its host bits
      cleared. */
  function Network(n: IPNet): (r: Result<IP>)
    ensures r.Err? <==> n.netmask.None?
    ensures n.netmask.None? ==> r == Err(TypeError)
    ensures r.Ok? ==> !r.value.isNetmask && Valid(r.value) && r.value.family == n.ip.family
    ensures r.Ok? ==> forall i | 0 <= i < Width(n.ip.family) ::
              BitSet(r.value.number, i) == (BitSet(n.ip.number, i) && BitSet(n.netmask.value.number, i))
  {
    match n.netmask
    case None => Err(TypeError)
    case Some(m) =>
      BitwiseAllBits(AndOp, n.ip.number, m.number, Width(n.ip.family));
      Ok(Op(AndOp, n.ip, m.number))
  }

  /** `local`: `ip & ~netmask`, the address with its network bits
      cleared. */
  function Local(n: IPNet): (r: Result<IP>)
    ensures r.Err? <==> n.netmask.None?
    ensures n.netmask.None? ==> r == Err(TypeError)
    ensures r.Ok? ==> !r.value.isNetmask && Valid(r.value) && r.value.family == n.ip.family
    ensures r.Ok? && ValidNet(n) ==> forall i | 0 <= i < Width(n.ip.family) ::
              BitSet(r.value.number, i) == (BitSet(n.ip.number, i) && !BitSet(n.netmask.value.number, i))
  {
    match n.netmask
    case None => Err(TypeError)
    case Some(m) =>
      BitwiseAllBits(AndOp, n.ip.number, Invert(m).number, Width(n.ip.family));
      ComplementAllBits(m.number, Width(m.family));
      Ok(Op(AndOp, n.ip, Invert(m).number))
  }

  /** `broadcast`: `(netmask & ip) | ~netmask`, the address with every
      host bit set. */
  function Broadcast(n: IPNet): (r: Result<IP>)
    ensures r.Err? <==> n.netmask.None?
    ensures n.netmask.None? ==> r == Err(TypeError)
    ensures r.Ok? ==> !r.value.isNetmask && Valid(r.value)
    ensures r.Ok? && ValidNet(n) ==> r.value.family == n.ip.family && forall i | 0 <= i < Width(n.ip.family) ::
              BitSet(r.value.number, i) == (BitSet(n.netmask.value.number, i) ==> BitSet(n.ip.number, i))
  {
    match n.netmask
    case None => Err(TypeError)
    case Some(m) =>
      var w := Width(m.family);
      BitwiseAllBits(AndOp, m.number, n.ip.number, w);
      BitwiseAllBits(OrOp, Op(AndOp, m, n.ip.number).number, Invert(m).number, w);
      ComplementAllBits(m.number, w);
      Ok(Op(OrOp, Op(AndOp, m, n.ip.number), Invert(m).number))
  }

  /** `contains(x)`: `x` goes through `asIP` (so a text or a number is
      accepted), then `netmask.inNetwork(ip, x)`; without a netmask the
      attribute lookup on `None` fails. */
  function Contains(n: IPNet, x: Address, pton: Pton): (r: Result<bool>)
    ensures AsIP(n.ip.family, x, false, pton).Err? ==> r.Err? && r.error == AsIP(n.ip.family, x, false, pton).error
    ensures AsIP(n.ip.family, x, false, pton).Ok? && n.netmask.None? ==> r == Err(AttributeError)
    ensures AsIP(n.ip.family, x, false, pton).Ok? && n.netmask.Some? ==>
              var other := AsIP(n.ip.family, x, false, pton).value;
              var m := n.netmask.value.number;
              r == Ok(Op(AndOp, other, m).number == Op(AndOp, n.ip, m).number)
  {
    var other :- AsIP(n.ip.family, x, false, pton);
    match n.netmask
    case None => Err(AttributeError)
    case Some(m) => Ok(InNetwork(m, n.ip, [other]))
  }

  /** Network and local part split the address: their `|` is the address
      and their `&` is zero. */
  lemma NetworkLocalPartition(n: IPNet)
    requires ValidNet(n) && n.netmask.Some?
    ensures Network(n).Ok? && Local(n).Ok?
    ensures Op(OrOp, Network(n).value, Local(n).value.number).number == n.ip.number
    ensures Op(AndOp, Network(n).value, Local(n).value.number).number == 0
  {
    var a, m := n.ip, n.netmask.value;
    AndComplementPartition(a.number, m.number, Width(a.family));
  }

  /** A net contains its own address, its network address and its
      broadcast address. */
  lemma ContainsOwnAddresses(n: IPNet)
    requires ValidNet(n) && n.netmask.Some?
    ensures forall pton: Pton :: Contains(n, AddrValue(n.ip), pton) == Ok(true)
    ensures Network(n).Ok? && forall pton: Pton :: Contains(n, AddrValue(Network(n).value), pton) == Ok(true)
    ensures Broadcast(n).Ok? && forall pton: Pton :: Contains(n, AddrValue(Broadcast(n).value), pton) == Ok(true)
  {
    var a, m := n.ip, n.netmask.value;
    AndMaskIdempotent(a.number, m.number, Width(a.family));
    BroadcastMasked(a.number, m.number, Width(a.family));
  }

  /** `contains` is membership in the network: an address is contained
      exactly when masking it gives the network address. */
  lemma ContainsIffSameNetwork(n: IPNet, x: IP, pton: Pton)
    requires n.netmask.Some?
    ensures Contains(n, AddrValue(x), pton) == Ok(Eq(Op(AndOp, x, n.netmask.value.number), Network(n).value))
  {
  }

  // -------------------------------------------------- convenience functions

  /** `guessIPFamily`: two or more colons is IPv6, else exactly three dots
      is IPv4, else `ValueError`. */
  function GuessIPFamily(s: string): (r: Result<Family>)
    ensures r == Ok(IPv6) <==> Count(s, ':') >= 2
    ensures r == Ok(IPv4) <==> Count(s, ':') < 2 && Count(s, '.') == 3
    ensures r.Err? <==> Count(s, ':') < 2 && Count(s, '.') != 3
  {
    if Count(s, ':') >= 2 then Ok(IPv6)
    else if Count(s, '.') == 3 then Ok(IPv4)
    else Err(ValueError)
  }

  lemma {:induction false} CountJoin(parts: seq<string>, sep: char, c: char)
    requires forall k :: 0 <= k < |parts| ==> c !in parts[k]
    ensures Count(Join(parts, sep), c) == (if c == sep && |parts| > 0 then |parts| - 1 else 0)
    decreases |parts|
  {
    if |parts| == 1 {
      CountAbsent(parts[0], c);
    } else if |parts| > 1 {
      CountJoin(parts[1..], sep, c);
      CountAppend(parts[0] + [sep], Join(parts[1..], sep), c);
      CountAppend(parts[0], [sep], c);
      CountAbsent(parts[0], c);
    }
  }

  lemma {:induction false} CountAbsent(s: string, c: char)
    requires c !in s
    ensures Count(s, c) == 0
    decreases |s|
  {
    if |s| > 0 {
      CountAbsent(s[1..], c);
    }
  }

  lemma {:induction false} CountAppend(s: string, t: string, c: char)
    ensures Count(s + t, c) == Count(s, c) + Count(t, c)
    decreases |s|
  {
    if |s| > 0 {
      assert (s + t)[1..] == s[1..] + t;
      CountAppend(s[1..], t, c);
    } else {
      assert s + t == t;
    }
  }

  /** Four bytes in dotted decimal are recognised as IPv4. */
  lemma GuessDottedQuad(bs: seq<byte>)
    requires |bs| == 4
    ensures GuessIPFamily(DottedDecimal(bs)) == Ok(IPv4)
  {
    var parts := DecimalParts(bs);
    forall k | 0 <= k < |parts|
      ensures '.' !in parts[k] && ':' !in parts[k]
    {
      DecimalHasNoSeparator(bs[k], '.');
      DecimalHasNoSeparator(bs[k], ':');
    }
    CountJoin(parts, '.', '.');
    CountJoin(parts, '.', ':');
  }

  /** `ip(text, isNetmask, afamily)`: the family is guessed from the text
      when not given.  (`normalize`, a name-resolution round trip, is not
      part of this model.) */
  function IpOf(s: string, isNetmask: bool, family: Option<Family>, pton: Pton): (r: Result<IP>)
    ensures family.None? && GuessIPFamily(s).Err? ==> r == Err(ValueError)
    ensures r.Ok? ==> r.value.isNetmask == isNetmask && Valid(r.value)
    ensures r.Ok? ==> r.value.family == if family.Some? then family.value else GuessIPFamily(s).value
    ensures r.Ok? && !(isNetmask && IsDigits(s)) ==>
              && r.value.stored == Given(s)
              && Some(ToBytes(r.value.number, ByteCount(r.value.family))) == pton(r.value.family, s)
    ensures family.Some? || GuessIPFamily(s).Ok? ==>
              var f := if family.Some? then family.value else GuessIPFamily(s).value;
              && (isNetmask && IsDigits(s) ==> r == Ok(DigitNetmask(f, ParseDecimal(s))))
              && (!(isNetmask && IsDigits(s)) ==> (r.Ok? <==> pton(f, s).Some? && |pton(f, s).value| == ByteCount(f)))
    ensures r.Err? ==> r.error == if family.None? && GuessIPFamily(s).Err? then ValueError else IllegalAddress
  {
    var f :- if family.Some? then Ok(family.value) else GuessIPFamily(s);
    FromText(f, s, isNetmask, pton)
  }

  /** An address read from its text renders that text back, and a guessed
      family is the one the text's shape names. */
  lemma IpOfText(s: string, isNetmask: bool, pton: Pton, ntop: Ntop)
    requires !(isNetmask && IsDigits(s))
    requires IpOf(s, isNetmask, None, pton).Ok?
    ensures AsStr(IpOf(s, isNetmask, None, pton).value, false, ntop) == s
    ensures Count(s, ':') >= 2 ==> IpOf(s, isNetmask, None, pton).value.family == IPv6
    ensures Count(s, ':') < 2 ==> IpOf(s, isNetmask, None, pton).value.family == IPv4
  {
  }

  /** `ipnet(text, netmask, afamily)` as written: the family is guessed
      from the whole text, netmask included. */
  function IpNetOfAsWritten(s: string, netmask: Option<MaskArg>, family: Option<Family>, pton: Pton)
    : (r: Result<IPNet>)
    ensures family.Some? ==> r == MakeNet(family.value, AddrText(s), netmask, pton)
    ensures family.None? && GuessIPFamily(s).Err? ==> r == Err(ValueError)
    ensures family.None? && GuessIPFamily(s).Ok? ==> r == MakeNet(GuessIPFamily(s).value, AddrText(s), netmask, pton)
  {
    var f :- if family.Some? then Ok(family.value) else GuessIPFamily(s);
    MakeNet(f, AddrText(s), netmask, pton)
  }

  /** The dots and colons of a dotted quad. */
  lemma DottedQuadCounts(bs: seq<byte>)
    requires |bs| == 4
    ensures Count(DottedDecimal(bs), '.') == 3 && Count(DottedDecimal(bs), ':') == 0
  {
    var parts := DecimalParts(bs);
    forall k | 0 <= k < |parts|
      ensures '.' !in parts[k] && ':' !in parts[k]
    {
      DecimalHasNoSeparator(bs[k], '.');
      DecimalHasNoSeparator(bs[k], ':');
    }
    CountJoin(parts, '.', '.');
    CountJoin(parts, '.', ':');
  }

  /** An IPv4 net written with a dotted netmask, `"a.b.c.d/m.n.o.p"`, has
      six dots, so the written `ipnet` raises `ValueError` for it. */
  lemma IpNetDottedNetmask(a: seq<byte>, m: seq<byte>, pton: Pton)
    requires |a| == 4 && |m| == 4
    ensures IpNetOfAsWritten(DottedDecimal(a) + "/" + DottedDecimal(m), None, None, pton) == Err(ValueError)
  {
    DottedQuadCounts(a);
    DottedQuadCounts(m);
    CountAppend(DottedDecimal(a), "/", '.');
    CountAppend(DottedDecimal(a), "/", ':');
    CountAppend(DottedDecimal(a) + "/", DottedDecimal(m), '.');
    CountAppend(DottedDecimal(a) + "/", DottedDecimal(m), ':');
  }

  /** The address part of a net's text: what precedes its first '/'. */
  function AddressPart(s: string): (a: string)
    ensures '/' !in a
    ensures '/' !in s ==> a == s
    ensures '/' in s ==> |a| < |s| && s == a + ['/'] + s[|a| + 1..]
  {
    match IndexOf(s, '/')
    case None => s
    case Some(j) => s[..j]
  }

  /** `ipnet(text, netmask, afamily)` as evidently intended: the family is
      guessed from the address part alone. */
  function IpNetOf(s: string, netmask: Option<MaskArg>, family: Option<Family>, pton: Pton): (r: Result<IPNet>)
    ensures '/' !in s ==> r == IpNetOfAsWritten(s, netmask, family, pton)
    ensures family.Some? ==> r == IpNetOfAsWritten(s, netmask, family, pton)
    ensures family.None? && GuessIPFamily(AddressPart(s)).Err? ==> r == Err(ValueError)
    ensures r.Ok? && !family.Some? ==> r.value.ip.family == GuessIPFamily(AddressPart(s)).value
    ensures family.None? && GuessIPFamily(AddressPart(s)).Ok? ==>
              r == IpNetOfAsWritten(s, netmask, Some(GuessIPFamily(AddressPart(s)).value), pton)
  {
    var f :- if family.Some? then Ok(family.value) else GuessIPFamily(AddressPart(s));
    var r := MakeNet(f, AddrText(s), netmask, pton);
    assert r.Ok? ==> r.value.ip.family == f by {
      if r.Ok? {
        var split := SplitIPandNetmask(AddrText(s), netmask).value;
        assert split.0.AddrText?;
      }
    }
    r
  }

  /** With the family guessed from the address part, an IPv4 address with a
      dotted netmask is read as IPv4. */
  lemma IpNetDottedNetmaskIntended(a: seq<byte>, m: seq<byte>, pton: Pton)
    requires |a| == 4 && |m| == 4
    ensures var s := DottedDecimal(a) + "/" + DottedDecimal(m);
            IpNetOf(s, None, None, pton) == MakeNet(IPv4, AddrText(s), None, pton)
  {
    DottedQuadNoSlash(a);
    AddressPartOf(DottedDecimal(a), DottedDecimal(m));
    GuessDottedQuad(a);
  }

  /** A dotted quad holds no '/'. */
  lemma DottedQuadNoSlash(bs: seq<byte>)
    ensures '/' !in DottedDecimal(bs)
  {
    var parts := DecimalParts(bs);
    forall k | 0 <= k < |parts|
      ensures '/' !in parts[k]
    {
      DecimalHasNoSeparator(bs[k], '/');
    }
    CountJoin(parts, '.', '/');
    CountZeroAbsent(DottedDecimal(bs), '/');
  }

  lemma {:induction false} CountZeroAbsent(s: string, c: char)
    requires Count(s, c) == 0
    ensures c !in s
    decreases |s|
  {
    if |s| > 0 {
      CountZeroAbsent(s[1..], c);
      assert s == [s[0]] + s[1..];
    }
  }

  /** The address part of `a/t` is `a`. */
  lemma AddressPartOf(a: string, t: string)
    requires '/' !in a
    ensures AddressPart(a + "/" + t) == a
  {
    assert a + "/" + t == a + ['/'] + t;
    IndexOfAfter(a, t, '/');
    assert (a + ['/'] + t)[..|a|] == a;
  }

  /** `IPNetBase.asStr`: `ip/netmask` when the netmask is present and asked
      for, else the address alone. */
  function NetAsStr(n: IPNet, short: bool, incNetmask: bool, ntop: Ntop): (r: string)
    ensures incNetmask && n.netmask.Some? ==>
              r == AsStr(n.ip, short, ntop) + "/" + AsStr(n.netmask.value, short, ntop)
    ensures !(incNetmask && n.netmask.Some?) ==> r == AsStr(n.ip, short, ntop)
  {
    if incNetmask && n.netmask.Some? then AsStr(n.ip, short, ntop) + "/" + AsStr(n.netmask.value, short, ntop)
    else AsStr(n.ip, short, ntop)
  }

  /** `ipnet("a/k")` with a digit netmask reads back in its short form as
      `"a/k"`: the text is split at the '/', the address keeps its text and
      the netmask of `k` host bits renders as `k`. */
  lemma NetTextRoundTrip(f: Family, s: string, k: nat, pton: Pton, ntop: Ntop)
    requires '/' !in s && k <= Width(f)
    requires FromText(f, s, false, pton).Ok?
    ensures var r := MakeNet(f, AddrText(s + "/" + Decimal(k)), None, pton);
            && r.Ok?
            && r.value.ip == FromText(f, s, false, pton).value
            && r.value.netmask == Some(DigitNetmask(f, k))
            && NetAsStr(r.value, true, true, ntop) == s + "/" + Decimal(k)
  {
    var text := s + "/" + Decimal(k);
    assert text == s + ['/'] + Decimal(k);
    IndexOfAfter(s, Decimal(k), '/');
    assert text[..|s|] == s && text[|s| + 1..] == Decimal(k);
    DecimalRoundTrip(k);
    AsStrMeaning(DigitNetmask(f, k), true, ntop, k);
  }
}
