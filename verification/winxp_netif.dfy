/** The Windows XP interface listing of winxp_netif.py: decoding the
    `SOCKET_ADDRESS` bytes of each unicast address, with the netmask built
    from the on-link prefix length, and turning each `IP_ADAPTER_ADDRESSES`
    entry into an interface record.

    The adapter list `GetAdaptersAddresses` fills is a parameter, given as
    the sequence of its entries; `inet_ntop` is a parameter too. */
module WinxpNetif {
  import opened Base
  import opened Pow
  import opened Bits
  import opened Bytes
  import opened Text
  import opened IfRecords
  import Ip

  /** struct's `'h'` on little-endian Windows: two bytes, low first, as a
      signed 16-bit number. */
  function SignedShort(lo: byte, hi: byte): (r: int)
    ensures -0x8000 <= r < 0x8000
    ensures ToBytes(r, 2) == [hi, lo]
  {
    var v := lo + 256 * hi;
    var r := if v >= 0x8000 then v - 0x10000 else v;
    assert r / 256 == (if v >= 0x8000 then hi - 256 else hi as int);
    assert r % 256 == lo;
    assert (r / 256) % 256 == hi;
    r
  }

  /** `~((1 << (w - p)) - 1) & (2^w - 1)`: the `w`-bit mask of a prefix of
      length `p`. */
  function PrefixMask(w: nat, p: nat): (r: nat)
    requires p <= w
    ensures r == Pow2(w) - Pow2(w - p)
  {
    MaskLowClear(w, w - p);
    BitwiseCommutes(AndOp, Pow2(w) - 1, -(Pow2(w - p) as int), w);
    Bitwise(AndOp, -(Pow2(w - p) as int), Pow2(w) - 1, w)
  }

  /** The mask has exactly its top `p` bits set. */
  lemma PrefixMaskBits(w: nat, p: nat, i: nat)
    requires p <= w && i < w
    ensures BitSet(PrefixMask(w, p), i) <==> w - p <= i
  {
    HighOnesBits(w, w - p, i);
  }

  /** struct's `'!QQ'` of `(m >> 8h) & (2^8h - 1)` and `m & (2^8h - 1)`:
      two big-endian halves of `h` bytes each. */
  function PackHalves(m: int, h: nat): (bs: seq<byte>)
    ensures bs == ToBytes(m, 2 * h)
  {
    var half := 8 * h;
    var hi := Bitwise(AndOp, m / Pow2(half), Pow2(half) - 1, half);
    var lo := Bitwise(AndOp, m, Pow2(half) - 1, half);
    AndLowOnes(m / Pow2(half), half);
    AndLowOnes(m, half);
    ToBytesMod(m / Pow2(half), h);
    ToBytesMod(m, h);
    ToBytesSplit(m, h, h);
    assert h + h == 2 * h;
    ToBytes(hi, h) + ToBytes(lo, h)
  }

  /** Writing `-(2^(w-p))` in `w / 8` bytes writes the prefix mask. */
  lemma NegPowBytes(w: nat, count: nat, p: nat)
    requires w == 8 * count && p <= w
    ensures ToBytes(-(Pow2(w - p) as int), count) == ToBytes(Pow2(w) - Pow2(w - p), count)
  {
    Pow2Strict(0, 1);
    if p > 0 {
      Pow2Strict(w - p, w);
    }
    DivModUnique(-(Pow2(w - p) as int), Pow2(w), -1, Pow2(w) - Pow2(w - p));
    ToBytesMod(-(Pow2(w - p) as int), count);
  }

  /** The two halves `decode_AF_INET6` packs are the packed netmask. */
  lemma Inet6MaskBytesAre(f: Ip.Family, p: nat)
    requires p <= Ip.Width(f) && Ip.ByteCount(f) % 2 == 0
    ensures PackHalves(-(Pow2(Ip.Width(f) - p) as int), Ip.ByteCount(f) / 2) == NetmaskBytes(f, p)
  {
    var w, c := Ip.Width(f), Ip.ByteCount(f);
    var m, h := -(Pow2(w - p) as int), c / 2;
    assert w == 8 * c && 2 * h == c;
    var packed := PackHalves(m, h);
    assert packed == ToBytes(m, c);
    NegPowBytes(w, c, p);
    assert Ip.DigitNetmask(f, w - p).number == Pow2(w) - Pow2(w - p);
  }

  /** The packed netmask of family `f` whose prefix has length `p`: the
      netmask ip.py builds from `Width(f) - p` host bits, in network byte
      order. */
  function NetmaskBytes(f: Ip.Family, p: nat): seq<byte>
    requires p <= Ip.Width(f)
  {
    ToBytes(Ip.DigitNetmask(f, Ip.Width(f) - p).number, Ip.ByteCount(f))
  }

  /** Different prefix lengths pack to different netmasks. */
  lemma NetmaskBytesInjective(f: Ip.Family, pa: nat, pb: nat)
    requires pa <= Ip.Width(f) && pb <= Ip.Width(f)
    ensures NetmaskBytes(f, pa) == NetmaskBytes(f, pb) <==> pa == pb
  {
    var c := Ip.ByteCount(f);
    assert Ip.Width(f) == 8 * c;
    if NetmaskBytes(f, pa) == NetmaskBytes(f, pb) {
      HighOnesBytesInjective(c, 8 * c - pa, 8 * c - pb);
    }
  }

  /** The `count`-byte numbers with their top bits set and `k` low bits
      clear are written differently for different `k`. */
  lemma HighOnesBytesInjective(count: nat, ka: nat, kb: nat)
    requires ka <= 8 * count && kb <= 8 * count
    requires ToBytes(Pow2(8 * count) - Pow2(ka), count) == ToBytes(Pow2(8 * count) - Pow2(kb), count)
    ensures ka == kb
  {
    var top := Pow2(8 * count);
    if ka < 8 * count { Pow2Strict(ka, 8 * count); }
    if kb < 8 * count { Pow2Strict(kb, 8 * count); }
    var x, y := top - Pow2(ka), top - Pow2(kb);
    ToBytesInjective(x, y, count);
    Pow2Injective(ka, kb);
  }

  /** The mask bytes `decode_AF_INET` packs: `'!L'` of the prefix mask
      kept to the address width.  They are the netmask with `w - p` host
      bits. */
  function InetMaskBytes(f: Ip.Family, p: nat): (bs: seq<byte>)
    requires p <= Ip.Width(f)
    ensures bs == NetmaskBytes(f, p)
  {
    ToBytes(PrefixMask(Ip.Width(f), p), Ip.ByteCount(f))
  }

  /** The mask bytes `decode_AF_INET6` packs: `'!QQ'` of the high and low
      halves of `~((1 << (w - p)) - 1)`.  They are the netmask with `w - p`
      host bits too. */
  function Inet6MaskBytes(f: Ip.Family, p: nat): (bs: seq<byte>)
    requires p <= Ip.Width(f) && Ip.ByteCount(f) % 2 == 0
    ensures bs == NetmaskBytes(f, p)
  {
    Inet6MaskBytesAre(f, p);
    PackHalves(-(Pow2(Ip.Width(f) - p) as int), Ip.ByteCount(f) / 2)
  }

  /** `decode_AF_INET`: a 16-byte `sockaddr_in` gives its family, its
      address in dotted decimal, and the dotted decimal of the prefix mask.
      Any other length is a `struct.error`; a prefix longer than 32 makes a
      negative shift, a `ValueError`. */
  function DecodeInet(bytes: seq<byte>, p: nat): (r: Result<AddrEntry>)
    ensures r.Err? <==> |bytes| != 16 || p > Ip.Width(Ip.IPv4)
    ensures |bytes| != 16 ==> r == Err(StructError)
    ensures |bytes| == 16 && p > Ip.Width(Ip.IPv4) ==> r == Err(ValueError)
    ensures r.Ok? ==>
              && r.value.family == FamilyNumber(SignedShort(bytes[0], bytes[1]))
              && r.value.addr.Some? && ParseDottedDecimal(r.value.addr.value) == Some(bytes[4..8])
              && |r.value.extra| == 1 && r.value.extra[0].Some?
              && ParseDottedDecimal(r.value.extra[0].value) == Some(NetmaskBytes(Ip.IPv4, p))
  {
    if |bytes| != 16 then Err(StructError)
    else if p > Ip.Width(Ip.IPv4) then Err(ValueError)
    else
      var family := SignedShort(bytes[0], bytes[1]);
      var maskBytes := InetMaskBytes(Ip.IPv4, p);
      DottedDecimalRoundTrip(bytes[4..8]);
      DottedDecimalRoundTrip(maskBytes);
      Ok(AddrEntry(FamilyNumber(family), Some(DottedDecimal(bytes[4..8])), [Some(DottedDecimal(maskBytes))]))
  }

  /** `decode_AF_INET6` as written: after the `struct` unpacking and the
      mask computation it calls `socket.inet_ntop`, but the module imports
      only two names from `socket`, so the name `socket` is unbound and
      every well-formed address raises `NameError`. */
  function DecodeInet6AsWritten(bytes: seq<byte>, p: nat): (r: Result<AddrEntry>)
    ensures r.Err?
    ensures |bytes| != 28 ==> r.error == StructError
    ensures |bytes| == 28 && p > 128 ==> r.error == ValueError
    ensures |bytes| == 28 && p <= 128 ==> r.error == NameError
  {
    if |bytes| != 28 then Err(StructError)
    else if p > 128 then Err(ValueError)
    else Err(NameError)
  }

  /** `decode_AF_INET6` with `inet_ntop` bound: a 28-byte `sockaddr_in6`
      gives its family, its address as 32 hex digits, and the rendered
      prefix mask. */
  function DecodeInet6(bytes: seq<byte>, p: nat, ntop: Ip.Ntop): (r: Result<AddrEntry>)
    ensures r.Err? <==> |bytes| != 28 || p > Ip.Width(Ip.IPv6)
    ensures |bytes| != 28 ==> r == Err(StructError)
    ensures |bytes| == 28 && p > Ip.Width(Ip.IPv6) ==> r == Err(ValueError)
    ensures r.Ok? ==>
              && r.value.family == FamilyNumber(SignedShort(bytes[0], bytes[1]))
              && r.value.addr.Some? && ParseHexString(r.value.addr.value) == Some(bytes[8..24])
              && r.value.extra == [Some(ntop(Ip.IPv6, NetmaskBytes(Ip.IPv6, p)))]
  {
    if |bytes| != 28 then Err(StructError)
    else if p > Ip.Width(Ip.IPv6) then Err(ValueError)
    else
      var family := SignedShort(bytes[0], bytes[1]);
      HexStringRoundTrip(bytes[8..24]);
      Ok(AddrEntry(FamilyNumber(family), Some(HexString(bytes[8..24])), [Some(ntop(Ip.IPv6, Inet6MaskBytes(Ip.IPv6, p)))]))
  }

  /** Where the source decodes an IPv6 address, the bound decoder gives an
      entry and the source raises. */
  lemma DecodeInet6Unbound(bytes: seq<byte>, p: nat, ntop: Ip.Ntop)
    requires |bytes| == 28 && p <= 128
    ensures DecodeInet6AsWritten(bytes, p) == Err(NameError)
    ensures DecodeInet6(bytes, p, ntop).Ok?
  {
    assert Ip.Width(Ip.IPv6) == 128;
  }

  /** A generator that yields one decoded value: its one-element list, or
      the decoder's exception. */
  function Yield<T>(x: Result<T>): (r: Result<seq<T>>)
    ensures r.Ok? <==> x.Ok?
    ensures r.Ok? ==> r.value == [x.value]
    ensures r.Err? ==> r.error == x.error
  {
    match x
    case Ok(v) => Ok([v])
    case Err(e) => Err(e)
  }

  /** `SOCKET_ADDRESS.iterAddresses`: the decoder is chosen by the first
      byte of the address (the low byte of its family); an unknown family
      gives nothing and an empty address is an `IndexError`. */
  function SockAddressEntries(bytes: seq<byte>, p: nat, ntop: Ip.Ntop): (r: Result<seq<AddrEntry>>)
    ensures |bytes| == 0 ==> r == Err(IndexError)
    ensures r.Ok? ==> |r.value| <= 1
    ensures |bytes| > 0 && bytes[0] !in {Windows.inet, Windows.inet6} ==> r == Ok([])
    ensures |bytes| > 0 && bytes[0] == Windows.inet ==> r == Yield(DecodeInet(bytes, p))
    ensures |bytes| > 0 && bytes[0] == Windows.inet6 ==> r == Yield(DecodeInet6(bytes, p, ntop))
  {
    if |bytes| == 0 then Err(IndexError)
    else if bytes[0] == Windows.inet then Yield(DecodeInet(bytes, p))
    else if bytes[0] == Windows.inet6 then Yield(DecodeInet6(bytes, p, ntop))
    else Ok([])
  }

  /** One `IP_ADAPTER_UNICAST_ADDRESS` node: its `Length`, its
      `OnLinkPrefixLength`, and the bytes of its socket address. */
  datatype UnicastNode = UnicastNode(length: int, onLinkPrefixLength: byte, sockaddr: seq<byte>)

  /** The prefix length of a node, trusted only when the structure is the
      size this module declares. */
  function UnicastPrefix(node: UnicastNode, structSize: int): (p: nat)
    ensures p <= 255
    ensures p != 0 ==> node.length == structSize && p == node.onLinkPrefixLength
    ensures node.length == structSize ==> p == node.onLinkPrefixLength
    ensures node.length != structSize ==> p == 0
  {
    if structSize == node.length then node.onLinkPrefixLength else 0
  }

  /** The entries of several decodings, in order; the first failure
      stops the walk, as the exception does in the source's generators. */
  function Concat<T>(rs: seq<Result<seq<T>>>): (r: Result<seq<T>>)
    ensures r.Ok? <==> forall i | 0 <= i < |rs| :: rs[i].Ok?
    ensures r.Err? ==> exists i | 0 <= i < |rs| :: rs[i] == Err(r.error) && forall j | 0 <= j < i :: rs[j].Ok?
    ensures r.Ok? && (forall i | 0 <= i < |rs| :: |rs[i].value| <= 1) ==> |r.value| <= |rs|
    ensures |rs| == 1 ==> r == rs[0]
    decreases |rs|
  {
    if |rs| == 0 then Ok([])
    else
      assert forall i | 1 <= i < |rs| :: rs[i] == rs[1..][i - 1];
      match rs[0]
      case Err(x) => Err(x)
      case Ok(es) =>
        match Concat(rs[1..])
        case Err(x) =>
          assert exists i | 1 <= i < |rs| :: rs[i] == Err(x) && forall j | 0 <= j < i :: rs[j].Ok?;
          Err(x)
        case Ok(rest) =>
          assert |rs| == 1 ==> rest == [] && es + rest == es;
          Ok(es + rest)
  }

  /** Walking two lists one after the other is walking their
      concatenation: the entries of the first, then those of the second,
      and the first list's failure wins. */
  lemma {:induction false} ConcatAppend<T>(a: seq<Result<seq<T>>>, b: seq<Result<seq<T>>>)
    ensures Concat(a).Err? ==> Concat(a + b) == Concat(a)
    ensures Concat(a).Ok? ==>
      Concat(a + b) == (match Concat(b)
                        case Ok(es) => Ok(Concat(a).value + es)
                        case Err(e) => Err(e))
    decreases |a|
  {
    if |a| == 0 {
      assert a + b == b;
      assert Concat(b).Ok? ==> Concat(a).value + Concat(b).value == Concat(b).value;
    } else {
      assert (a + b)[1..] == a[1..] + b;
      ConcatAppend(a[1..], b);
      if a[0].Ok? && Concat(a[1..]).Ok? && Concat(b).Ok? {
        assert a[0].value + (Concat(a[1..]).value + Concat(b).value)
            == (a[0].value + Concat(a[1..]).value) + Concat(b).value;
      }
    }
  }

  /** One decoding per node, in list order. */
  function MapNodes<T>(nodes: seq<UnicastNode>, decode: UnicastNode -> T): (rs: seq<T>)
    ensures |rs| == |nodes|
    ensures forall i | 0 <= i < |nodes| :: rs[i] == decode(nodes[i])
  {
    seq(|nodes|, i requires 0 <= i < |nodes| => decode(nodes[i]))
  }

  lemma MapAppend<T>(xs: seq<UnicastNode>, ys: seq<UnicastNode>, decode: UnicastNode -> T)
    ensures MapNodes(xs + ys, decode) == MapNodes(xs, decode) + MapNodes(ys, decode)
  {
    var all, front, back := MapNodes(xs + ys, decode), MapNodes(xs, decode), MapNodes(ys, decode);
    forall i | 0 <= i < |all|
      ensures all[i] == (front + back)[i]
    {
      if i < |xs| {
        assert (xs + ys)[i] == xs[i];
      } else {
        assert (xs + ys)[i] == ys[i - |xs|];
      }
    }
  }

  /** The decoding of each node with the one prefix length `p`. */
  function ListDecodings(nodes: seq<UnicastNode>, p: nat, ntop: Ip.Ntop): (rs: seq<Result<seq<AddrEntry>>>)
    ensures |rs| == |nodes|
    ensures forall i | 0 <= i < |nodes| :: rs[i] == SockAddressEntries(nodes[i].sockaddr, p, ntop)
  {
    MapNodes(nodes, (node: UnicastNode) => SockAddressEntries(node.sockaddr, p, ntop))
  }

  /** `linkedListIterAddresses(prefixLen)`: the entries of every node, in
      list order, all decoded with the one prefix length. */
  function ListEntries(nodes: seq<UnicastNode>, p: nat, ntop: Ip.Ntop): (r: Result<seq<AddrEntry>>)
    ensures r.Ok? <==> forall i | 0 <= i < |nodes| :: SockAddressEntries(nodes[i].sockaddr, p, ntop).Ok?
    ensures r.Ok? ==> |r.value| <= |nodes|
    ensures |nodes| == 1 ==> r == SockAddressEntries(nodes[0].sockaddr, p, ntop)
  {
    var rs := ListDecodings(nodes, p, ntop);
    assert |nodes| == 1 ==> rs[0] == SockAddressEntries(nodes[0].sockaddr, p, ntop);
    Concat(rs)
  }

  /** Decoding a list split in two decodes each part in turn. */
  lemma ListDecodingsAppend(xs: seq<UnicastNode>, ys: seq<UnicastNode>, p: nat, ntop: Ip.Ntop)
    ensures ListDecodings(xs + ys, p, ntop) == ListDecodings(xs, p, ntop) + ListDecodings(ys, p, ntop)
  {
    MapAppend(xs, ys, (node: UnicastNode) => SockAddressEntries(node.sockaddr, p, ntop));
  }

  /** The walk over a list split in two is the walk over the first part
      followed by the walk over the second, in list order. */
  lemma ListEntriesAppend(xs: seq<UnicastNode>, ys: seq<UnicastNode>, p: nat, ntop: Ip.Ntop)
    ensures ListEntries(xs, p, ntop).Err? ==> ListEntries(xs + ys, p, ntop) == ListEntries(xs, p, ntop)
    ensures ListEntries(xs, p, ntop).Ok? ==>
      ListEntries(xs + ys, p, ntop) == (match ListEntries(ys, p, ntop)
                                        case Ok(es) => Ok(ListEntries(xs, p, ntop).value + es)
                                        case Err(e) => Err(e))
  {
    ListDecodingsAppend(xs, ys, p, ntop);
    ConcatAppend(ListDecodings(xs, p, ntop), ListDecodings(ys, p, ntop));
  }

  /** The unicast entries as the source computes them: the prefix length is
      read from the first node only and applied to the whole list. */
  function UnicastEntriesAsWritten(nodes: seq<UnicastNode>, structSize: int, ntop: Ip.Ntop): (r: Result<seq<AddrEntry>>)
    ensures nodes == [] ==> r == Ok([])
    ensures r.Ok? ==> |r.value| <= |nodes|
    ensures nodes != [] ==> r == ListEntries(nodes, UnicastPrefix(nodes[0], structSize), ntop)
  {
    if nodes == [] then Ok([]) else ListEntries(nodes, UnicastPrefix(nodes[0], structSize), ntop)
  }

  /** The decoding of each node with its own prefix length. */
  function UnicastDecodings(nodes: seq<UnicastNode>, structSize: int, ntop: Ip.Ntop): (rs: seq<Result<seq<AddrEntry>>>)
    ensures |rs| == |nodes|
    ensures forall i | 0 <= i < |nodes| ::
              rs[i] == SockAddressEntries(nodes[i].sockaddr, UnicastPrefix(nodes[i], structSize), ntop)
  {
    MapNodes(nodes, (node: UnicastNode) => SockAddressEntries(node.sockaddr, UnicastPrefix(node, structSize), ntop))
  }

  /** The unicast entries with each node's own prefix length. */
  function UnicastEntries(nodes: seq<UnicastNode>, structSize: int, ntop: Ip.Ntop): (r: Result<seq<AddrEntry>>)
    ensures r.Ok? <==> forall i | 0 <= i < |nodes| ::
              SockAddressEntries(nodes[i].sockaddr, UnicastPrefix(nodes[i], structSize), ntop).Ok?
    ensures r.Ok? ==> |r.value| <= |nodes|
    ensures |nodes| == 1 ==> r == SockAddressEntries(nodes[0].sockaddr, UnicastPrefix(nodes[0], structSize), ntop)
  {
    var rs := UnicastDecodings(nodes, structSize, ntop);
    assert |nodes| == 1 ==> rs[0] == SockAddressEntries(nodes[0].sockaddr, UnicastPrefix(nodes[0], structSize), ntop);
    Concat(rs)
  }

  /** Decoding a list split in two decodes each part in turn. */
  lemma UnicastDecodingsAppend(xs: seq<UnicastNode>, ys: seq<UnicastNode>, structSize: int, ntop: Ip.Ntop)
    ensures UnicastDecodings(xs + ys, structSize, ntop) == UnicastDecodings(xs, structSize, ntop) + UnicastDecodings(ys, structSize, ntop)
  {
    MapAppend(xs, ys, (node: UnicastNode) => SockAddressEntries(node.sockaddr, UnicastPrefix(node, structSize), ntop));
  }

  /** The corrected walk over a list split in two is the walk over the
      first part followed by the walk over the second: each node
      contributes its own decoding, in list order. */
  lemma UnicastEntriesAppend(xs: seq<UnicastNode>, ys: seq<UnicastNode>, structSize: int, ntop: Ip.Ntop)
    ensures UnicastEntries(xs, structSize, ntop).Err? ==>
      UnicastEntries(xs + ys, structSize, ntop) == UnicastEntries(xs, structSize, ntop)
    ensures UnicastEntries(xs, structSize, ntop).Ok? ==>
      UnicastEntries(xs + ys, structSize, ntop) == (match UnicastEntries(ys, structSize, ntop)
                                                    case Ok(es) => Ok(UnicastEntries(xs, structSize, ntop).value + es)
                                                    case Err(e) => Err(e))
  {
    UnicastDecodingsAppend(xs, ys, structSize, ntop);
    ConcatAppend(UnicastDecodings(xs, structSize, ntop), UnicastDecodings(ys, structSize, ntop));
  }

  /** Nodes that share a prefix length decode the same either way; in
      particular a single node always does. */
  lemma UnicastSharedPrefix(nodes: seq<UnicastNode>, structSize: int, p: nat, ntop: Ip.Ntop)
    requires forall i | 0 <= i < |nodes| :: UnicastPrefix(nodes[i], structSize) == p
    ensures UnicastEntries(nodes, structSize, ntop) == ListEntries(nodes, p, ntop)
  {
    assert UnicastDecodings(nodes, structSize, ntop) == ListDecodings(nodes, p, ntop);
  }

  /** Two decodings that each yield one entry concatenate to the pair. */
  lemma ConcatPair<T>(rs: seq<Result<seq<T>>>, x: T, y: T)
    requires |rs| == 2 && rs[0] == Ok([x]) && rs[1] == Ok([y])
    ensures Concat(rs) == Ok([x, y])
  {
    assert rs[1..] == [Ok([y])];
    assert rs[1..][1..] == [];
    assert Concat(rs[1..]) == Ok([y] + []);
    assert [y] + [] == [y] && [x] + [y] == [x, y];
  }

  /** A two-node list whose addresses each decode to one entry, with the
      first node's prefix and with each node's own. */
  lemma TwoNodes(a: seq<byte>, b: seq<byte>, pa: byte, pb: byte, structSize: int, ntop: Ip.Ntop,
                 x: AddrEntry, y: AddrEntry, z: AddrEntry)
    requires SockAddressEntries(a, pa, ntop) == Ok([x])
    requires SockAddressEntries(b, pa, ntop) == Ok([y])
    requires SockAddressEntries(b, pb, ntop) == Ok([z])
    ensures var nodes := [UnicastNode(structSize, pa, a), UnicastNode(structSize, pb, b)];
            UnicastEntriesAsWritten(nodes, structSize, ntop) == Ok([x, y])
            && UnicastEntries(nodes, structSize, ntop) == Ok([x, z])
  {
    var nodes := [UnicastNode(structSize, pa, a), UnicastNode(structSize, pb, b)];
    assert UnicastPrefix(nodes[0], structSize) == pa;
    var asWritten := ListDecodings(nodes, pa, ntop);
    ConcatPair(asWritten, x, y);
    var corrected := UnicastDecodings(nodes, structSize, ntop);
    ConcatPair(corrected, x, z);
  }

  /** An IPv4 socket address decodes to its one entry. */
  lemma InetEntry(bytes: seq<byte>, p: nat, ntop: Ip.Ntop)
    requires |bytes| == 16 && bytes[0] == Windows.inet && p <= 32
    ensures DecodeInet(bytes, p).Ok?
    ensures SockAddressEntries(bytes, p, ntop) == Ok([DecodeInet(bytes, p).value])
  {
    assert Ip.Width(Ip.IPv4) == 32;
  }

  /** Decoded with different prefix lengths, an IPv4 address carries
      different netmasks. */
  lemma InetMaskDiffers(bytes: seq<byte>, pa: nat, pb: nat)
    requires |bytes| == 16 && pa <= 32 && pb <= 32 && pa != pb
    ensures DecodeInet(bytes, pa).Ok? && DecodeInet(bytes, pb).Ok?
    ensures DecodeInet(bytes, pa).value.extra != DecodeInet(bytes, pb).value.extra
  {
    assert Ip.Width(Ip.IPv4) == 32;
    NetmaskBytesInjective(Ip.IPv4, pa, pb);
  }

  /** Two IPv4 addresses on links with different prefix lengths: the
      source decodes the second with the first one's prefix, so the two
      listings disagree on the second address's netmask while agreeing on
      the first entry. */
  lemma UnicastPrefixDiffers(a: seq<byte>, b: seq<byte>, pa: byte, pb: byte, structSize: int, ntop: Ip.Ntop)
    requires |a| == 16 && |b| == 16 && a[0] == Windows.inet && b[0] == Windows.inet
    requires pa <= 32 && pb <= 32 && pa != pb
    ensures var nodes := [UnicastNode(structSize, pa, a), UnicastNode(structSize, pb, b)];
            var wrong, right := UnicastEntriesAsWritten(nodes, structSize, ntop), UnicastEntries(nodes, structSize, ntop);
            && wrong.Ok? && right.Ok? && |wrong.value| == |right.value| == 2
            && wrong.value[0] == right.value[0] == DecodeInet(a, pa).value
            && wrong.value[1] == DecodeInet(b, pa).value
            && right.value[1] == DecodeInet(b, pb).value
            && wrong.value[1].extra != right.value[1].extra
  {
    InetEntry(a, pa, ntop);
    InetEntry(b, pa, ntop);
    InetEntry(b, pb, ntop);
    TwoNodes(a, b, pa, pb, structSize, ntop, DecodeInet(a, pa).value, DecodeInet(b, pa).value, DecodeInet(b, pb).value);
    InetMaskDiffers(b, pa, pb);
  }

  /** One `IP_ADAPTER_ADDRESSES` entry, with its unicast address list. */
  datatype Adapter = Adapter(
    ifIndex: int,
    adapterName: string,
    friendlyName: string,
    description: string,
    physicalAddress: seq<byte>,
    physicalAddressLength: nat,
    flags: int,
    unicast: seq<UnicastNode>)

  /** `IP_ADAPTER_ADDRESSES.addInteraface`: the pair keyed by the friendly
      name, a record carrying the adapter name, index, description and
      flags, and as addresses the hardware address (if any) followed by the
      unicast entries. */
  function AddInterface(a: Adapter, structSize: int, ntop: Ip.Ntop): (r: Result<(string, IfRecord)>)
    ensures r.Ok? <==> UnicastEntries(a.unicast, structSize, ntop).Ok?
    ensures r.Ok? ==>
              && r.value.0 == a.friendlyName == r.value.1.name
              && r.value.1.adapterName == Some(a.adapterName)
              && r.value.1.ifIndex == a.ifIndex
              && r.value.1.desc == a.description
              && r.value.1.flags == a.flags
    ensures r.Ok? ==>
              var mac := MacField(a.physicalAddress, a.physicalAddressLength);
              var unicast := UnicastEntries(a.unicast, structSize, ntop).value;
              r.value.1.addrs == (if mac.Some? then [mac.value] else []) + unicast
  {
    match UnicastEntries(a.unicast, structSize, ntop)
    case Err(x) => Err(x)
    case Ok(unicast) =>
      var mac := MacField(a.physicalAddress, a.physicalAddressLength);
      var addrs := (if mac.Some? then [mac.value] else []) + unicast;
      Ok((a.friendlyName, IfRecord(a.friendlyName, Some(a.adapterName), a.ifIndex, a.description, a.flags, addrs)))
  }

  /** `winxp_getifaddrs`: nothing when the size query reports no data or
      the second call fails; otherwise one pair per adapter, in list
      order. */
  function WinxpGetifaddrs(sizeNeeded: int, status: int, adapters: seq<Adapter>, structSize: int, ntop: Ip.Ntop)
    : (r: Result<seq<(string, IfRecord)>>)
    ensures sizeNeeded == 0 || status != 0 ==> r == Ok([])
    ensures sizeNeeded != 0 && status == 0 ==>
              (r.Ok? <==> forall i | 0 <= i < |adapters| :: AddInterface(adapters[i], structSize, ntop).Ok?)
    ensures sizeNeeded != 0 && status == 0 && r.Ok? ==>
              |r.value| == |adapters| &&
              forall i | 0 <= i < |adapters| :: r.value[i] == AddInterface(adapters[i], structSize, ntop).value
  {
    if sizeNeeded == 0 || status != 0 then Ok([]) else AddAll(adapters, structSize, ntop)
  }

  /** The `addInteraface` outcome of each adapter, in list order. */
  function Interfaces(adapters: seq<Adapter>, structSize: int, ntop: Ip.Ntop): (rs: seq<Result<(string, IfRecord)>>)
    ensures |rs| == |adapters|
    ensures forall i | 0 <= i < |adapters| :: rs[i] == AddInterface(adapters[i], structSize, ntop)
  {
    seq(|adapters|, i requires 0 <= i < |adapters| => AddInterface(adapters[i], structSize, ntop))
  }

  /** The loop over the adapter list; the first adapter whose addresses
      fail to decode ends the listing with that exception. */
  function AddAll(adapters: seq<Adapter>, structSize: int, ntop: Ip.Ntop): (r: Result<seq<(string, IfRecord)>>)
    ensures r.Ok? <==> forall i | 0 <= i < |adapters| :: AddInterface(adapters[i], structSize, ntop).Ok?
    ensures r.Ok? ==> |r.value| == |adapters|
    ensures r.Ok? ==> forall i | 0 <= i < |adapters| :: r.value[i] == AddInterface(adapters[i], structSize, ntop).value
    ensures r.Err? ==> exists i | 0 <= i < |adapters| :: AddInterface(adapters[i], structSize, ntop) == Err(r.error)
  {
    AllOk(Interfaces(adapters, structSize, ntop))
  }
}
