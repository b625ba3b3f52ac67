/** The POSIX interface listing of posix_netif.py: decoding the address
    bytes of a `sockaddr` and turning each node of the `getifaddrs(3)` list
    into an interface record.

    A `sockaddr` is taken in the layout the source declares for it (a
    length byte, a family byte and the data bytes).  `inet_ntop` and
    `if_nametoindex` are parameters. */
module PosixNetif {
  import opened Base
  import opened Bytes
  import opened Text
  import opened IfRecords
  import Ip

  /** The source's fixed value for the link-level family. */
  const AfLink: int := 18

  datatype Sockaddr = Sockaddr(saLen: byte, saFamily: byte, saData: seq<byte>)

  /** `sa_data[0:sa_len+1]`: the bytes the decoders see. */
  function Data(s: Sockaddr): (data: seq<byte>)
    ensures |data| == (if s.saLen + 1 < |s.saData| then s.saLen + 1 else |s.saData|)
    ensures data == s.saData[..|data|]
  {
    Slice(s.saData, 0, s.saLen + 1)
  }

  /** `_link`: the link-level address of a `sockaddr_dl` body, which holds
      a two-byte index, a type byte, the name, address and selector
      lengths, and then the name followed by the address.  The address is
      rendered as colon-separated hex; a body too short for the three
      length bytes is an `IndexError`. */
  function Link(data: seq<byte>): (r: Result<string>)
    ensures r.Err? <==> |data| < 6
    ensures r.Err? ==> r.error == IndexError
    ensures r.Ok? ==>
              var mac := Slice(data, 6 + data[3] as int, 6 + data[3] as int + data[4] as int);
              && (r.value == "" <==> mac == [])
              && (mac != [] ==> ParseMac(r.value) == Some(mac))
  {
    if |data| < 6 then Err(IndexError)
    else
      var mac := Slice(data, 6 + data[3] as int, 6 + data[3] as int + data[4] as int);
      MacStringEmpty(mac);
      assert mac != [] ==> ParseMac(MacString(mac)) == Some(mac) by {
        if mac != [] {
          MacStringRoundTrip(mac);
        }
      }
      Ok(MacString(mac))
  }

  /** A link body built from its fields decodes to the hardware address it
      carries. */
  lemma LinkOfLayout(index: seq<byte>, kind: byte, name: seq<byte>, mac: seq<byte>, selector: seq<byte>, rest: seq<byte>)
    requires |index| == 2 && |name| < 256 && 0 < |mac| < 256 && |selector| < 256
    ensures var data := index + [kind, |name|, |mac|, |selector|] + name + mac + selector + rest;
            Link(data).Ok? && ParseMac(Link(data).value) == Some(mac)
  {
    var data := index + [kind, |name|, |mac|, |selector|] + name + mac + selector + rest;
    assert data[3] == |name| && data[4] == |mac|;
    assert data[6 + |name|..6 + |name| + |mac|] == mac;
  }

  /** `inet_ntop` refuses a packed address of the wrong length with
      `ValueError`. */
  function Ntop(f: Ip.Family, packed: seq<byte>, ntop: Ip.Ntop): (r: Result<string>)
    ensures r.Ok? <==> |packed| == Ip.ByteCount(f)
    ensures r.Ok? ==> r.value == ntop(f, packed)
    ensures r.Err? ==> r.error == ValueError
  {
    if |packed| == Ip.ByteCount(f) then Ok(ntop(f, packed)) else Err(ValueError)
  }

  /** `_ipv4`: the four address bytes after the two-byte port. */
  function Ipv4(data: seq<byte>, ntop: Ip.Ntop): (r: Result<string>)
    ensures r.Ok? <==> |data| >= 6
  {
    Ntop(Ip.IPv4, Slice(data, 2, 6), ntop)
  }

  /** `_ipv6`: the sixteen address bytes after the port and flow label. */
  function Ipv6(data: seq<byte>, ntop: Ip.Ntop): (r: Result<string>)
    ensures r.Ok? <==> |data| >= 22
  {
    Ntop(Ip.IPv6, Slice(data, 6, 22), ntop)
  }

  /** A `sockaddr_in` body decodes to its address, whatever its port and
      padding. */
  lemma Ipv4OfLayout(port: seq<byte>, addr: seq<byte>, rest: seq<byte>, ntop: Ip.Ntop)
    requires |port| == 2 && |addr| == 4
    ensures Ipv4(port + addr + rest, ntop) == Ok(ntop(Ip.IPv4, addr))
  {
    assert (port + addr + rest)[2..6] == addr;
  }

  /** A `sockaddr_in6` body decodes to its address, whatever its port, flow
      label and scope. */
  lemma Ipv6OfLayout(port: seq<byte>, flow: seq<byte>, addr: seq<byte>, rest: seq<byte>, ntop: Ip.Ntop)
    requires |port| == 2 && |flow| == 4 && |addr| == 16
    ensures Ipv6(port + flow + addr + rest, ntop) == Ok(ntop(Ip.IPv6, addr))
  {
    assert (port + flow + addr + rest)[6..22] == addr;
  }

  /** `getAddress`: the decoder registered for the family; `None` for any
      other family.  The table is filled link, AF_INET, AF_INET6, so a later
      registration wins a clash. */
  function GetAddress(s: Sockaddr, fams: Families, ntop: Ip.Ntop): (r: Result<Option<string>>)
    ensures s.saFamily !in {AfLink, fams.inet, fams.inet6} ==> r == Ok(None)
    ensures s.saFamily == fams.inet6 ==>
              r == (match Ipv6(Data(s), ntop) case Ok(a) => Ok(Some(a)) case Err(e) => Err(e))
    ensures s.saFamily == fams.inet && s.saFamily != fams.inet6 ==>
              r == (match Ipv4(Data(s), ntop) case Ok(a) => Ok(Some(a)) case Err(e) => Err(e))
    ensures s.saFamily == AfLink && s.saFamily !in {fams.inet, fams.inet6} ==>
              r == (match Link(Data(s)) case Ok(a) => Ok(Some(a)) case Err(e) => Err(e))
    ensures r.Ok? && r.value.Some? ==> s.saFamily in {AfLink, fams.inet, fams.inet6}
  {
    var decoded: Option<Result<string>> :=
      if s.saFamily == fams.inet6 then Some(Ipv6(Data(s), ntop))
      else if s.saFamily == fams.inet then Some(Ipv4(Data(s), ntop))
      else if s.saFamily == AfLink then Some(Link(Data(s)))
      else None;
    match decoded
    case None => Ok(None)
    case Some(Ok(a)) => Ok(Some(a))
    case Some(Err(e)) => Err(e)
  }

  /** One node of the `getifaddrs(3)` list; absent pointers are `None`. */
  datatype IfaddrsNode = IfaddrsNode(
    name: string, flags: int,
    addr: Option<Sockaddr>, netmask: Option<Sockaddr>, dstaddr: Option<Sockaddr>)

  /** `p and p[0].getAddress() or None`: a missing pointer, and an empty
      or missing address, give `None`. */
  function OptionalAddress(p: Option<Sockaddr>, fams: Families, ntop: Ip.Ntop): (r: Result<Option<string>>)
    ensures p.None? ==> r == Ok(None)
    ensures p.Some? && GetAddress(p.value, fams, ntop).Err? ==> r == Err(GetAddress(p.value, fams, ntop).error)
    ensures r.Ok? ==> (r.value.Some? <==> p.Some? && Truthy(GetAddress(p.value, fams, ntop).value))
    ensures r.Ok? && r.value.Some? ==> r.value == GetAddress(p.value, fams, ntop).value
  {
    match p
    case None => Ok(None)
    case Some(s) =>
      match GetAddress(s, fams, ntop)
      case Err(e) => Err(e)
      case Ok(a) => if Truthy(a) then Ok(a) else Ok(None)
  }

  /** The address tuple `addInterface` records for a node: only the
      link, IPv4 and IPv6 families give one, with the netmask (and for
      IPv4 the destination address) after the address. */
  function EntryFor(family: int, addr: Option<string>, netmask: Option<string>, dstaddr: Option<string>, fams: Families)
    : (r: seq<AddrEntry>)
    ensures |r| <= 1
    ensures r != [] <==> family in {AfLink, fams.inet, fams.inet6}
    ensures r != [] ==> r[0].family == FamilyNumber(family) && r[0].addr == addr
    ensures r != [] && family != AfLink ==> NetmaskOf(r[0]) == netmask
    ensures r != [] ==>
      r[0].extra == (if family == AfLink then []
                     else if family == fams.inet then [netmask, dstaddr]
                     else [netmask])
  {
    if family == AfLink then [AddrEntry(FamilyNumber(family), addr, [])]
    else if family == fams.inet then [AddrEntry(FamilyNumber(family), addr, [netmask, dstaddr])]
    else if family == fams.inet6 then [AddrEntry(FamilyNumber(family), addr, [netmask])]
    else []
  }

  /** `ifaddrs.addInterface`: the `(name, record)` pair of one node.  The
      record has no description, the index `if_nametoindex` gives, the
      node's flags, and at most one address.  A decoding failure of the
      address, the netmask or the destination escapes. */
  function AddInterface(node: IfaddrsNode, fams: Families, ntop: Ip.Ntop, nameToIndex: string -> int)
    : (r: Result<(string, IfRecord)>)
    ensures r.Ok? <==> && (node.addr.Some? ==> GetAddress(node.addr.value, fams, ntop).Ok?)
                       && OptionalAddress(node.netmask, fams, ntop).Ok?
                       && OptionalAddress(node.dstaddr, fams, ntop).Ok?
    ensures r.Ok? ==> r.value.0 == node.name == r.value.1.name
    ensures r.Ok? ==> && r.value.1.adapterName.None? && r.value.1.ifIndex == nameToIndex(node.name)
                      && r.value.1.desc == "" && r.value.1.flags == node.flags
    ensures r.Ok? ==> (r.value.1.addrs != [] <==> node.addr.Some? && node.addr.value.saFamily in {AfLink, fams.inet, fams.inet6})
    ensures r.Ok? && r.value.1.addrs != [] ==>
              && |r.value.1.addrs| == 1
              && r.value.1.addrs[0].family == FamilyNumber(node.addr.value.saFamily)
              && r.value.1.addrs[0].addr == GetAddress(node.addr.value, fams, ntop).value
    ensures r.Ok? && node.addr.Some? ==>
              r.value.1.addrs == EntryFor(node.addr.value.saFamily, GetAddress(node.addr.value, fams, ntop).value,
                                          OptionalAddress(node.netmask, fams, ntop).value,
                                          OptionalAddress(node.dstaddr, fams, ntop).value, fams)
  {
    var index := nameToIndex(node.name);
    match (match node.addr
           case None => Ok(None)
           case Some(s) =>
             (match GetAddress(s, fams, ntop)
              case Err(e) => Err(e)
              case Ok(a) => Ok(Some((s.saFamily, a)))))
    case Err(e) => Err(e)
    case Ok(familyAddr) =>
      match OptionalAddress(node.netmask, fams, ntop)
      case Err(e) => Err(e)
      case Ok(netmask) =>
        match OptionalAddress(node.dstaddr, fams, ntop)
        case Err(e) => Err(e)
        case Ok(dstaddr) =>
          var entries :=
            if familyAddr.None? then []
            else EntryFor(familyAddr.value.0, familyAddr.value.1, netmask, dstaddr, fams);
          Ok((node.name, IfRecord(node.name, None, index, "", node.flags, entries)))
  }

  /** An IPv4 node whose address, netmask and destination are all
      `sockaddr_in` bodies is recorded as `(AF_INET, addr, netmask,
      dstaddr)`, the three addresses rendered by `inet_ntop`. */
  lemma AddInterfaceInet(node: IfaddrsNode, fams: Families, ntop: Ip.Ntop, nameToIndex: string -> int,
                         port: seq<byte>, a: seq<byte>, m: seq<byte>, d: seq<byte>, rest: seq<byte>)
    requires fams.inet != AfLink && fams.inet != fams.inet6
    requires |port| == 2 && |a| == 4 && |m| == 4 && |d| == 4
    requires node.addr.Some? && node.netmask.Some? && node.dstaddr.Some?
    requires node.addr.value.saFamily == node.netmask.value.saFamily == node.dstaddr.value.saFamily == fams.inet
    requires Data(node.addr.value) == port + a + rest
    requires Data(node.netmask.value) == port + m + rest
    requires Data(node.dstaddr.value) == port + d + rest
    requires ntop(Ip.IPv4, m) != "" && ntop(Ip.IPv4, d) != ""
    ensures AddInterface(node, fams, ntop, nameToIndex)
         == Ok((node.name, IfRecord(node.name, None, nameToIndex(node.name), "", node.flags,
                                    [AddrEntry(FamilyNumber(fams.inet), Some(ntop(Ip.IPv4, a)),
                                               [Some(ntop(Ip.IPv4, m)), Some(ntop(Ip.IPv4, d))])])))
  {
    Ipv4OfLayout(port, a, rest, ntop);
    Ipv4OfLayout(port, m, rest, ntop);
    Ipv4OfLayout(port, d, rest, ntop);
  }

  /** `posix_getifaddrs`: one pair per node, in list order; the first
      failure escapes. */
  function PosixGetifaddrs(nodes: seq<IfaddrsNode>, fams: Families, ntop: Ip.Ntop, nameToIndex: string -> int)
    : (r: Result<seq<(string, IfRecord)>>)
    ensures r.Ok? <==> forall i | 0 <= i < |nodes| :: AddInterface(nodes[i], fams, ntop, nameToIndex).Ok?
    ensures r.Ok? ==> |r.value| == |nodes|
    ensures r.Ok? ==> forall i | 0 <= i < |nodes| :: r.value[i] == AddInterface(nodes[i], fams, ntop, nameToIndex).value
    decreases |nodes|
  {
    if |nodes| == 0 then Ok([])
    else
      match AddInterface(nodes[0], fams, ntop, nameToIndex)
      case Err(e) => Err(e)
      case Ok(pair) =>
        assert forall i | 1 <= i < |nodes| :: nodes[i] == nodes[1..][i - 1];
        match PosixGetifaddrs(nodes[1..], fams, ntop, nameToIndex)
        case Err(e) => Err(e)
        case Ok(rest) => Ok([pair] + rest)
  }

  /** Every pair of the listing is keyed by its record's name, one per
      node and in node order. */
  lemma PosixPairsNamed(nodes: seq<IfaddrsNode>, fams: Families, ntop: Ip.Ntop, nameToIndex: string -> int)
    requires PosixGetifaddrs(nodes, fams, ntop, nameToIndex).Ok?
    ensures var pairs := PosixGetifaddrs(nodes, fams, ntop, nameToIndex).value;
            forall i | 0 <= i < |pairs| :: pairs[i].0 == pairs[i].1.name == nodes[i].name
  {
  }
}
