/** Socket option payloads built by `SocketSelectable` in selectTask.py:
    address reuse and `IPV6_V6ONLY`, multicast hops and loopback, the
    multicast interface selector, and the group membership request sent by
    join and leave.

    A call to `setsockopt` is modelled as the `SockOpt` value it would be
    given.  Host resolution (`_asSockAddr`), the interface lookups of
    netif.py and the `getsockopt` reply are fields of a `Host` record.
    `inet_aton`/`inet_ntoa` are the four-byte dotted-decimal codec of
    `Text`; IPv6 text goes through the platform's `inet_pton`. */
module Multicast {
  import opened Base
  import opened Pow
  import opened Bytes
  import opened Text
  import Ip
  import opened IfRecords

  /** The value of the `afamily` attribute. */
  datatype SockFamily = SockInet | SockInet6 | SockOther

  /** The byte order of struct's native `'I'` format. */
  datatype Endian = LittleEndian | BigEndian

  datatype Level = SolSocket | IpprotoIp | IpprotoIpv6

  datatype OptName =
    | SoReuseAddr | SoReusePort | SoRcvBuf | SoSndBuf
    | IpMulticastTtl | IpMulticastLoop | IpMulticastIf | IpAddMembership | IpDropMembership
    | Ipv6V6Only | Ipv6MulticastHops | Ipv6MulticastLoop | Ipv6MulticastIf
    | Ipv6JoinGroup | Ipv6LeaveGroup

  datatype OptValue = IntValue(n: int) | BytesValue(bs: seq<byte>)

  /** One `setsockopt(level, name, value)` call. */
  datatype SockOpt = SockOpt(level: Level, name: OptName, value: OptValue)

  /** The level each option is defined at: `SO_*` at `SOL_SOCKET`, `IP_*`
      at `IPPROTO_IP` and `IPV6_*` at `IPPROTO_IPV6` (section 5 of RFC 3493
      for the IPv6 ones). */
  function LevelOf(name: OptName): Level {
    match name
    case SoReuseAddr | SoReusePort | SoRcvBuf | SoSndBuf => SolSocket
    case IpMulticastTtl | IpMulticastLoop | IpMulticastIf | IpAddMembership | IpDropMembership => IpprotoIp
    case _ => IpprotoIpv6
  }

  predicate WellFormed(o: SockOpt) {
    o.level == LevelOf(o.name)
  }

  // ------------------------------------------------------ socket configuration

  /** `_socketReuseAddress`: `SO_REUSEADDR`, then `SO_REUSEPORT` where the
      platform has it, then `IPV6_V6ONLY` for IPv6 sockets that refuse
      mapped IPv4 traffic (section 5.3 of RFC 3493).  Every option is set
      to 1. */
  function ReuseAddress(fam: SockFamily, disallowMixed: bool, hasReusePort: bool): (r: seq<SockOpt>)
    ensures |r| >= 1 && r[0] == SockOpt(SolSocket, SoReuseAddr, IntValue(1))
    ensures forall i | 0 <= i < |r| :: WellFormed(r[i]) && r[i].value == IntValue(1)
    ensures (exists i | 0 <= i < |r| :: r[i].name == Ipv6V6Only) <==> fam == SockInet6 && disallowMixed
    ensures (exists i | 0 <= i < |r| :: r[i].name == SoReusePort) <==> hasReusePort
  {
    var r := [SockOpt(SolSocket, SoReuseAddr, IntValue(1))]
      + (if hasReusePort then [SockOpt(SolSocket, SoReusePort, IntValue(1))] else [])
      + (if fam == SockInet6 && disallowMixed then [SockOpt(IpprotoIpv6, Ipv6V6Only, IntValue(1))] else []);
    assert hasReusePort ==> r[1].name == SoReusePort;
    assert fam == SockInet6 && disallowMixed ==> r[|r| - 1].name == Ipv6V6Only;
    r
  }

  /** `fileno`: the socket's descriptor, or 0 when there is no socket.  0
      is also a real descriptor (standard input), so `select` cannot tell
      a socketless selectable from one on descriptor 0. */
  function Fileno(sock: Option<nat>): (fd: nat)
    ensures sock.Some? ==> fd == sock.value
    ensures sock.None? ==> fd == 0
  {
    match sock
    case Some(fd) => fd
    case None => 0
  }

  /** The descriptor `fileno` reports without a socket collides with the
      descriptor of a socket on 0. */
  lemma FilenoAmbiguous()
    ensures Fileno(None) == Fileno(Some(0))
  {
  }

  /** `_socketSetMulticastHops` (and `_socketSetMulticastTTL`, which calls
      it): the hop limit for the socket's family, nothing otherwise. */
  function SetMulticastHops(fam: SockFamily, hops: int): (r: Option<SockOpt>)
    ensures r.Some? <==> fam != SockOther
    ensures r.Some? ==> WellFormed(r.value) && r.value.value == IntValue(hops)
    ensures fam == SockInet ==> r == Some(SockOpt(IpprotoIp, IpMulticastTtl, IntValue(hops)))
    ensures fam == SockInet6 ==> r == Some(SockOpt(IpprotoIpv6, Ipv6MulticastHops, IntValue(hops)))
  {
    match fam
    case SockInet => Some(SockOpt(IpprotoIp, IpMulticastTtl, IntValue(hops)))
    case SockInet6 => Some(SockOpt(IpprotoIpv6, Ipv6MulticastHops, IntValue(hops)))
    case SockOther => None
  }

  function BoolValue(b: bool): OptValue {
    IntValue(if b then 1 else 0)
  }

  /** `_socketSetMulticastLoop` as written: for IPv6 it passes the IPv4
      option name `IP_MULTICAST_LOOP` at the `IPPROTO_IPV6` level. */
  function SetMulticastLoopAsWritten(fam: SockFamily, loop: bool): (r: Option<SockOpt>)
    ensures r.Some? <==> fam != SockOther
    ensures r.Some? ==> r.value.name == IpMulticastLoop && r.value.value == BoolValue(loop)
  {
    match fam
    case SockInet => Some(SockOpt(IpprotoIp, IpMulticastLoop, BoolValue(loop)))
    case SockInet6 => Some(SockOpt(IpprotoIpv6, IpMulticastLoop, BoolValue(loop)))
    case SockOther => None
  }

  /** For an IPv6 socket the option the source sets is not defined at the
      level it is set at. */
  lemma LoopAsWrittenMismatch(loop: bool)
    ensures SetMulticastLoopAsWritten(SockInet6, loop).Some?
    ensures !WellFormed(SetMulticastLoopAsWritten(SockInet6, loop).value)
  {
  }

  /** `_socketSetMulticastLoop` with the IPv6 option the code evidently
      means, `IPV6_MULTICAST_LOOP` (section 5.2 of RFC 3493). */
  function SetMulticastLoop(fam: SockFamily, loop: bool): (r: Option<SockOpt>)
    ensures r.Some? <==> fam != SockOther
    ensures r.Some? ==> WellFormed(r.value) && r.value.value == BoolValue(loop)
    ensures fam == SockInet6 ==> r.value.name == Ipv6MulticastLoop
    ensures fam == SockInet ==> r == SetMulticastLoopAsWritten(fam, loop)
  {
    match fam
    case SockInet => Some(SockOpt(IpprotoIp, IpMulticastLoop, BoolValue(loop)))
    case SockInet6 => Some(SockOpt(IpprotoIpv6, Ipv6MulticastLoop, BoolValue(loop)))
    case SockOther => None
  }

  // ------------------------------------------------------- packed selectors

  function Reverse(bs: seq<byte>): (r: seq<byte>)
    ensures |r| == |bs|
    ensures forall i | 0 <= i < |bs| :: r[i] == bs[|bs| - 1 - i]
    decreases |bs|
  {
    if |bs| == 0 then [] else Reverse(bs[1..]) + [bs[0]]
  }

  lemma ReverseReverse(bs: seq<byte>)
    ensures Reverse(Reverse(bs)) == bs
  {
  }

  /** Bytes in native order, given the big-endian ones. */
  function InOrder(bs: seq<byte>, e: Endian): (r: seq<byte>)
    ensures |r| == |bs|
  {
    match e
    case BigEndian => bs
    case LittleEndian => Reverse(bs)
  }

  /** `struct.pack('I', v)`: four bytes in native order; `struct.error`
      outside [0, 2^32). */
  function PackUInt32(v: int, e: Endian): (r: Result<seq<byte>>)
    ensures r.Ok? <==> 0 <= v < Pow2(32)
    ensures r.Ok? ==> |r.value| == 4 && FromBytes(InOrder(r.value, e)) == v
  {
    if 0 <= v < Pow2(32) then
      FromToBytesExact(v, 4);
      if e == LittleEndian then ReverseReverse(ToBytes(v, 4)); Ok(InOrder(ToBytes(v, 4), e))
      else Ok(InOrder(ToBytes(v, 4), e))
    else Err(StructError)
  }

  /** `socket.inet_ntoa`: dotted decimal of four bytes. */
  function Ntoa(bs: seq<byte>): string {
    DottedDecimal(bs)
  }

  /** `socket.inet_aton` on the dotted-quad form: exactly four decimal
      bytes. */
  function Aton(s: string): (r: Result<seq<byte>>)
    ensures r.Ok? ==> |r.value| == 4
  {
    match ParseDottedDecimal(s)
    case Some(bs) => if |bs| == 4 then Ok(bs) else Err(IllegalAddress)
    case None => Err(IllegalAddress)
  }

  /** `inet_aton` inverts `inet_ntoa`. */
  lemma AtonNtoa(bs: seq<byte>)
    requires |bs| == 4
    ensures Aton(Ntoa(bs)) == Ok(bs)
  {
    DottedDecimalRoundTrip(bs);
  }

  /** Python truthiness of an optional `if_address`. */
  predicate IfTruthy(a: Option<IfArg>) {
    match a
    case None => false
    case Some(IfText(s)) => s != ""
    case Some(IfNumber(n)) => n != 0
  }

  /** Python truthiness of an optional interface index. */
  predicate IndexTruthy(i: Option<int>) {
    i.Some? && i.value != 0
  }

  /** What the selector code asks of its environment. */
  datatype Host = Host(
    resolve: IfArg -> Result<string>,            // `_asSockAddr(x)[0]`: the address text getaddrinfo gives
    pton: Ip.Pton,                               // `socket.inet_pton`
    ifIndex: IfArg -> Result<Option<int>>,       // `netif.getIFIndex`, or what it raises
    ifIndexForIp: string -> Result<Option<int>>, // `netif.getIFIndexForIP(ip, AF_INET6)`, or what it raises
    multicastIf: int,                            // `getsockopt` of `IP_MULTICAST_IF` / `IPV6_MULTICAST_IF`
    native: Endian)

  /** The explicit interface's index: `getIFIndex` of a truthy
      `if_address`, and nothing for a falsy one. */
  function ExplicitIndex(ifAddress: Option<IfArg>, h: Host): Result<Option<int>> {
    if IfTruthy(ifAddress) then h.ifIndex(ifAddress.value) else Ok(None)
  }

  /** The interface index an IPv6 socket uses, chosen in order: an explicit
      interface through `getIFIndex`; the interface holding the group
      address, when a group is given; the socket's current
      `IPV6_MULTICAST_IF`.  A lookup that raises ends the choice with its
      exception. */
  function V6Selector(groupHost: Option<string>, ifAddress: Option<IfArg>, h: Host): (r: Result<int>)
    ensures ExplicitIndex(ifAddress, h).Err? ==> r == Err(ExplicitIndex(ifAddress, h).error)
    ensures ExplicitIndex(ifAddress, h).Ok? && IndexTruthy(ExplicitIndex(ifAddress, h).value) ==>
      r == Ok(ExplicitIndex(ifAddress, h).value.value)
    ensures ExplicitIndex(ifAddress, h).Ok? && !IndexTruthy(ExplicitIndex(ifAddress, h).value) && groupHost.Some? ==>
      r == (match h.ifIndexForIp(groupHost.value)
            case Err(e) => Err(e)
            case Ok(i) => Ok(if IndexTruthy(i) then i.value else h.multicastIf))
    ensures ExplicitIndex(ifAddress, h).Ok? && !IndexTruthy(ExplicitIndex(ifAddress, h).value) && groupHost.None? ==>
      r == Ok(h.multicastIf)
  {
    var explicit :- ExplicitIndex(ifAddress, h);
    var fromGroup :-
      if !IndexTruthy(explicit) && groupHost.Some? then h.ifIndexForIp(groupHost.value)
      else Ok(explicit);
    Ok(if IndexTruthy(fromGroup) then fromGroup.value else h.multicastIf)
  }

  /** The selector is always one of the three candidates, and a found
      explicit interface wins without the group lookup being made: hosts
      that differ only in that lookup choose the same index. */
  lemma V6SelectorCandidates(groupHost: Option<string>, ifAddress: Option<IfArg>, h: Host,
                             lookup: string -> Result<Option<int>>)
    ensures var r := V6Selector(groupHost, ifAddress, h);
      r.Ok? ==>
        || r.value == h.multicastIf
        || ExplicitIndex(ifAddress, h) == Ok(Some(r.value))
        || (groupHost.Some? && h.ifIndexForIp(groupHost.value) == Ok(Some(r.value)))
    ensures ExplicitIndex(ifAddress, h).Ok? && IndexTruthy(ExplicitIndex(ifAddress, h).value) ==>
      V6Selector(groupHost, ifAddress, h) == V6Selector(groupHost, ifAddress, h.(ifIndexForIp := lookup))
  {
    assert ExplicitIndex(ifAddress, h) == ExplicitIndex(ifAddress, h.(ifIndexForIp := lookup));
  }

  /** The four bytes of a packed selector as an `Option`, or the error that
      stopped the packing. */
  function Packed(r: Result<seq<byte>>): Result<Option<seq<byte>>> {
    match r
    case Ok(bs) => Ok(Some(bs))
    case Err(e) => Err(e)
  }

  /** `_socketMulticastInterfacePacked`: the interface part of a multicast
      request.  IPv4 uses the interface's four address bytes: `inet_aton`
      of the explicit interface's resolved address, else the socket's
      current `IP_MULTICAST_IF` (read as a native integer, rendered by
      `inet_ntoa` and parsed back by `inet_aton`).  IPv6 packs the chosen
      interface index as a native unsigned int.  Other families get
      `None`. */
  function InterfacePacked(fam: SockFamily, groupHost: Option<string>, ifAddress: Option<IfArg>, h: Host)
    : (r: Result<Option<seq<byte>>>)
    ensures r.Ok? ==> (r.value.Some? <==> fam != SockOther)
    ensures r.Ok? && r.value.Some? ==> |r.value.value| == 4
    ensures fam == SockOther ==> r == Ok(None)
    ensures fam == SockInet && IfTruthy(ifAddress) ==>
      r == (match h.resolve(ifAddress.value)
            case Err(e) => Err(e)
            case Ok(text) => Packed(Aton(text)))
    ensures fam == SockInet && !IfTruthy(ifAddress) ==> r == Packed(PackUInt32(h.multicastIf, h.native))
    ensures fam == SockInet6 ==>
      r == (match V6Selector(groupHost, ifAddress, h)
            case Err(e) => Err(e)
            case Ok(idx) => Packed(PackUInt32(idx, h.native)))
  {
    match fam
    case SockInet =>
      if IfTruthy(ifAddress) then
        var text :- h.resolve(ifAddress.value);
        Packed(Aton(text))
      else
        var current :- PackUInt32(h.multicastIf, h.native);
        AtonNtoa(current);
        Packed(Aton(Ntoa(current)))
    case SockInet6 =>
      var idx :- V6Selector(groupHost, ifAddress, h);
      Packed(PackUInt32(idx, h.native))
    case SockOther => Ok(None)
  }

  /** An IPv4 selector for an interface that resolves to dotted-quad text
      is that address's four bytes, and without an interface it is the
      socket's current `IP_MULTICAST_IF` in native byte order. */
  lemma InterfacePackedInet(ifAddress: Option<IfArg>, h: Host, addr: seq<byte>)
    requires |addr| == 4
    requires IfTruthy(ifAddress) ==> h.resolve(ifAddress.value) == Ok(Ntoa(addr))
    requires !IfTruthy(ifAddress) ==> addr == InOrder(ToBytes(h.multicastIf, 4), h.native)
    requires 0 <= h.multicastIf < Pow2(32)
    ensures InterfacePacked(SockInet, None, ifAddress, h) == Ok(Some(addr))
  {
    if IfTruthy(ifAddress) {
      AtonNtoa(addr);
    }
  }

  /** `_asSockAddr(group)[0]`: the group's address text, or nothing when
      no group is given. */
  function GroupHost(group: Option<IfArg>, h: Host): Result<Option<string>> {
    match group
    case None => Ok(None)
    case Some(g) =>
      match h.resolve(g)
      case Ok(t) => Ok(Some(t))
      case Err(e) => Err(e)
  }

  /** `_socketSetMulticastInterface`: sets `IP_MULTICAST_IF` or
      `IPV6_MULTICAST_IF` to the packed selector for `group` and returns
      true; other families set nothing and return false. */
  function SetMulticastInterface(fam: SockFamily, group: Option<IfArg>, ifAddress: Option<IfArg>, h: Host)
    : (r: Result<(Option<SockOpt>, bool)>)
    ensures r.Ok? <==> GroupHost(group, h).Ok? && InterfacePacked(fam, GroupHost(group, h).value, ifAddress, h).Ok?
    ensures r.Ok? ==> (r.value.0.Some? <==> r.value.1) && (r.value.1 <==> fam != SockOther)
    ensures r.Ok? && r.value.0.Some? ==> WellFormed(r.value.0.value)
    ensures r.Ok? && r.value.1 ==>
      r.value.0.value.value == BytesValue(InterfacePacked(fam, GroupHost(group, h).value, ifAddress, h).value.value)
    ensures r.Ok? && fam == SockInet ==> r.value.0.value.name == IpMulticastIf
    ensures r.Ok? && fam == SockInet6 ==> r.value.0.value.name == Ipv6MulticastIf
  {
    var groupHost :- GroupHost(group, h);
    var packed :- InterfacePacked(fam, groupHost, ifAddress, h);
    Ok(InterfaceOption(fam, packed))
  }

  /** The `*_MULTICAST_IF` option carrying a packed selector, and whether
      one is set. */
  function InterfaceOption(fam: SockFamily, packed: Option<seq<byte>>): (r: (Option<SockOpt>, bool))
    requires packed.Some? <==> fam != SockOther
    ensures (r.0.Some? <==> r.1) && (r.1 <==> fam != SockOther)
    ensures r.0.Some? ==> WellFormed(r.0.value) && r.0.value.value == BytesValue(packed.value)
    ensures fam == SockInet ==> r.0.value.name == IpMulticastIf
    ensures fam == SockInet6 ==> r.0.value.name == Ipv6MulticastIf
  {
    match fam
    case SockInet => (Some(SockOpt(IpprotoIp, IpMulticastIf, BytesValue(packed.value))), true)
    case SockInet6 => (Some(SockOpt(IpprotoIpv6, Ipv6MulticastIf, BytesValue(packed.value))), true)
    case SockOther => (None, false)
  }

  // ------------------------------------------------------ group membership

  /** `_socketMulticastGroupPack`: the group's address bytes followed by
      the interface selector, the `ip_mreq` layout for IPv4 and the
      `ipv6_mreq` layout of section 5.2 of RFC 3493 for IPv6.  The selector
      is computed without the group, so the group-address interface lookup
      is never consulted.  Another family adds `None` to the group text,
      a `TypeError`. */
  function GroupPack(fam: SockFamily, group: IfArg, ifAddress: Option<IfArg>, h: Host): (r: Result<seq<byte>>)
    ensures fam == SockOther ==> r.Err?
    ensures h.resolve(group).Err? ==> r == Err(h.resolve(group).error)
    ensures r.Ok? ==> exists g: seq<byte>, sel: seq<byte> ::
      r.value == g + sel && |sel| == 4 &&
      InterfacePacked(fam, None, ifAddress, h) == Ok(Some(sel)) &&
      h.resolve(group).Ok? &&
      (fam == SockInet ==> Aton(h.resolve(group).value) == Ok(g)) &&
      (fam == SockInet6 ==> Some(g) == h.pton(Ip.IPv6, h.resolve(group).value))
    ensures fam == SockInet && h.resolve(group).Ok? && Aton(h.resolve(group).value).Ok? &&
            InterfacePacked(fam, None, ifAddress, h).Ok? ==>
      r == Ok(Aton(h.resolve(group).value).value + InterfacePacked(fam, None, ifAddress, h).value.value)
  {
    var groupHost :- h.resolve(group);
    var iface :- InterfacePacked(fam, None, ifAddress, h);
    match fam
    case SockInet =>
      var g :- Aton(groupHost);
      Ok(g + iface.value)
    case SockInet6 =>
      (match h.pton(Ip.IPv6, groupHost)
       case None => Err(IllegalAddress)
       case Some(g) => Ok(g + iface.value))
    case SockOther => Err(TypeError)
  }

  /** Join and leave build their payload without the group-address
      lookup: two hosts that differ only in that lookup give the same
      payload. */
  lemma GroupPackIgnoresGroupLookup(fam: SockFamily, group: IfArg, ifAddress: Option<IfArg>, h: Host,
                                    lookup: string -> Result<Option<int>>)
    ensures GroupPack(fam, group, ifAddress, h) == GroupPack(fam, group, ifAddress, h.(ifIndexForIp := lookup))
  {
    var h2 := h.(ifIndexForIp := lookup);
    assert ExplicitIndex(ifAddress, h) == ExplicitIndex(ifAddress, h2);
    assert V6Selector(None, ifAddress, h) == V6Selector(None, ifAddress, h2);
    assert InterfacePacked(fam, None, ifAddress, h) == InterfacePacked(fam, None, ifAddress, h2);
  }

  /** An IPv4 membership request is the group's four address bytes then
      the interface's, the `ip_mreq` layout (`imr_multiaddr`, then
      `imr_interface`), and join sends it as `IP_ADD_MEMBERSHIP`. */
  lemma GroupPackInet(group: IfArg, ifAddress: Option<IfArg>, h: Host, g: seq<byte>, sel: seq<byte>)
    requires |g| == 4 && |sel| == 4
    requires h.resolve(group) == Ok(Ntoa(g))
    requires IfTruthy(ifAddress) ==> h.resolve(ifAddress.value) == Ok(Ntoa(sel))
    requires !IfTruthy(ifAddress) ==> sel == InOrder(ToBytes(h.multicastIf, 4), h.native)
    requires 0 <= h.multicastIf < Pow2(32)
    ensures GroupPack(SockInet, group, ifAddress, h) == Ok(g + sel)
    ensures Join(SockInet, group, ifAddress, h) == Ok(SockOpt(IpprotoIp, IpAddMembership, BytesValue(g + sel)))
  {
    AtonNtoa(g);
    InterfacePackedInet(ifAddress, h, sel);
  }

  /** The membership option of the socket's family carrying a packed
      request. */
  function MembershipOption(fam: SockFamily, v4: OptName, v6: OptName, payload: seq<byte>): (r: Result<SockOpt>)
    requires LevelOf(v4) == IpprotoIp && LevelOf(v6) == IpprotoIpv6
    ensures r.Ok? <==> fam != SockOther
    ensures r.Ok? ==> WellFormed(r.value) && r.value.value == BytesValue(payload)
    ensures r.Ok? ==> r.value.name == (if fam == SockInet then v4 else v6)
  {
    match fam
    case SockInet => Ok(SockOpt(IpprotoIp, v4, BytesValue(payload)))
    case SockInet6 => Ok(SockOpt(IpprotoIpv6, v6, BytesValue(payload)))
    case SockOther => Err(TypeError)
  }

  /** `_socketMulticastGroupJoin`. */
  function Join(fam: SockFamily, group: IfArg, ifAddress: Option<IfArg>, h: Host): (r: Result<SockOpt>)
    ensures r.Ok? ==> WellFormed(r.value)
    ensures r.Ok? <==> GroupPack(fam, group, ifAddress, h).Ok?
    ensures r.Ok? ==> r.value.value == BytesValue(GroupPack(fam, group, ifAddress, h).value)
    ensures r.Ok? ==> r.value.name == (if fam == SockInet then IpAddMembership else Ipv6JoinGroup)
  {
    var payload :- GroupPack(fam, group, ifAddress, h);
    MembershipOption(fam, IpAddMembership, Ipv6JoinGroup, payload)
  }

  /** `_socketMulticastGroupLeave`. */
  function Leave(fam: SockFamily, group: IfArg, ifAddress: Option<IfArg>, h: Host): (r: Result<SockOpt>)
    ensures r.Ok? ==> WellFormed(r.value)
    ensures r.Ok? <==> GroupPack(fam, group, ifAddress, h).Ok?
    ensures r.Ok? ==> r.value.value == BytesValue(GroupPack(fam, group, ifAddress, h).value)
    ensures r.Ok? ==> r.value.name == (if fam == SockInet then IpDropMembership else Ipv6LeaveGroup)
  {
    var payload :- GroupPack(fam, group, ifAddress, h);
    MembershipOption(fam, IpDropMembership, Ipv6LeaveGroup, payload)
  }

  /** Join and leave succeed and fail together, at the same level, with
      the same payload: 8 bytes for IPv4 and, when `inet_pton` gives its
      16 bytes, 20 for IPv6. */
  lemma JoinLeaveSamePayload(fam: SockFamily, group: IfArg, ifAddress: Option<IfArg>, h: Host)
    ensures Join(fam, group, ifAddress, h).Ok? <==> Leave(fam, group, ifAddress, h).Ok?
    ensures Join(fam, group, ifAddress, h).Ok? ==>
      Join(fam, group, ifAddress, h).value.level == Leave(fam, group, ifAddress, h).value.level &&
      Join(fam, group, ifAddress, h).value.value == Leave(fam, group, ifAddress, h).value.value
    ensures fam == SockInet && Join(fam, group, ifAddress, h).Ok? ==>
      |Join(fam, group, ifAddress, h).value.value.bs| == 8
    ensures (fam == SockInet6 && Join(fam, group, ifAddress, h).Ok? &&
             (forall t :: var p := h.pton(Ip.IPv6, t); p.Some? ==> |p.value| == 16)) ==>
      |Join(fam, group, ifAddress, h).value.value.bs| == 20
  {
  }
}
