# tg-ext-networkinfo in Dafny

This project models the pure logic of the tg-ext-networkinfo networking
helpers and proves properties about it.

- **The select task** (`selectTask.py`):
  - the socket error table and `reraiseSocketError`;
  - the bisection of `_socketFindMaxBufferSize`;
  - the multicast socket options and the `ip_mreq`/`ipv6_mreq` payloads of join and leave;
  - the countdown timer;
  - the `NetworkSelectTask` state machine: a set of selectables, two byte counters and a timer, changed by `add`, `remove`, `filterSelectables` and one `process` turn.
- **IP values** (`ip.py`):
  - an address is a number below `2^(8*byteCount)`, written as `byteCount` big-endian bytes;
  - digit netmasks and the short-netmask table;
  - equality, the `& | ^ ~` operators and `inNetwork`;
  - `IPNet` network/local/broadcast/`contains`;
  - `_splitIPandNetmask`, `guessIPFamily`, and the `ip`/`ipnet` factories.
- **Interface listings**:
  - the `getifaddrs` filter and conversion, `getIFAddressList`, `getIFIndex` and `getIFIndexForIP` (`netif.py`);
  - the `sockaddr` decoders and the `ifaddrs` record builder of `posix_netif.py`;
  - the `SOCKET_ADDRESS` decoders, prefix masks and unicast walk of `winxp_netif.py`;
  - the `IP_ADAPTER_INFO` record builder of `win_netif.py`.

## Modelling choices

Operating-system calls and foreign code become parameters:

- `select`, the trial select of `_verifySelectable`, the selectables' `needsRead`/`needsWrite`/`performRead`/`performWrite`, and the clock (`performRead` and `performWrite` may raise);
- for the multicast options, `_asSockAddr(x)[0]` (a `getaddrinfo` lookup), `getIFIndex`, `getIFIndexForIP` and the `getsockopt` reading of the current multicast interface, together in `Multicast.Host`;
- `setsockopt` acceptance during the buffer probe;
- `if_nametoindex` and `if_indextoname`;
- `inet_pton`/`inet_ntop` for the address families (`Ip.Pton`, `Ip.Ntop`);
- the adapter and `ifaddrs` lists, given as sequences of records.

IPv4 dotted decimal is rendered concretely (`Text.DottedDecimal`).

Python's unbounded two's-complement bit operations are modelled at an explicit width by `Bits.Bitwise`. Truncation to `byteCount` bytes is written out (`Bytes.ToBytes`, `Bytes.Pack`).

Where the source is wrong, the project models both the code as written and a corrected version (see "## Findings"). The rest of the model uses the corrected version:

- `ProcessAsWritten` and `Process` evict selectables through `Filter`, not `FilterAsWritten`.
- `Process` handles a `select.error` as the `socket.error` with the same errno. `ProcessAsWritten` lets it escape.
- `GetIFAddressList` and `GetIFIndexForIP` read the listing through `Getifaddrs`.
- `IpNetOf` guesses the family from the address part of the text. `IpNetOfAsWritten` guesses from the whole text.
- `WinxpNetif.AddInterface` is built from three corrected parts: the untruncated MAC (`IfRecords.MacField`), the walk that decodes each node with its own prefix (`WinxpNetif.UnicastEntries`), and the IPv6 decoder with `inet_ntop` bound (`WinxpNetif.DecodeInet6`). `WinNetif.AddInterface` uses `IfRecords.MacField` and the walk that follows `Next` (`WinNetif.AddressEntries`).
- On Windows, `getIFIndex` reaches the module's stubs (`WinNetif.IfIndexToName`, `WinNetif.IfNameToIndex`). As written, the names are not bound (`WinNetif.UnboundIndexToName`, `WinNetif.UnboundNameToIndex`).

A digit netmask `k` clears the low `k` bits (ip.py:82-86), so `k` counts host bits, not prefix bits. `Ip.DigitNetmask` keeps this as written. Short rendering uses the same convention, so text round-trips (`Ip.DigitNetmaskRoundTrip`).

## Model

| member | source | states |
|---|---|---|
| SocketErrors.Build | selectTask.py:35-55 | The error table's keys are exactly the errno values assigned in it. |
| SocketErrors.BuildLastWins | selectTask.py:35-55 | When two assignments share an errno (EAGAIN and EWOULDBLOCK on Linux), the value of the last one is the one kept. |
| SocketErrors.ReraiseSocketError | selectTask.py:64-67 | The error is returned, and so re-raised, unless its code is in the table and mapped to False. Unknown codes are re-raised. |
| SocketErrors.NonFatalMentioned | selectTask.py:35-55 | Every non-fatal code (EAGAIN, EINTR, EWOULDBLOCK, and the WSA aliases when present) is a key of the table. |
| SocketErrors.Classification | selectTask.py:35-55 | When no code is listed both as fatal and as non-fatal, a code is fatal exactly when it is not one of the non-fatal codes. Every listed fatal code is fatal. |
| SocketErrors.LinuxTable | selectTask.py:35-48 | With the Linux errno values, only 4 (EINTR) and 11 (EAGAIN = EWOULDBLOCK) are retried. Every other code is fatal. |
| BufferSize.LastAccepted | selectTask.py:180-199 | The reference definition of the search's lower end: the default, or a probe the socket accepted. |
| BufferSize.LastRefused | selectTask.py:180-199 | The reference definition of the search's upper end: the default, or a probe the socket refused. |
| BufferSize.FindMaxBufferSize | selectTask.py:180-199 | A cached size is returned with no probe. Otherwise the bisection caches its result. The result lies in [0x2000, 0x80000) and is the last accepted probe, or 0x2000. One more than the result is the last refused probe, or 0x80000. Every probe lies strictly between the bounds. When acceptance is downward closed, every size in (0x2000, result] is accepted and result + 1 is refused unless it reaches 0x80000. |
| Multicast.ReuseAddress | selectTask.py:156-163 | SO_REUSEADDR is always set to 1. IPV6_V6ONLY is set exactly for an IPv6 socket that disallows mixed use. SO_REUSEPORT is set exactly when the platform has it. |
| Multicast.Fileno | selectTask.py:81-87 | The socket's descriptor, or 0 without a socket. |
| Multicast.FilenoAmbiguous | selectTask.py:81-87 | "No socket" and "descriptor 0" give the same `fileno`. |
| Multicast.SetMulticastHops | selectTask.py:205-212 | IPv4 sets IP_MULTICAST_TTL and IPv6 sets IPV6_MULTICAST_HOPS, each at its own level and with the given value. Other families set nothing. |
| Multicast.SetMulticastLoopAsWritten | selectTask.py:214-219 | As written, both families set the option named IP_MULTICAST_LOOP. |
| Multicast.LoopAsWrittenMismatch | selectTask.py:214-219 | On an IPv6 socket the option written is not well formed: IP_MULTICAST_LOOP at level IPPROTO_IPV6. |
| Multicast.SetMulticastLoop | selectTask.py:214-219 | The corrected setter is well formed for both families. It uses IPV6_MULTICAST_LOOP for IPv6 and agrees with the source on IPv4. |
| Multicast.Reverse | selectTask.py:221-241 | The byte order swap maps byte `i` to byte `n-1-i`. |
| Multicast.ReverseReverse | selectTask.py:221-241 | Swapping the byte order twice gives the bytes back. |
| Multicast.PackUInt32 | selectTask.py:221-241 | `struct.pack('I')` succeeds exactly for values in [0, 2^32). Its 4 bytes, read in the host's order, give the value. |
| Multicast.Aton | selectTask.py:221-241 | `inet_aton` yields 4 bytes when it succeeds. |
| Multicast.AtonNtoa | selectTask.py:221-241 | `inet_aton` inverts the dotted-decimal rendering of any 4 bytes. |
| Multicast.V6Selector | selectTask.py:231-239 | The IPv6 interface index is the first truthy one of: `getIFIndex` of a truthy `if_address`; `getIFIndexForIP` of the group, consulted only when a group is given; the socket's current IPV6_MULTICAST_IF. An error raised by either lookup escapes. |
| Multicast.V6SelectorCandidates | selectTask.py:231-239 | A chosen index is always one of the three candidates. When the explicit interface is found, the group lookup cannot change the choice. |
| Multicast.InterfacePacked | selectTask.py:221-241 | Other families give None. IPv4 with a truthy interface gives `inet_aton` of the interface's resolved address, and resolution errors escape. IPv4 without one gives the socket's current IP_MULTICAST_IF as 4 native-order bytes. IPv6 packs V6Selector's index as a native unsigned int, and its errors escape. |
| Multicast.InterfacePackedInet | selectTask.py:222-229 | An IPv4 interface that resolves to the dotted text of 4 bytes is selected by exactly those 4 bytes. Without an interface, the selector is the native bytes of IP_MULTICAST_IF. |
| Multicast.SetMulticastInterface | selectTask.py:252-263 | It succeeds exactly when the group resolves and the selector packs. The option is set exactly for IPv4 and IPv6 (IP_MULTICAST_IF or IPV6_MULTICAST_IF), is well formed, and carries the packed selector as its value. The result flag says whether it was set. |
| Multicast.InterfaceOption | selectTask.py:252-263 | The packed selector becomes the value of the family's multicast-interface option. |
| Multicast.GroupPack | selectTask.py:265-272 | The membership payload is the group's address bytes followed by the selector packed without a group. For IPv4 the group bytes are `inet_aton` of the resolved group, and for IPv6 `inet_pton`. A resolution error escapes. Other families fail. |
| Multicast.GroupPackInet | selectTask.py:265-280 | For an IPv4 group and interface given as dotted quads, the payload is the 4 group bytes then the 4 interface bytes (`ip_mreq`). Join sends it as IP_ADD_MEMBERSHIP. |
| Multicast.GroupPackIgnoresGroupLookup | selectTask.py:265-272 | Join and leave never consult the group's interface: the payload does not depend on `getIFIndexForIP`. |
| Multicast.MembershipOption | selectTask.py:274-288 | The payload becomes the family's membership option at its own level. Other families fail. |
| Multicast.Join | selectTask.py:274-280 | Join succeeds exactly when the payload can be built. It sets IP_ADD_MEMBERSHIP or IPV6_JOIN_GROUP with that payload. |
| Multicast.Leave | selectTask.py:282-288 | Leave succeeds exactly when the payload can be built. It sets IP_DROP_MEMBERSHIP or IPV6_LEAVE_GROUP with that payload. |
| Multicast.JoinLeaveSamePayload | selectTask.py:265-288 | Join and leave succeed together and send the same bytes. For IPv4 these are the 4 group bytes then the 4 interface bytes. For IPv6 they are 16 group bytes then the packed index. |
| SelectTask.NewTimer | selectTask.py:294-300 | A new timer has the given duration and a zero timestamp. |
| SelectTask.Touch | selectTask.py:303-304 | After `touch(now)` the timer is ready at a later time exactly when that time is past `now + duration`. |
| SelectTask.ReadyStaysReady | selectTask.py:301-302 | A ready timer stays ready as the clock advances. |
| SelectTask.NewTask | selectTask.py:315-319 | A new task has no selectables, zero counters and a fresh timer. |
| SelectTask.Add | selectTask.py:321-323 | `add` succeeds exactly when the trial select accepts. On success it inserts the selectable and changes nothing else, so re-adding a member is a no-op. On failure the trial's exception escapes. |
| SelectTask.Remove | selectTask.py:324-325 | `remove` discards one selectable, keeps every other member and changes nothing else. It is a no-op when the selectable is absent. |
| SelectTask.RemoveAfterAdd | selectTask.py:321-325 | Removing a freshly added selectable restores the task. |
| SelectTask.AddAfterRemove | selectTask.py:321-325 | Re-adding a removed member that verifies restores the task. |
| SelectTask.FilterAsWritten | selectTask.py:336-339 | As written, `filterSelectables` returns only for an empty set. |
| SelectTask.FilterAsWrittenRaises | selectTask.py:336-339 | Any member makes the source's filter raise NameError. |
| SelectTask.Filter | selectTask.py:336-350 | The corrected filter keeps exactly the members that pass the trial select. Nothing else changes. |
| SelectTask.FilterIdempotent | selectTask.py:336-350 | Filtering twice is filtering once. The filter never adds members. |
| SelectTask.Readers | selectTask.py:327-328 | The readers are exactly the members that need reading. |
| SelectTask.Writers | selectTask.py:329-330 | The writers are exactly the members that need writing. |
| SelectTask.Total | selectTask.py:403-412 | A dispatch loop's total succeeds exactly when every call does. Otherwise it raises the error of the first failing call. |
| SelectTask.Dispatch | selectTask.py:403-412 | The set and the timer are unchanged. A failing read escapes with both counters as they were. After the reads, `recvBytes` has grown by the read total. A failing write then escapes with `sentBytes` unchanged; otherwise `sentBytes` grows by the write total and nothing escapes. |
| SelectTask.TouchTimer | selectTask.py:399 | Only the timer changes: it is touched at `now`. |
| SelectTask.Proceed | selectTask.py:399-401 | Past the `select`, a turn touches the timer and then dispatches. It sleeps for nothing and records the call. |
| SelectTask.ProcessAsWritten | selectTask.py:377-401 | An empty task never selects: it sleeps for `timeout` exactly when that is non-zero and changes nothing. Otherwise it calls `select` over its readers and writers. On success it touches the timer and dispatches over what was returned. ValueError or TypeError evicts through `Filter`, with no touch, no dispatch and nothing raised. Any other error that is not a `socket.error` escapes with the task unchanged. |
| SelectTask.ProcessSocketError | selectTask.py:392-401 | A `socket.error` escapes, with the task unchanged, exactly when it is not EBADF and the table calls it fatal. EBADF evicts through `Filter`. A retryable error falls through to the touch and the dispatch over the leftover readers and writers. |
| SelectTask.Process | selectTask.py:392-398 | The corrected turn treats a `select.error` as the `socket.error` with its errno. Every other reply gives the turn as written. |
| SelectTask.SelectErrorEscapes | selectTask.py:392 | As written, a `select.error` from `select` escapes with the task unchanged, whatever its errno. The corrected turn evicts on EBADF, carries on past a retryable code and raises a fatal one as a `socket.error`. |
| SelectTask.IsTaskReadyMeaning | selectTask.py:356-369 | `isTaskReady(True)` always holds. `isTaskReady(False)` holds exactly when there are selectables and either the timer is ready or some member wants to write. |
| SelectTask.ReadyAfterTurn | selectTask.py:356-369 | Right after a turn that selected successfully, at the same clock reading, the task is ready without idling exactly when some member wants to write. |
| SelectTask.Stats | selectTask.py:419-420 | `stats` is `(recvBytes, sentBytes)`. |
| SelectTask.StatsReset | selectTask.py:421-423 | After `statsReset` both counters are 0. The set and the timer are kept. |
| SelectTask.TotalPermutation | selectTask.py:403-412 | Reordering the selectables changes neither whether a loop's total raises nor its value. |
| SelectTask.DispatchPermutation | selectTask.py:403-412 | The order in which `select` returns the readers and writers changes neither whether the dispatch raises nor, when it does not, the resulting task. |
| Bytes.Pack | ip.py:91-102 | Writing `n` with `_setIPNumber` and reading it back gives `n` for `0 <= n < 2^(8*byteCount)`. A negative `n` of at most that size wraps to `n + 2^(8*byteCount)`. |
| Bytes.FromToBytes | ip.py:91-102 | For every integer, the round trip keeps exactly the low `8*byteCount` bits. |
| Bytes.ToFromBytes | ip.py:91-102 | Reading bytes as a number and writing it back at the same length gives the bytes. |
| Ip.FromNumber | ip.py:99-102 | An address built from a number has the given family and netmask flag and keeps an in-range number. |
| Ip.FromNumberTruncates | ip.py:99-102 | Any integer is stored modulo `2^(8*byteCount)`. |
| Ip.SetIPNumberInRange | ip.py:99-102 | An in-range number is stored unchanged. |
| Ip.DigitNetmask | ip.py:82-86 | A digit netmask `k` is `max` with the low `k` bits cleared, or 0 when `k` exceeds the width. |
| Ip.FromText | ip.py:76-88 | A digit string given as a netmask becomes the digit netmask. Any other text is accepted exactly when `inet_pton` gives `byteCount` bytes, and the number's big-endian bytes are those bytes. The text is kept for rendering. |
| Ip.EqAddress | ip.py:67-69 | `==` with a value that cannot be read as an address raises that error. Otherwise the result compares `a` with the value read in `a`'s family. |
| Ip.EqNumberArgument | ip.py:67-69 | `a == n` for an integer `n` compares `a` with `n` truncated to the family's width. |
| Ip.EqIffPackedEqual | ip.py:67-71 | Two addresses are equal exactly when their packed bytes are equal, and `!=` is the negation. |
| Ip.EqFromNumbers | ip.py:67-69 | Addresses built from two integers are equal exactly when the integers agree modulo `2^(8*byteCount)`. |
| Ip.Invert | ip.py:149-150 | `~a` is `max - a`: the complement within the family's width. |
| Ip.Op | ip.py:152-164 | `&`, `\|` and `^` with an integer give a plain address of the same family, within the width. |
| Ip.OpBits | ip.py:152-164 | Each bit of `a op other` is the operator applied to the operands' bits at that position. |
| Bits.BitwiseCommutes | ip.py:159-164 | The reflected operators `__rand__`, `__ror__` and `__rxor__` give what the direct ones give: width-bounded `&`, `\|` and `^` commute. |
| Ip.InNetwork | ip.py:168-174 | `inNetwork` holds exactly when every further address masks to the first address's network. |
| Ip.ShortKey | ip.py:183-185 | The key of short length `i` is `max` with the low `i` bits cleared. |
| Ip.ShortTableUpToEntries | ip.py:183-185 | The table built for `i < n` maps each such key to its `i`. Every key in it is the key of its value. |
| Ip.ShortTableMeaning | ip.py:183-185 | The table maps `v` to `i` exactly when `i` is at most the width and `v` is `max` with the low `i` bits cleared. |
| Ip.AsStrMeaning | ip.py:189-194 | In short form, a netmask that is `max` with the low `i` bits cleared renders as `str(i)`. Any other value, any non-netmask, and the long form render the stored text. |
| Ip.DigitNetmaskRoundTrip | ip.py:82-86 | The digit netmask `str(k)` renders in short form as `str(k)`. |
| Ip.SplitIPandNetmask | ip.py:298-310 | A value that is not text, or text without '/', passes through. Otherwise the text splits at its first '/'. A differing explicit netmask is a ValueError. |
| Ip.MakeNet | ip.py:261-273 | A conflicting netmask is a ValueError, and an error reading the address or the netmask escapes. The address is the split-off address part read in the family. The netmask is set exactly when the netmask given or split off is truthy, and then it is that value read as a netmask of the family. |
| Ip.Network | ip.py:275-277 | `network` needs a netmask and otherwise raises TypeError. It gives a plain address of the family whose bit `i` is set exactly when both the address and the netmask have it. |
| Ip.Local | ip.py:279-281 | `local` needs a netmask and otherwise raises TypeError. For a well-formed net, bit `i` is set exactly when the address has it and the netmask does not. |
| Ip.Broadcast | ip.py:283-285 | `broadcast` needs a netmask and otherwise raises TypeError. For a well-formed net, every bit the netmask clears is set, and every bit it sets is the address's bit. |
| Ip.Contains | ip.py:314-317 | `contains(x)` raises what reading `x` raises. Without a netmask it raises AttributeError. Otherwise it holds exactly when `x & m` equals `ip & m`. |
| Ip.NetworkLocalPartition | ip.py:275-281 | `network \| local` is the address, and `network & local` is 0. |
| Ip.ContainsOwnAddresses | ip.py:275-285 | A net contains its own address, its network address and its broadcast address. |
| Ip.ContainsIffSameNetwork | ip.py:314-317 | A net contains `x` exactly when `x & netmask` equals its network address. |
| Ip.GuessIPFamily | ip.py:350-356 | Two or more ':' mean IPv6. Otherwise exactly three '.' mean IPv4. Anything else is a ValueError. |
| Ip.GuessDottedQuad | ip.py:350-356 | The dotted-decimal text of any 4 bytes is guessed as IPv4. |
| Ip.IpOf | ip.py:358-364 | `ip(s)` without a family is a ValueError for a text of neither shape. In the given or guessed family, a digit netmask is the digit netmask, and any other text succeeds exactly when `inet_pton` gives the family's byte count. Every other failure is the address-text error. The result has that family, its bytes are what `inet_pton` gives for `s`, and it keeps `s` as its text. |
| Ip.IpOfText | ip.py:358-364 | An address read from a text renders that text back. With two or more ':' it is IPv6, and otherwise IPv4. |
| Ip.IpNetOfAsWritten | ip.py:366-372 | As written, `ipnet(s)` without a family guesses it from the whole text, netmask included. |
| Ip.IpNetDottedNetmask | ip.py:366-372 | As written, `ipnet("a.b.c.d/m.n.o.p")` raises ValueError: the text has six dots. |
| Ip.AddressPart | ip.py:298-310 | The address part holds no '/'. It is the whole text when there is no '/', and otherwise what precedes the first one. |
| Ip.IpNetOf | ip.py:366-372 | The corrected `ipnet` is the source's `ipnet` given the family guessed from the address part only. It agrees with the source for a given family and for texts without '/'. A text whose address part has neither shape is a ValueError. |
| Ip.IpNetDottedNetmaskIntended | ip.py:366-372 | The corrected `ipnet` reads an address with a dotted netmask as an IPv4 net. |
| Ip.NetTextRoundTrip | ip.py:298-310 | Parsing "addr/k" gives the address and the digit netmask `k`. Rendering that net with `asStr` (ip.py:252-256) in short form gives "addr/k" back. |
| IfRecords.MacEntry | winxp_netif.py:214-215 | A MAC entry exists exactly for a non-empty address. Its text, hex bytes joined by ':', parses back to the bytes. |
| IfRecords.UpToNul | win_netif.py:61 | A `c_char` array field reads as the bytes before its first NUL. |
| IfRecords.MacFieldAsWritten | winxp_netif.py:214-215 | As written, the MAC is the first `length` bytes of the NUL-truncated field. |
| IfRecords.MacField | win_netif.py:87-88 | The corrected MAC entry is present exactly when the length and the field are non-empty. It holds the first `length` raw bytes. |
| IfRecords.MacFieldLeadingZero | win_netif.py:87-88 | A hardware address starting with a zero byte loses its MAC entry as written. The corrected version keeps it. |
| IfRecords.MacFieldNoZero | win_netif.py:87-88 | Without a zero byte both readings agree. |
| Netif.FamilyOf | netif.py:35-39 | A family tag selects the IPv6 class or the IPv4 class, or no class (the LookupError case). |
| Netif.IfaddrAsIP | netif.py:35-39 | An unregistered family returns the raw tuple. Otherwise the entry becomes an `IPNet` of that family, or raises exactly when `ipnet` raises. For an address without '/', its bytes are what `inet_pton` gives and its netmask is set exactly for a truthy netmask. No LookupError escapes. |
| Netif.FromTextErrors | netif.py:35-39 | The only error that reading an address can raise is the address-text error, never a LookupError. |
| Netif.Kept | netif.py:45-47 | The kept entries are exactly those with a truthy address and, when families are given, a listed family. |
| Netif.KeptIdempotent | netif.py:45-47 | Filtering twice is filtering once. |
| Netif.GetifaddrsAsWritten | netif.py:41-43 | As written, every call raises AttributeError. |
| Netif.GetifaddrsFails | netif.py:41-50 | The listing fails exactly when a contributing interface has an address that does not convert. |
| Netif.GetifaddrsKeys | netif.py:41-50 | The keys are exactly the names of interfaces with at least one kept address. |
| Netif.GetifaddrsValues | netif.py:41-50 | Each name maps to the converted kept addresses of the last interface of that name that contributes. |
| Netif.GetifaddrsByFamily | netif.py:52-58 | With one family (`getifaddrs_v4`, `_v6`, `_mac`), every listed element is a net of that family, or the raw tuple of a family with no address class. |
| Netif.GetifaddrsAsWrittenLosesListing | netif.py:41-50 | Where the source raises, the corrected listing succeeds and names every contributing interface. |
| Netif.GetIFAddressList | netif.py:60-65 | The list of `ifname` is the converted list of its last contributing interface. A name with no kept address is a KeyError (LookupError). Listing failures escape. |
| Netif.GetIFIndex | netif.py:67-73 | An integer is returned exactly when the platform names it. A string is looked up by name. The platform's errors escape. |
| Netif.GetIFIndexByNameOrNumber | netif.py:67-73 | Where the platform's lookups are inverse, asking by name and by index agree. |
| Netif.Member | netif.py:79 | `ip in iplist` finds an equal net address, finds none, or raises TypeError on a raw tuple before reaching one. |
| Netif.Search | netif.py:78-80 | The loop returns a name whose list contains the address. It returns None exactly when no list does. It raises only TypeError, and only when some list holds a raw tuple. |
| Netif.GetIFIndexForIP | netif.py:75-81 | Bad address text and listing failures escape. Otherwise the result is None exactly when no listed interface holds the address. Any other result, value or error, is `getIFIndex` of an interface whose list holds it, or the TypeError of a list holding a raw tuple. |
| PosixNetif.Data | posix_netif.py:56 | The data bytes are the first `sa_len + 1` bytes of `sa_data`, clamped to the field. |
| PosixNetif.Link | posix_netif.py:65-78 | `_link` raises IndexError exactly when the header is shorter than 6 bytes. Otherwise it renders bytes `[6+nlen, 6+nlen+alen)` as hex joined by ':'. |
| PosixNetif.LinkOfLayout | posix_netif.py:65-78 | For a `sockaddr_dl` laid out as index, type, lengths, name, address and selector, `_link` gives exactly the address's hex text. |
| PosixNetif.Ntop | posix_netif.py:99 | `inet_ntop` succeeds exactly on a packed address of the family's length. |
| PosixNetif.Ipv4 | posix_netif.py:81-89 | `_ipv4` succeeds exactly when 6 bytes are present. |
| PosixNetif.Ipv4OfLayout | posix_netif.py:81-89 | `_ipv4` renders the 4 bytes after the port. |
| PosixNetif.Ipv6 | posix_netif.py:92-102 | `_ipv6` succeeds exactly when 22 bytes are present. |
| PosixNetif.Ipv6OfLayout | posix_netif.py:92-102 | `_ipv6` renders the 16 bytes after the port and the flow info. |
| PosixNetif.GetAddress | posix_netif.py:55-60 | Families other than AF_LINK (18), AF_INET and AF_INET6 give None. The others are decoded by their handler. |
| PosixNetif.OptionalAddress | posix_netif.py:130-132 | A null pointer, or a falsy decoded address, gives None. Decoding errors escape. |
| PosixNetif.EntryFor | posix_netif.py:134-139 | An address tuple is added only for AF_LINK `(family, mac)`, AF_INET `(family, addr, netmask, dstaddr)` and AF_INET6 `(family, addr, netmask)`. |
| PosixNetif.AddInterface | posix_netif.py:118-139 | It fails exactly when decoding the address, the netmask or the destination raises. Otherwise it gives a `(name, record)` pair with the name, `if_nametoindex` of it, an empty description and the flags. The record lists the tuple EntryFor builds from the three decoded addresses, which is non-empty exactly for the three families. |
| PosixNetif.AddInterfaceInet | posix_netif.py:118-139 | An IPv4 node whose address, netmask and destination are `sockaddr_in` bodies is recorded as `(AF_INET, addr, netmask, dstaddr)`, each rendered by `inet_ntop`. |
| PosixNetif.PosixGetifaddrs | posix_netif.py:167-177 | One pair per list node, in list order. The first failing node's error escapes. |
| PosixNetif.PosixPairsNamed | posix_netif.py:167-177 | Each pair's key is its node's interface name. |
| WinxpNetif.SignedShort | winxp_netif.py:46 | The `h` field is the signed 16-bit value whose big-endian bytes are the high and then the low byte. |
| WinxpNetif.PrefixMask | winxp_netif.py:49-51 | The mask of prefix `p` is the `w`-bit value with the top `p` bits set. |
| WinxpNetif.PrefixMaskBits | winxp_netif.py:49-51 | Bit `i` of the prefix mask is set exactly when `i >= w - p`. |
| WinxpNetif.PackHalves | winxp_netif.py:59-62 | Packing the high and the low 64-bit half with `!QQ` writes the value's 16 big-endian bytes. |
| WinxpNetif.Inet6MaskBytesAre | winxp_netif.py:59-62 | The source's IPv6 mask computation gives the bytes of the netmask with the top `p` bits set. |
| WinxpNetif.NetmaskBytesInjective | winxp_netif.py:49-62 | Different prefix lengths give different mask bytes. |
| WinxpNetif.InetMaskBytes | winxp_netif.py:49-51 | The IPv4 mask bytes are those of the netmask with the top `p` bits set. |
| WinxpNetif.Inet6MaskBytes | winxp_netif.py:59-62 | The IPv6 mask bytes are those of the netmask with the top `p` bits set. |
| WinxpNetif.DecodeInet | winxp_netif.py:45-52 | A 16-byte `sockaddr_in` gives its family, its address bytes 4..8 in dotted decimal and the dotted-decimal prefix mask. Another length is a struct.error. A prefix over 32 is a ValueError. |
| WinxpNetif.DecodeInet6AsWritten | winxp_netif.py:55-64 | As written, every call fails: struct.error, the ValueError of a negative shift, or NameError at the unbound `socket`. |
| WinxpNetif.DecodeInet6 | winxp_netif.py:55-64 | With `inet_ntop` bound, a 28-byte `sockaddr_in6` gives its family, address bytes 8..24 as hex and the rendered prefix mask. |
| WinxpNetif.DecodeInet6Unbound | winxp_netif.py:55-64 | On every well-formed IPv6 address the source raises NameError where the bound decoder succeeds. |
| WinxpNetif.SockAddressEntries | winxp_netif.py:39-43 | The first byte chooses the decoder. An unknown family yields nothing. An empty address is an IndexError. |
| WinxpNetif.UnicastPrefix | winxp_netif.py:93-97 | The prefix is `OnLinkPrefixLength` exactly when the node's `Length` is the declared structure size, and 0 otherwise. |
| WinxpNetif.Concat | winxp_netif.py:69-74 | The entries of several decodings succeed exactly when every decoding does. Otherwise they fail with the first failure. A single decoding gives its own entries. |
| WinxpNetif.ConcatAppend | winxp_netif.py:69-74 | Concatenating two runs of decodings: the first run's failure wins; otherwise the second run's failure, or the first run's entries followed by the second's. |
| WinxpNetif.ListEntries | winxp_netif.py:69-74 | The walk with one prefix succeeds exactly when every node decodes, giving at most one entry per node. A single node gives its own decoding. |
| WinxpNetif.ListEntriesAppend | winxp_netif.py:69-74 | The walk over two lists joined is the walk over the first followed by the walk over the second, in list order. The first list's failure wins. |
| WinxpNetif.UnicastEntriesAsWritten | winxp_netif.py:69-97 | As written, the walk uses the head node's prefix for every node. An empty list gives nothing. |
| WinxpNetif.UnicastEntries | winxp_netif.py:69-97 | The corrected walk succeeds exactly when every node decodes with its own prefix. A single node gives its own decoding. |
| WinxpNetif.UnicastEntriesAppend | winxp_netif.py:69-97 | The corrected walk over two lists joined is the walk over the first followed by the walk over the second, in list order. The first list's failure wins. |
| WinxpNetif.UnicastSharedPrefix | winxp_netif.py:69-97 | When all nodes have one prefix, the corrected walk is the single-prefix walk. |
| WinxpNetif.TwoNodes | winxp_netif.py:69-97 | For two nodes, the source decodes the second with the first node's prefix, and the corrected walk uses its own. |
| WinxpNetif.InetMaskDiffers | winxp_netif.py:45-52 | The same IPv4 address with different prefixes gives different mask texts. |
| WinxpNetif.UnicastPrefixDiffers | winxp_netif.py:69-97 | Two IPv4 nodes with different prefixes are listed differently by the source and by the corrected walk. |
| WinxpNetif.AddInterface | winxp_netif.py:202-217 | The pair is keyed by the friendly name. The record carries the adapter name, index, description and flags. It lists the corrected MAC entry when present, then the unicast entries of the corrected walk. It fails exactly when that walk fails. |
| WinxpNetif.WinxpGetifaddrs | winxp_netif.py:236-254 | A zero size or a failing status gives an empty listing. Otherwise the listing holds one pair per adapter, in order. |
| WinxpNetif.AddAll | winxp_netif.py:243-252 | The adapters are added in order. The listing fails exactly when some adapter fails, and then with that adapter's error. |
| WinNetif.AddressEntriesAsWritten | win_netif.py:90-95 | As written, the walk raises AttributeError exactly when an adapter has a second address. Otherwise it lists the first address if it is valid. |
| WinNetif.AddressEntries | win_netif.py:90-95 | The corrected walk lists `(AF_INET, address, mask)` for exactly the valid addresses, never '0.0.0.0'. |
| WinNetif.AddressEntriesAppend | win_netif.py:90-95 | The walk keeps list order: the entries of a joined list are those of its parts, joined. |
| WinNetif.AddressWalksAgree | win_netif.py:90-95 | The two walks agree exactly on single-address adapters. |
| WinNetif.AddInterfaceAsWritten | win_netif.py:76-95 | As written, the record is built only for single-address adapters. Others raise AttributeError. |
| WinNetif.AddInterface | win_netif.py:76-95 | The record has name = AdapterName, if_index = Index, desc = Description and flags 0. It lists the corrected MAC entry when present, then every valid address. |
| WinNetif.WinGetifaddrsAsWritten | win_netif.py:113-127 | As written, the listing succeeds exactly when no adapter has a second address. It then has one pair per adapter, in order. |
| WinNetif.WinGetifaddrs | win_netif.py:113-127 | The corrected listing has one pair per adapter, in order. |
| WinNetif.WinListingsAgree | win_netif.py:76-127 | Adapters with a single address and no zero byte in their hardware address are listed alike by both. |
| WinNetif.SecondAddressFails | win_netif.py:90-95 | A second valid address makes the source's listing fail, where the corrected walk lists both. |
| WinNetif.GetIFIndexUnbound | netif.py:67-73 | As written, `getIFIndex` on Windows raises NameError for every name and index, not the stubs' NotImplementedError. |
| WinNetif.GetIFIndexUnsupported | win_netif.py:105-111 | With the stubs visible to netif.py, `getIFIndex` raises NotImplementedError for every argument. |
| Text.DecimalRoundTrip | ip.py:82-86 | `str(n)` is a digit string that parses back to `n`. |
| Text.MacStringRoundTrip | posix_netif.py:76 | Hex bytes joined by ':' parse back to the bytes. |
| Text.MacStringEmpty | win_netif.py:87-88 | The joined MAC text is empty exactly for no bytes, which is when no MAC entry is added. |
| Text.HexStringRoundTrip | winxp_netif.py:57 | `encode('hex')` gives two lower-case digits per byte, which parse back to the bytes. |
| Base.AllOk | posix_netif.py:172-174 | Adding nodes in order stops at the first raising node. It succeeds exactly when every node does, with one value per node, in order. |
| Base.Slice | posix_netif.py:56 | Python's non-negative slice clamps both ends to the length. |

## Left out

- `sockaddr`/`normalize` (ip.py:40-53), `_normSockAddr`/`_asSockAddr` (selectTask.py:135-152): they resolve through `getaddrinfo`, a network call. `ip()` and `ipnet()` return the value before `normalize`.
- `inet_pton`/`inet_ntop` for IPv6 are the parameters `Ip.Pton`/`Ip.Ntop`, not a text codec. `inet_aton` is modelled on plain decimal dotted quads only. Its shorthand forms (`"127.1"`), octal fields with a leading zero (`"010"` is 8) and hex fields (`"0x0a"`) are not: `Multicast.Aton` reads `"010"` as 10. Its inputs are the numeric texts `getaddrinfo` returns, which have none of these forms.
- The socket layer: creating and configuring sockets (`fcntl` CLOEXEC, `setSocket`, `createSocket`) and the setsockopt calls of `_socketSetMaxBufferSize`. Options are modelled as the values to be set. Probe acceptance is a parameter.
- `statsRepr` (selectTask.py:425-429): floating-point formatting.
- `fromPacked` and the fallback `unpack` (ip.py:137-145): they use unbound names.
- `stdinWatcher.py`, `gen/codeGen.py` and the `TaskBase` scheduler: terminal I/O, a code generator and an external scheduler.
- Platform detection (netif.py:21-31), the ctypes layouts, library loading, `GetAdaptersInfo`/`GetAdaptersAddresses` buffer sizing, `freeifaddrs`, and the `OSError` of a failing `getifaddrs` call. These are foreign calls. The adapter and node lists are parameters.
- Python dict iteration order. `getIFIndexForIP` walks interface names in listing order.
- SelectTask.ProcessAsWritten: after a retryable socket error, what `select` consumed from the reader and writer generators is not computed. The leftovers are part of `select`'s reply.
- SelectTask.Readers: `needsRead` and `needsWrite` are total functions here. An exception they raise inside the generators surfaces only as what the `select` parameter returns.
- Ip.FromText: a bad address text is reported at construction. The source reports it when the number is first needed.
- Netif.Getifaddrs: stated through `GetifaddrsFails`, `GetifaddrsKeys`, `GetifaddrsValues` and `GetifaddrsByFamily` rather than its own ensures.
- `getifaddrs_mac`/`_v4`/`_v6` and `getIFAddressList_v4`/`_v6` (netif.py:52-65): these are `getifaddrs` and `getIFAddressList` with one family, covered by `GetifaddrsByFamily` and `GetIFAddressList`.

## Findings

| source | as written | input that shows it | evidently intended | confidence | as-written member | corrected member |
|---|---|---|---|---|---|---|
| selectTask.py:338 | `filterSelectables` refers to the unbound name `selectable` | any task with one selectable whose select raises ValueError | keep exactly the members that pass `_verifySelectable` | high, not executed | SelectTask.FilterAsWritten (SelectTask.FilterAsWrittenRaises) | SelectTask.Filter (SelectTask.FilterIdempotent) |
| selectTask.py:219 | the IPv6 branch sets `IP_MULTICAST_LOOP` at level `IPPROTO_IPV6` | `_socketSetMulticastLoop` on an AF_INET6 socket | `IPV6_MULTICAST_LOOP` at `IPPROTO_IPV6` | high, not executed | Multicast.SetMulticastLoopAsWritten (Multicast.LoopAsWrittenMismatch) | Multicast.SetMulticastLoop |
| winxp_netif.py:63 | `socket.inet_ntop` but only `AF_INET`/`AF_INET6` are imported from `socket` (lines 22-23) | any 28-byte AF_INET6 unicast address with prefix at most 128 | render the mask with `inet_ntop` | high, not executed | WinxpNetif.DecodeInet6AsWritten (WinxpNetif.DecodeInet6Unbound) | WinxpNetif.DecodeInet6 |
| win_netif.py:90-95 | after the first element the loop holds a `POINTER(IP_ADDR_STRING)` and calls `hasValidAddress` on it | an adapter with two IPv4 addresses | follow `Next` to the next element and test it | high, not executed | WinNetif.AddressEntriesAsWritten (WinNetif.SecondAddressFails, WinNetif.WinGetifaddrsAsWritten) | WinNetif.AddressEntries (WinNetif.AddressWalksAgree, WinNetif.WinGetifaddrs) |
| netif.py:43 | `.items()` on the list of `(name, record)` pairs each platform returns | any call of `getifaddrs` | iterate the pairs | high, not executed | Netif.GetifaddrsAsWritten (Netif.GetifaddrsAsWrittenLosesListing) | Netif.Getifaddrs (Netif.GetifaddrsKeys) |
| winxp_netif.py:69-74, 93-97 | the prefix length of the head node is used for every node of the unicast list | two IPv4 unicast nodes with prefixes 24 and 16 | each node decoded with its own `OnLinkPrefixLength` | medium, not executed | WinxpNetif.UnicastEntriesAsWritten (WinxpNetif.UnicastPrefixDiffers) | WinxpNetif.UnicastEntries (WinxpNetif.UnicastSharedPrefix) |
| win_netif.py:61, 87; winxp_netif.py:165, 214 | the hardware address is a `c_char` array, which reads only up to its first NUL | a hardware address starting with byte 00 | the first `AddressLength` raw bytes | medium, not executed | IfRecords.MacFieldAsWritten (IfRecords.MacFieldLeadingZero) | IfRecords.MacField (IfRecords.MacFieldNoZero) |
| win_netif.py:9-16 | `__all__` leaves out `platform_if_indextoname` and `platform_if_nametoindex`, so `from win_netif import *` in netif.py binds neither | `getIFIndex(5)` on Windows | reach the stubs, which raise NotImplementedError | high, not executed | WinNetif.GetIFIndexUnbound | WinNetif.GetIFIndexUnsupported |
| selectTask.py:392 | the handler catches `socket.error` only, but Python 2's `select.select` raises `select.error`, which is not a subclass of it | a `select` call interrupted by a signal (EINTR) | carry on past EINTR and evict on EBADF, as for a socket error | medium, not executed | SelectTask.ProcessAsWritten (SelectTask.SelectErrorEscapes) | SelectTask.Process (SelectTask.SelectErrorEscapes) |
| ip.py:366-368 | the family is guessed from the whole text, netmask included | `ipnet("10.0.0.1/255.0.0.0")`, which has six dots | guess from the address before the '/' | medium, not executed | Ip.IpNetOfAsWritten (Ip.IpNetDottedNetmask) | Ip.IpNetOf (Ip.IpNetDottedNetmaskIntended) |
