/** The records the interface listings produce, shared by the POSIX and
    Windows listings and the filters of netif.py: an interface record (a
    dict with `name`, `if_index`, `desc`, `flags` and `addrs`) and the
    address tuples in its `addrs` list. */
module IfRecords {
  import opened Base
  import opened Bytes
  import opened Text

  /** The platform's `socket.AF_INET` and `socket.AF_INET6` numbers. */
  datatype Families = Families(inet: int, inet6: int)

  /** Winsock's AF_INET and AF_INET6. */
  const Windows := Families(2, 23)

  /** The first element of an address tuple: a socket family number, or the
      string `'mac'` the Windows listings use for hardware addresses. */
  datatype FamilyTag = FamilyNumber(n: int) | MacTag

  /** An address tuple `(family, addr, ...)`; `extra` holds what follows
      the address (the netmask, then the destination address). */
  datatype AddrEntry = AddrEntry(family: FamilyTag, addr: Option<string>, extra: seq<Option<string>>)

  /** The third element of the tuple, `None` when the tuple is shorter
      (the default `ifaddrAsIP` gives its `netmask` parameter). */
  function NetmaskOf(e: AddrEntry): Option<string> {
    if |e.extra| > 0 then e.extra[0] else None
  }

  /** One interface.  `adapterName` is the extra key the XP listing adds. */
  datatype IfRecord = IfRecord(
    name: string,
    adapterName: Option<string>,
    ifIndex: int,
    desc: string,
    flags: int,
    addrs: seq<AddrEntry>)

  /** An interface argument of `getIFIndex`: a name or an index. */
  datatype IfArg = IfText(s: string) | IfNumber(n: int)

  /** The hardware-address entry of the Windows listings: `'mac'` and the
      colon-separated hex of the bytes, present only when the text is
      non-empty. */
  function MacEntry(bs: seq<byte>): (r: Option<AddrEntry>)
    ensures r.Some? <==> |bs| > 0
    ensures r.Some? ==> r.value.family == MacTag && r.value.extra == []
    ensures r.Some? ==> r.value.addr.Some? && ParseMac(r.value.addr.value) == Some(bs)
  {
    MacStringEmpty(bs);
    if MacString(bs) != "" then
      MacStringRoundTrip(bs);
      Some(AddrEntry(MacTag, Some(MacString(bs)), []))
    else None
  }

  /** The value ctypes gives for a `c_char` array field: the bytes before
      the first NUL. */
  function UpToNul(bs: seq<byte>): (r: seq<byte>)
    ensures |r| <= |bs| && r == bs[..|r|]
    ensures 0 !in r
    ensures |r| < |bs| ==> bs[|r|] == 0
    decreases |bs|
  {
    if |bs| == 0 || bs[0] == 0 then [] else [bs[0]] + UpToNul(bs[1..])
  }

  /** Without a NUL the field reads back whole. */
  lemma {:induction false} UpToNulNoZero(bs: seq<byte>)
    requires 0 !in bs
    ensures UpToNul(bs) == bs
    decreases |bs|
  {
    if |bs| > 0 {
      assert 0 !in bs[1..];
      UpToNulNoZero(bs[1..]);
      assert bs == [bs[0]] + bs[1..];
    }
  }

  /** The hardware-address entry as the Windows listings compute it: the
      `c_char[8]` address field, sliced to the reported length.  Reading
      the field stops at the first zero byte. */
  function MacFieldAsWritten(raw: seq<byte>, len: nat): (r: Option<AddrEntry>)
    ensures r.Some? ==> r.value.addr.Some? && ParseMac(r.value.addr.value) == Some(Slice(UpToNul(raw), 0, len))
  {
    MacEntry(Slice(UpToNul(raw), 0, len))
  }

  /** The hardware-address entry over the first `len` raw address bytes. */
  function MacField(raw: seq<byte>, len: nat): (r: Option<AddrEntry>)
    ensures r.Some? <==> len > 0 && |raw| > 0
    ensures r.Some? ==> r.value.family == MacTag
    ensures r.Some? ==> r.value.addr.Some? && ParseMac(r.value.addr.value) == Some(raw[..if len < |raw| then len else |raw|])
  {
    MacEntry(Slice(raw, 0, len))
  }

  /** A hardware address whose first byte is zero loses its entry in the
      field read, and the raw bytes keep it. */
  lemma MacFieldLeadingZero(raw: seq<byte>, len: nat)
    requires |raw| > 0 && raw[0] == 0 && len > 0
    ensures MacFieldAsWritten(raw, len).None?
    ensures MacField(raw, len).Some?
  {
  }

  /** Without a zero byte the two readings agree. */
  lemma MacFieldNoZero(raw: seq<byte>, len: nat)
    requires 0 !in raw
    ensures MacFieldAsWritten(raw, len) == MacField(raw, len)
  {
    UpToNulNoZero(raw);
  }
}
