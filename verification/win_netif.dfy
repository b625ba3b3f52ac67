/** The pre-XP Windows interface listing of win_netif.py: one record per
    `IP_ADAPTER_INFO` entry, with the hardware address and every valid
    IPv4 address of the adapter's `IP_ADDR_STRING` list.

    The adapter list `GetAdaptersInfo` fills is a parameter, given as the
    sequence of its entries, each with its address list as a first element
    and the elements its `Next` pointers reach. */
module WinNetif {
  import opened Base
  import opened Bytes
  import opened IfRecords
  import Netif

  /** One `IP_ADDR_STRING`: the address and mask texts, each read up to
      its terminating NUL. */
  datatype IpAddrString = IpAddrString(ipAddress: string, ipMask: string)

  /** `hasValidAddress`: the unconfigured address `0.0.0.0` is skipped. */
  predicate HasValidAddress(a: IpAddrString) {
    a.ipAddress != "0.0.0.0"
  }

  /** The tuple `(AF_INET, IpAddress, IpMask)` a valid address gives. */
  function AddressEntry(a: IpAddrString): AddrEntry {
    AddrEntry(FamilyNumber(Windows.inet), Some(a.ipAddress), [Some(a.ipMask)])
  }

  /** One `IP_ADAPTER_INFO` entry.  `address` holds the raw bytes of the
      `Address` field; `more` is the address list after its first
      element. */
  datatype AdapterInfo = AdapterInfo(
    adapterName: string,
    description: string,
    addressLength: nat,
    address: seq<byte>,
    index: int,
    first: IpAddrString,
    more: seq<IpAddrString>)

  /** The address walk as written: the first element is checked, then the
      loop moves to the `Next` pointer and calls `hasValidAddress` on the
      pointer itself, which has no such attribute; the walk only ends
      cleanly when `Next` is null. */
  function AddressEntriesAsWritten(first: IpAddrString, more: seq<IpAddrString>): (r: Result<seq<AddrEntry>>)
    ensures r.Ok? <==> more == []
    ensures r.Err? ==> r.error == AttributeError
    ensures r.Ok? ==> r.value == AddressEntries([first])
  {
    if more != [] then Err(AttributeError)
    else if HasValidAddress(first) then Ok([AddressEntry(first)])
    else Ok([])
  }

  /** The address walk following each element's successor: the tuples of
      the valid addresses, in list order. */
  function AddressEntries(list: seq<IpAddrString>): (r: seq<AddrEntry>)
    ensures |r| <= |list|
    ensures forall k | 0 <= k < |r| ::
              r[k].family == FamilyNumber(Windows.inet) && r[k].addr.Some? && r[k].addr.value != "0.0.0.0"
    ensures forall k | 0 <= k < |r| :: exists i | 0 <= i < |list| :: HasValidAddress(list[i]) && r[k] == AddressEntry(list[i])
    ensures forall i | 0 <= i < |list| :: HasValidAddress(list[i]) ==> AddressEntry(list[i]) in r
    ensures (forall i | 0 <= i < |list| :: HasValidAddress(list[i])) ==> |r| == |list|
    decreases |list|
  {
    if |list| == 0 then []
    else
      var rest := AddressEntries(list[1..]);
      assert forall i | 1 <= i < |list| :: list[i] == list[1..][i - 1];
      if HasValidAddress(list[0]) then [AddressEntry(list[0])] + rest else rest
  }

  /** The walk distributes over the list: the tuples of a list are those of
      its front followed by those of its back, so order is kept. */
  lemma {:induction false} AddressEntriesAppend(front: seq<IpAddrString>, back: seq<IpAddrString>)
    ensures AddressEntries(front + back) == AddressEntries(front) + AddressEntries(back)
    decreases |front|
  {
    if |front| == 0 {
      assert front + back == back;
    } else {
      assert (front + back)[0] == front[0];
      assert (front + back)[1..] == front[1..] + back;
      AddressEntriesAppend(front[1..], back);
      var head := if HasValidAddress(front[0]) then [AddressEntry(front[0])] else [];
      assert head + (AddressEntries(front[1..]) + AddressEntries(back))
          == (head + AddressEntries(front[1..])) + AddressEntries(back);
    }
  }

  /** The two walks agree exactly on adapters with a single address; any
      further address makes the source raise. */
  lemma AddressWalksAgree(first: IpAddrString, more: seq<IpAddrString>)
    ensures more == [] ==> AddressEntriesAsWritten(first, more) == Ok(AddressEntries([first] + more))
    ensures more != [] ==> AddressEntriesAsWritten(first, more) == Err(AttributeError)
  {
    assert [first] + [] == [first];
  }

  /** `IP_ADAPTER_INFO.addInteraface` as written: the record is keyed by
      the adapter name, carries the index and description with flags 0,
      and lists the hardware address (read up to its first NUL) and then
      the address walk. */
  function AddInterfaceAsWritten(a: AdapterInfo): (r: Result<(string, IfRecord)>)
    ensures r.Ok? <==> a.more == []
    ensures r.Err? ==> r.error == AttributeError
    ensures r.Ok? ==>
              var mac := MacFieldAsWritten(a.address, a.addressLength);
              r.value == (a.adapterName,
                          IfRecord(a.adapterName, None, a.index, a.description, 0,
                                   (if mac.Some? then [mac.value] else []) + AddressEntries([a.first])))
  {
    var mac := MacFieldAsWritten(a.address, a.addressLength);
    var addrs :- AddressEntriesAsWritten(a.first, a.more);
    Ok((a.adapterName, IfRecord(a.adapterName, None, a.index, a.description, 0,
                                (if mac.Some? then [mac.value] else []) + addrs)))
  }

  /** `IP_ADAPTER_INFO.addInteraface` with the walk following each
      element's successor and the hardware address read for its full
      length. */
  function AddInterface(a: AdapterInfo): (r: (string, IfRecord))
    ensures r.0 == a.adapterName == r.1.name
    ensures r.1.adapterName == None && r.1.ifIndex == a.index && r.1.desc == a.description && r.1.flags == 0
    ensures var mac := MacField(a.address, a.addressLength);
            && (mac.Some? ==> |r.1.addrs| > 0 && r.1.addrs[0] == mac.value)
            && r.1.addrs[if mac.Some? then 1 else 0..] == AddressEntries([a.first] + a.more)
  {
    var mac := MacField(a.address, a.addressLength);
    var prefix := if mac.Some? then [mac.value] else [];
    var addrs := prefix + AddressEntries([a.first] + a.more);
    assert addrs[|prefix|..] == AddressEntries([a.first] + a.more);
    (a.adapterName, IfRecord(a.adapterName, None, a.index, a.description, 0, addrs))
  }

  /** `win_getifaddrs` as written: the adapters in list order, and the
      first adapter's exception, if any, escapes the whole listing. */
  function WinGetifaddrsAsWritten(adapters: seq<AdapterInfo>): (r: Result<seq<(string, IfRecord)>>)
    ensures r.Ok? <==> forall i | 0 <= i < |adapters| :: adapters[i].more == []
    ensures r.Err? ==> r.error == AttributeError
    ensures r.Ok? ==> |r.value| == |adapters|
    ensures r.Ok? ==> forall i | 0 <= i < |adapters| :: r.value[i] == AddInterfaceAsWritten(adapters[i]).value
    decreases |adapters|
  {
    if |adapters| == 0 then Ok([])
    else
      assert forall i | 1 <= i < |adapters| :: adapters[i] == adapters[1..][i - 1];
      var pair :- AddInterfaceAsWritten(adapters[0]);
      var rest :- WinGetifaddrsAsWritten(adapters[1..]);
      Ok([pair] + rest)
  }

  /** `win_getifaddrs` with the corrected walk: one pair per adapter, in
      list order. */
  function WinGetifaddrs(adapters: seq<AdapterInfo>): (r: seq<(string, IfRecord)>)
    ensures |r| == |adapters|
    ensures forall i | 0 <= i < |adapters| :: r[i] == AddInterface(adapters[i])
  {
    seq(|adapters|, i requires 0 <= i < |adapters| => AddInterface(adapters[i]))
  }

  /** Adapters with a single address each and no NUL in their hardware
      address are listed the same either way. */
  lemma WinListingsAgree(adapters: seq<AdapterInfo>)
    requires forall i | 0 <= i < |adapters| :: adapters[i].more == [] && 0 !in adapters[i].address
    ensures WinGetifaddrsAsWritten(adapters) == Ok(WinGetifaddrs(adapters))
  {
    forall i | 0 <= i < |adapters|
      ensures AddInterfaceAsWritten(adapters[i]) == Ok(AddInterface(adapters[i]))
    {
      AdapterListedAlike(adapters[i]);
    }
  }

  /** One adapter with a single address and no NUL in its hardware
      address gives the same pair either way. */
  lemma AdapterListedAlike(a: AdapterInfo)
    requires a.more == [] && 0 !in a.address
    ensures AddInterfaceAsWritten(a) == Ok(AddInterface(a))
  {
    MacFieldNoZero(a.address, a.addressLength);
    assert [a.first] + a.more == [a.first];
  }

  /** An adapter with a second address makes the source's listing fail,
      where the corrected listing shows both addresses. */
  lemma SecondAddressFails(adapters: seq<AdapterInfo>, i: nat)
    requires i < |adapters| && |adapters[i].more| > 0
    requires HasValidAddress(adapters[i].first) && HasValidAddress(adapters[i].more[0])
    ensures WinGetifaddrsAsWritten(adapters) == Err(AttributeError)
    ensures var list := [adapters[i].first] + adapters[i].more;
            AddressEntry(list[0]) in AddressEntries(list) && AddressEntry(list[1]) in AddressEntries(list)
  {
  }

  /** `_if_indextoname` and `_if_nametoindex` of this platform, bound to
      `platform_if_indextoname` and `platform_if_nametoindex`. */
  function IfIndexToName(idx: int): Result<string> {
    Err(NotImplementedError)
  }

  function IfNameToIndex(name: string): Result<int> {
    Err(NotImplementedError)
  }

  /** With the two stubs visible to netif.py, as the module evidently
      means, `getIFIndex` raises `NotImplementedError` for every name and
      index. */
  lemma GetIFIndexUnsupported(arg: IfArg)
    ensures Netif.GetIFIndex(arg, IfIndexToName, IfNameToIndex) == Err(NotImplementedError)
  {
  }

  /** What netif.py finds under `platform_if_indextoname` and
      `platform_if_nametoindex` after `from win_netif import *`: the
      module's `__all__` leaves both names out, so looking either up
      raises `NameError`. */
  function UnboundIndexToName(idx: int): Result<string> {
    Err(NameError)
  }

  function UnboundNameToIndex(name: string): Result<int> {
    Err(NameError)
  }

  /** As written, `getIFIndex` on this platform never reaches the stubs:
      every name and index raises `NameError` instead of
      `NotImplementedError`. */
  lemma GetIFIndexUnbound(arg: IfArg)
    ensures Netif.GetIFIndex(arg, UnboundIndexToName, UnboundNameToIndex) == Err(NameError)
    ensures Netif.GetIFIndex(arg, UnboundIndexToName, UnboundNameToIndex)
         != Netif.GetIFIndex(arg, IfIndexToName, IfNameToIndex)
  {
  }
}
